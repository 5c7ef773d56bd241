/*
 * How the chunker's output meets the result loop (lines 258 and 273-287 of
 * translate_file_app_en_to_zh_chunking.py): an empty chunk is never sent to
 * the model, so it always turns into a failure block.
 */
module Pipeline {
  import opened TextOps
  import opened ChunkSpec
  import opened Translation

  /**
   * As written, a text whose first paragraph has `m - 1` or `m` characters
   * gets a failure block "chunk 1 failed: unknown error" whatever the model
   * does, because line 132 emitted an empty first chunk.
   */
  lemma SpuriousFirstFailure(text: string, m: nat, reply: Reply)
    requires m >= 1
    requires m - 1 <= |SplitOn(text, Sep)[0]| <= m
    ensures |Chunks(text, m)| >= 1
    ensures Entry(1, TranslateText(Chunks(text, m)[0], reply)) == FailureBlock(1, UnknownError)
  {
    LeadingEmptyChunk(text, m);
    EmptyChunkFails(1, reply);
  }

  /** With the flush guarded, every chunk is sent to the model. */
  lemma GuardedChunksAreSent(text: string, m: nat, i: nat, reply: Reply)
    requires m >= 1 && i < |GuardedChunks(text, m)|
    ensures TranslateText(GuardedChunks(text, m)[i], reply).Some?
  {
    GuardedChunksNonEmpty(text, m);
  }
}
