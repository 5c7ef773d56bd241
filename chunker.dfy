/*
 * `split_text_into_chunks` (translate_file_app_en_to_zh_chunking.py,
 * lines 80-139) as the imperative loop it is: a `for` loop over the
 * paragraphs that appends to `chunks` and reassigns `current`, with a nested
 * `while` loop that walks an oversized paragraph `max_chars` characters at a
 * time. Python's `len` is the sequence length. The nested loop is written as
 * a method of its own, `CutOversized`, which the outer loop calls where the
 * source has it inline.
 */
module Chunker {
  import opened TextOps
  import opened ChunkSpec

  method SplitTextIntoChunks(text: string, maxChars: int) returns (chunks: seq<string>)
    requires maxChars >= 1
    ensures chunks == Chunks(text, maxChars)
    ensures forall i :: 0 <= i < |chunks| ==> |chunks[i]| <= maxChars
    ensures NonEmpty(Flatten(Groups(text, maxChars, false))) ==
      NonEmpty(Pieces(SplitOn(text, Sep), maxChars))
  {
    var m: nat := maxChars;
    chunks := [];
    var paragraphs := SplitOn(text, Sep);
    var current := "";
    ghost var acc := Start;

    for k := 0 to |paragraphs|
      invariant acc == Fold(paragraphs[..k], m, false)
      invariant chunks == Render(acc.done) && current == Current(acc)
    {
      var paragraph := paragraphs[k];
      assert paragraphs[..k + 1][..k] == paragraphs[..k];
      if |paragraph| > m {
        chunks, current := CutOversized(paragraph, m, chunks, current, acc);
        acc := SliceFold(acc, Slices(paragraph, m), m);
      } else {
        ParagraphStepUpdates(acc, paragraph, m);
        if |current| + |paragraph| + 2 <= m {
          if current != "" {
            current := current + "\n\n" + paragraph;
          } else {
            current := paragraph;
          }
        } else {
          // the current chunk is emitted here even when it is empty
          chunks := chunks + [current];
          current := paragraph;
        }
        acc := ParagraphStep(acc, paragraph, m, false);
      }
    }

    assert paragraphs[..|paragraphs|] == paragraphs;
    if current != "" {
      RenderSnoc(acc.done, acc.cur);
      chunks := chunks + [current];
    }
    SizeBound(text, m, false);
    ChunkContent(text, m, false);
  }

  /**
   * Lines 93-117: cut `paragraph` into slices of at most `maxChars`
   * characters, left to right, and let each slice meet the current chunk.
   * `acc` is the state the incoming `chunks` and `current` stand for.
   */
  method CutOversized(paragraph: string, maxChars: nat, chunks: seq<string>, current: string,
                      ghost acc: Acc)
    returns (chunks': seq<string>, current': string)
    requires maxChars >= 1
    requires chunks == Render(acc.done) && current == Current(acc)
    ensures chunks' == Render(SliceFold(acc, Slices(paragraph, maxChars), maxChars).done)
    ensures current' == Current(SliceFold(acc, Slices(paragraph, maxChars), maxChars))
  {
    var m := maxChars;
    chunks', current' := chunks, current;
    var start := 0;
    ghost var st := acc;
    ghost var sliced: seq<string> := [];
    assert paragraph[0..] == paragraph;
    while start < |paragraph|
      invariant 0 <= start <= |paragraph|
      invariant Slices(paragraph, m) == sliced + Slices(paragraph[start..], m)
      invariant st == SliceFold(acc, sliced, m)
      invariant chunks' == Render(st.done) && current' == Current(st)
      decreases |paragraph| - start
    {
      var end := if start + m < |paragraph| then start + m else |paragraph|;
      var piece := paragraph[start..end];
      SlicesFrom(paragraph, start, m);
      SliceStepUpdates(st, piece, m);

      if |current'| + |piece| + 2 <= m {
        if current' != "" {
          current' := current' + "\n\n" + piece;
        } else {
          current' := piece;
        }
      } else {
        if current' != "" {
          chunks' := chunks' + [current'];
        }
        current' := piece;
        if |current'| >= m {
          // a slice of full width is a chunk of its own
          chunks' := chunks' + [current'];
          current' := "";
        }
      }

      st := SliceStep(st, piece, m);
      assert (sliced + [piece])[..|sliced|] == sliced;
      sliced := sliced + [piece];
      start := end;
    }
    assert paragraph[|paragraph|..] == "";
    assert sliced == Slices(paragraph, m);
  }
}
