# Chunked translation of an English document: a Dafny model

The Streamlit application `translate_file_app_en_to_zh_chunking.py` translates
an uploaded English document into Traditional Chinese. It works in three steps:

1. It cuts the extracted text into chunks of at most `MAX_CHARS_PER_CHUNK`
   (2500) characters with `split_text_into_chunks`.
2. It sends each chunk to the Gemini model through `translate_text`.
3. It assembles the results. Each chunk becomes either its translation or a
   numbered failure block. An error flag is raised on any failure, the program
   pauses between calls, and the entries are joined with `"\n\n"`.

This project models steps 1 and 3 and proves their properties. Step 2 is
reduced to what `translate_text` returns for a chunk.

Modules:

- `TextOps` (`text_ops.dfy`) holds the string operations the code relies on:
  - `str.split` for a non-empty separator, as `SplitOn`;
  - `sep.join`, as `Join`;
  - the substring test `sub in s`, as `Contains`;
  - two list helpers, `NonEmpty` and `Flatten`, used to state content
    preservation.
- `ChunkSpec` (`chunk_spec.dfy`) is the specification of the chunker, written
  as a left fold. The state (`Acc`) keeps, for every emitted chunk and for the
  current one, the list of pieces it was joined from. A piece is a paragraph
  or a slice of an oversized paragraph. The chunk texts are `Render` of those
  lists. Keeping the lists lets the model state the size bound, content and
  order, and the "full slice stands alone" rule.
  - A `guarded` flag selects between two versions of line 132: as written
    (`false`) and with the missing non-empty test (`true`). See
    "## Findings".
- `Chunker` (`chunker.dfy`) is `split_text_into_chunks` itself, written as the
  imperative loop of the source. A `for` loop runs over the paragraphs, and a
  nested `while` loop cuts an oversized paragraph. The method is proved equal
  to `ChunkSpec.Chunks`.
- `Translation` (`translation.dfy`) covers the outcome of `translate_text`,
  the entry recorded for one chunk, and the result loop of lines 266-301 as a
  method.
- `Pipeline` (`pipeline.dfy`) connects the two halves. It shows what an empty
  chunk from the chunker becomes in the translated output.

Python's `len` counts code points, and Dafny's `char` is a Unicode scalar
value, so string lengths agree for every string without lone surrogates
(U+D800 to U+DFFF), which a Python `str` can hold and a Dafny string cannot. `max_chars` is an unbounded integer. The
source does not validate it: the model requires `max_chars >= 1`, without
which the slicing loop of lines 94-117 never ends once it reaches a non-empty
paragraph.

The source's own text shows that chunks were meant to be non-empty:

- the final flush at line 136 and the flush of line 108 are both guarded by
  `if current_chunk:`;
- their comments at lines 107 and 135 say the chunk is stored only "if it
  already has content" / "if non-empty";
- line 148 treats an empty chunk as something not to translate.

The flush at line 132 has no such guard, so the code can emit an empty chunk.
The model follows the code. `Chunker` computes the as-written behaviour, and
`ChunkSpec` also defines the guarded variant (see "## Findings").

## Model

| member | source | states |
|---|---|---|
| `TextOps.SplitOn` | translate_file_app_en_to_zh_chunking.py:86 | `text.split('\n\n')` always yields at least one part, and the first part is a prefix of the text |
| `TextOps.JoinSplit` | translate_file_app_en_to_zh_chunking.py:86 | joining the paragraphs of `text.split('\n\n')` with `"\n\n"` gives the text back, so splitting loses nothing |
| `TextOps.SplitPartsFree` | translate_file_app_en_to_zh_chunking.py:86 | no paragraph produced by the split contains `"\n\n"` |
| `TextOps.SplitNoSeparator` | translate_file_app_en_to_zh_chunking.py:86 | a text without `"\n\n"` is a single paragraph |
| `TextOps.SplitFirstPart` | translate_file_app_en_to_zh_chunking.py:86 | the first occurrence of the separator ends the first paragraph, and the rest of the text is split independently |
| `TextOps.JoinSnoc` | translate_file_app_en_to_zh_chunking.py:103 | appending `"\n\n" + piece` to a joined chunk is the join of its pieces with the new piece added |
| `ChunkSpec.SlicesConcat` | translate_file_app_en_to_zh_chunking.py:93-98 | the slices of an oversized paragraph, concatenated in order, are the paragraph itself |
| `ChunkSpec.SlicesShape` | translate_file_app_en_to_zh_chunking.py:97-98 | every slice has between 1 and `max_chars` characters, and every slice but the last has exactly `max_chars` |
| `ChunkSpec.SlicesCount` | translate_file_app_en_to_zh_chunking.py:93-98 | a paragraph of length `L` is cut into `ceil(L / max_chars)` slices |
| `ChunkSpec.SliceAt` | translate_file_app_en_to_zh_chunking.py:97-98 | slice `j` is `paragraph[j*max_chars : min((j+1)*max_chars, len)]`: the slices are consecutive and do not overlap |
| `ChunkSpec.SlicesFrom` | translate_file_app_en_to_zh_chunking.py:97-117 | from offset `start`, the next slice ends at `min(start + max_chars, len)` and slicing resumes there |
| `ChunkSpec.SliceStepUpdates` | translate_file_app_en_to_zh_chunking.py:101-115 | merge rule for a slice. If `len(current) + len(slice) + 2 <= max_chars`, the slice is appended after `"\n\n"`, or becomes `current` when `current` is empty. Otherwise a non-empty `current` is emitted, and a full-width slice is emitted on its own and resets `current` to `""` |
| `ChunkSpec.ParagraphStepUpdates` | translate_file_app_en_to_zh_chunking.py:125-133 | merge rule for a paragraph of at most `max_chars`: the same test, but when it fails `current` is emitted even if empty, and the paragraph starts the next chunk |
| `ChunkSpec.SizeBound` | translate_file_app_en_to_zh_chunking.py:101-137 | every chunk has at most `max_chars` characters |
| `ChunkSpec.ChunkContent` | translate_file_app_en_to_zh_chunking.py:86-139 | each chunk is the `"\n\n"`-join of a run of pieces. Read in order, the runs list exactly the non-empty pieces of the document in document order. The pieces are the paragraphs, each oversized one replaced by its slices |
| `ChunkSpec.ConcatPieces` | translate_file_app_en_to_zh_chunking.py:91-98 | replacing each oversized paragraph by its slices keeps every character in order |
| `ChunkSpec.ChunkCharacters` | translate_file_app_en_to_zh_chunking.py:86-139 | the pieces of all chunks, read in order, spell out the paragraphs of the text in order: no character is lost, duplicated or reordered |
| `ChunkSpec.FullPieceStandsAlone` | translate_file_app_en_to_zh_chunking.py:101-115 | a piece of `max_chars` characters or more is alone in its chunk |
| `ChunkSpec.OversizedStartsFresh` | translate_file_app_en_to_zh_chunking.py:106-115 | an oversized paragraph never shares a chunk with earlier text. The previous non-empty `current` is emitted, and then its first slice is emitted on its own |
| `ChunkSpec.FoldGrows` | translate_file_app_en_to_zh_chunking.py:89-133 | chunks once emitted are never changed: emitted chunks only grow as paragraphs are processed |
| `ChunkSpec.TwoFullSlices` | translate_file_app_en_to_zh_chunking.py:93-117 | a paragraph of exactly `2*max_chars` characters without a break becomes two full chunks, and rejoining them with `"\n\n"` inserts a separator at the cut |
| `ChunkSpec.EmptyTextChunks` | translate_file_app_en_to_zh_chunking.py:86-137 | the empty text gives no chunk when `max_chars >= 2`, but one empty chunk when `max_chars == 1` |
| `ChunkSpec.LeadingEmptyChunk` | translate_file_app_en_to_zh_chunking.py:125-133 | as written, a first paragraph of `max_chars - 1` or `max_chars` characters makes the first chunk empty |
| `ChunkSpec.TwoParagraphsAtLimit` | translate_file_app_en_to_zh_chunking.py:125-137 | as written, a text that splits into exactly two paragraphs, the first of `max_chars - 1` or `max_chars` (and at least 1) characters and the second of 1 to `max_chars` characters, gives `["", first, second]`. The paragraphs may contain single newlines |
| `ChunkSpec.TwoParagraphsAtLimitGuarded` | translate_file_app_en_to_zh_chunking.py:125-137 | with line 132 guarded, a text that splits into exactly two paragraphs, the first of `max_chars - 1` or `max_chars` (and at least 1) characters and the second of 1 to `max_chars` characters, gives `[first, second]` |
| `ChunkSpec.ParaOneParaTwo` | translate_file_app_en_to_zh_chunking.py:125-137 | `"Para one.\n\nPara two."` with limit 9 gives `["", "Para one.", "Para two."]` as written and `["Para one.", "Para two."]` guarded |
| `ChunkSpec.GuardedIsFiltered` | translate_file_app_en_to_zh_chunking.py:132 | guarding line 132 changes exactly one thing: the guarded chunks are the as-written chunks with the empty ones removed |
| `ChunkSpec.GuardedChunksNonEmpty` | translate_file_app_en_to_zh_chunking.py:108-136 | with line 132 guarded as lines 108 and 136 are, every chunk has between 1 and `max_chars` characters |
| `Chunker.SplitTextIntoChunks` | translate_file_app_en_to_zh_chunking.py:80-139 | the loop returns exactly `ChunkSpec.Chunks(text, max_chars)`. Every chunk is at most `max_chars` long, and the chunks hold the non-empty pieces of the text in order |
| `Chunker.CutOversized` | translate_file_app_en_to_zh_chunking.py:93-117 | the `while` loop over an oversized paragraph leaves `chunks` and `current` as the slice-by-slice merge of its slices prescribes |
| `Translation.TranslateText` | translate_file_app_en_to_zh_chunking.py:148-180 | `translate_text` returns `None` exactly for an empty chunk, and after an exception it returns a string carrying the `"[[翻譯錯誤:"` marker |
| `Translation.Decimal` | translate_file_app_en_to_zh_chunking.py:287 | `f"{chunk_num}"` is a non-empty string of decimal digits |
| `Translation.DecimalRoundTrip` | translate_file_app_en_to_zh_chunking.py:287 | the chunk number written in a failure block reads back as that number |
| `Translation.EntryIsTranslationIff` | translate_file_app_en_to_zh_chunking.py:283-287 | an entry is the translation itself if and only if the outcome is non-empty and free of the error marker |
| `Translation.FailureDetailRoundTrip` | translate_file_app_en_to_zh_chunking.py:287 | a failure block is `"\n--- 塊 N 翻譯失敗 ---\n"` + detail + `"\n---"`, and the detail (the outcome, or `"未知錯誤"` when it is empty or `None`) can be read back from it |
| `Translation.EmptyChunkFails` | translate_file_app_en_to_zh_chunking.py:283-287 | `translate_text` returns `None` for an empty chunk (line 148), so an empty chunk always yields the block `"\n--- 塊 N 翻譯失敗 ---\n未知錯誤\n---"` |
| `Translation.RaisedFails` | translate_file_app_en_to_zh_chunking.py:283-287 | an exception (lines 178-180) on a non-empty chunk yields a failure block carrying `"[[翻譯錯誤: " + message + "]]"` |
| `Translation.RecordOutcome` | translate_file_app_en_to_zh_chunking.py:283-287 | a chunk is marked failed exactly when its outcome is empty, `None` or carries the error marker. A non-failed chunk's entry is the outcome itself. A failed chunk's entry is a block for that chunk number from which the outcome (or `"未知錯誤"`) reads back |
| `Translation.EntriesAt` | translate_file_app_en_to_zh_chunking.py:273-287 | the recorded entries, read in order, are one per chunk: entry `j` is the one for chunk number `j + 1` |
| `Translation.AnyFailedIff` | translate_file_app_en_to_zh_chunking.py:283-286 | the failure branch is taken for some chunk if and only if some chunk's outcome is empty, `None` or carries the error marker |
| `Translation.TranslateChunks` | translate_file_app_en_to_zh_chunking.py:266-301 | the loop records one entry per chunk in chunk order, entry `i` being the one for chunk number `i + 1`. `errors_occurred` ends true if and only if some chunk's outcome is not a usable translation. A pause follows every chunk but the last, so `total_chunks - 1` pauses are taken. The output is the entries joined with `"\n\n"` |
| `Pipeline.SpuriousFirstFailure` | translate_file_app_en_to_zh_chunking.py:125-133 | as written (line 132 emits the empty chunk, line 148 does not send it), a document whose first paragraph has `max_chars - 1` or `max_chars` characters gets the failure block for chunk 1 with `"未知錯誤"`, whatever the model returns |
| `Pipeline.GuardedChunksAreSent` | translate_file_app_en_to_zh_chunking.py:125-148 | with line 132 guarded, every chunk is sent to the model |

## Left out

- `extract_text_from_file` (lines 42-76) is not part of this model. It decodes files (UTF-8 with a Big5 fallback) and calls the python-docx and PyPDF2 readers, which are foreign-library I/O.
- The body of `translate_text` (lines 143-180): building the prompt, the Gemini model, streaming `generate_content`, and the `st.error` message. These are network calls. The model keeps only what the function returns for a chunk. `Reply.Streamed` carries the already stripped text, so `.strip()` at line 177 is not modelled. An exception from `genai.GenerativeModel(...)` at line 168 is outside the `try` of lines 174-180: it escapes `translate_text` and ends the loop of lines 273-295 with no entry for the chunk. `Reply` covers only exceptions inside the `try`, so the model does not capture that abort.
- `create_docx_from_text` (lines 184-203) is not part of this model. It builds a python-docx document in memory.
- The API key setup and all Streamlit UI are not modelled: uploader, buttons, placeholders, spinners, the progress bar (line 291) and the status texts.
- `time.sleep(API_CALL_DELAY)` (line 295) is real-time waiting. The model records it only as the ghost list `pausedAfter`, the chunk numbers after which a pause is taken.
- The caller's checks around the chunker are not modelled: the `.strip()` test at line 253 and the zero-chunk warning at lines 260-262. Whitespace-only text is therefore not filtered by the model, as the chunker itself does not filter it either.
- `Chunker.SplitTextIntoChunks` requires `max_chars >= 1`. The source has no validation, and with `max_chars <= 0` the loop of lines 94-117 does not terminate once it reaches a non-empty paragraph, which is every input the caller passes after its test at line 253.
- `Chunker.CutOversized`: the nested `while` loop is a separate method called from the paragraph loop, while the source has it inline. State and behaviour are the same.

## Findings

| source | as written | input that shows it | evidently intended | confidence | as-written member | corrected member |
|---|---|---|---|---|---|---|
| translate_file_app_en_to_zh_chunking.py:132 | when a paragraph does not fit, `current_chunk` is appended without the non-empty test that lines 108 and 136 use. The `+2` test fails against an empty `current` for a paragraph of `max_chars - 1` or `max_chars` characters, so an empty chunk is emitted. That chunk is then reported as a translation failure (`translate_text` returns `None` for it) | `"Para one.\n\nPara two."` with `max_chars = 9` gives `["", "Para one.", "Para two."]`. With the default 2500, any first paragraph of 2499 or 2500 characters produces an empty first chunk | emit `current_chunk` only when it is non-empty, so no chunk is empty and no spurious failure block appears | not executed | `ChunkSpec.TwoParagraphsAtLimit` | `ChunkSpec.GuardedIsFiltered` |
