/*
 * The per-chunk result loop of translate_file_app_en_to_zh_chunking.py
 * (lines 266-301): every chunk is handed to `translate_text`, each outcome
 * becomes either the translation or a numbered failure block, an error flag
 * is kept, a pause is taken between calls, and the entries are joined with
 * `"\n\n"`.
 *
 * The model call itself is not modelled: what it did for a chunk is a
 * `Reply` parameter, and `TranslateText` turns it into the value
 * `translate_text` returns (lines 148 and 174-180).
 */
module Translation {
  import opened TextOps

  datatype Option<T> = None | Some(value: T)

  /** How the model call for one chunk ended: the streamed text, or an exception. */
  datatype Reply = Streamed(text: string) | Raised(message: string)

  /** The marker `translate_text` puts in front of an exception's message (line 180). */
  const ErrorTag: string := "[[翻譯錯誤:"

  /** The detail used when the outcome is empty or `None` (line 287). */
  const UnknownError: string := "未知錯誤"

  const Footer: string := "\n---"

  /** The value `translate_text(chunk, …)` returns after `reply`. */
  function TranslateText(chunk: string, reply: Reply): (r: Option<string>)
    ensures r == None <==> chunk == ""
    ensures chunk != "" && reply.Raised? ==> Contains(r.value, ErrorTag)
  {
    if chunk == "" then None
    else match reply
      case Streamed(t) => Some(t)
      case Raised(e) =>
        var marked := "[[翻譯錯誤: " + e + "]]";
        assert marked[..|ErrorTag|] == ErrorTag;
        Some(marked)
  }

  /** Line 283: the outcome is a usable translation. */
  predicate Succeeded(o: Option<string>) {
    o.Some? && o.value != "" && !Contains(o.value, ErrorTag)
  }

  /** Python's `f"{n}"` for a natural number. */
  function Decimal(n: nat): (s: string)
    ensures |s| >= 1
    ensures forall i :: 0 <= i < |s| ==> '0' <= s[i] <= '9'
    decreases n
  {
    if n < 10 then [DigitChar(n)] else Decimal(n / 10) + [DigitChar(n % 10)]
  }

  function DigitChar(d: nat): (c: char)
    requires d < 10
    ensures '0' <= c <= '9'
  {
    (('0' as int) + d) as char
  }

  /** The value of a string of decimal digits. */
  function DigitsValue(s: string): nat
    requires forall i :: 0 <= i < |s| ==> '0' <= s[i] <= '9'
    decreases |s|
  {
    if |s| == 0 then 0
    else DigitsValue(s[..|s| - 1]) * 10 + (s[|s| - 1] as int - '0' as int)
  }

  /** The first line of the failure block for chunk `n`. */
  function Header(n: nat): string {
    "\n--- 塊 " + Decimal(n) + " 翻譯失敗 ---\n"
  }

  /** Line 287: the block recorded in place of chunk `n`'s translation. */
  function FailureBlock(n: nat, detail: string): string {
    Header(n) + detail + Footer
  }

  /** Line 287: `translated_chunk or '未知錯誤'`. */
  function Detail(o: Option<string>): string {
    if o.Some? && o.value != "" then o.value else UnknownError
  }

  /** Lines 283-287: the entry recorded for chunk number `n` (1-based). */
  function Entry(n: nat, o: Option<string>): string {
    if Succeeded(o) then o.value else FailureBlock(n, Detail(o))
  }

  /** Reads back the detail of a failure block for chunk `n`. */
  function ParseFailureBlock(n: nat, s: string): Option<string> {
    var h := Header(n);
    if |s| >= |h| + |Footer| && s[..|h|] == h && s[|s| - |Footer|..] == Footer
    then Some(s[|h|..|s| - |Footer|])
    else None
  }

  // =====================================================================
  // Lemmas
  // =====================================================================

  /** Reading the digits of `Decimal(n)` gives `n` back. */
  lemma {:induction false} DecimalRoundTrip(n: nat)
    ensures DigitsValue(Decimal(n)) == n
    decreases n
  {
    if n >= 10 {
      DecimalRoundTrip(n / 10);
      var s := Decimal(n);
      assert s[..|s| - 1] == Decimal(n / 10);
    }
  }

  /** An entry is the translation itself exactly when the outcome succeeded. */
  lemma EntryIsTranslationIff(n: nat, o: Option<string>)
    ensures (o.Some? && Entry(n, o) == o.value) <==> Succeeded(o)
  {
  }

  /** A failure entry records the outcome's detail, readable back from the block. */
  lemma FailureDetailRoundTrip(n: nat, o: Option<string>)
    requires !Succeeded(o)
    ensures ParseFailureBlock(n, Entry(n, o)) == Some(Detail(o))
  {
  }

  /** An empty chunk is never sent and always yields the unknown-error block. */
  lemma EmptyChunkFails(n: nat, reply: Reply)
    ensures Entry(n, TranslateText("", reply)) == FailureBlock(n, UnknownError)
  {
  }

  /** An exception yields a failure block that carries the marked message. */
  lemma RaisedFails(n: nat, chunk: string, e: string)
    requires chunk != ""
    ensures Entry(n, TranslateText(chunk, Raised(e))) == FailureBlock(n, "[[翻譯錯誤: " + e + "]]")
  {
  }

  // =====================================================================
  // The result loop
  // =====================================================================

  /**
   * Lines 283-287 for chunk number `chunkNum`: the entry to record, and
   * whether it is a failure block.
   */
  method RecordOutcome(chunkNum: nat, translatedChunk: Option<string>)
    returns (entry: string, failed: bool)
    ensures entry == Entry(chunkNum, translatedChunk)
    ensures failed <==> !Succeeded(translatedChunk)
    ensures !failed ==> translatedChunk.Some? && entry == translatedChunk.value
    ensures failed ==> ParseFailureBlock(chunkNum, entry) == Some(Detail(translatedChunk))
  {
    if translatedChunk.Some? && translatedChunk.value != ""
       && !Contains(translatedChunk.value, ErrorTag) {
      entry, failed := translatedChunk.value, false;
    } else {
      // `translated_chunk or '未知錯誤'`
      var detail := if translatedChunk.Some? && translatedChunk.value != ""
                    then translatedChunk.value else UnknownError;
      entry, failed := Header(chunkNum) + detail + Footer, true;
      FailureDetailRoundTrip(chunkNum, translatedChunk);
    }
  }

  /** The entries lines 273-287 record for `chunks`, numbered from 1, in order. */
  function Entries(chunks: seq<string>, replies: seq<Reply>): (r: seq<string>)
    requires |replies| == |chunks|
    ensures |r| == |chunks|
    decreases |chunks|
  {
    if |chunks| == 0 then []
    else
      var k := |chunks| - 1;
      Entries(chunks[..k], replies[..k]) + [Entry(k + 1, TranslateText(chunks[k], replies[k]))]
  }

  /** Line 286 is reached for some chunk. */
  predicate AnyFailed(chunks: seq<string>, replies: seq<Reply>)
    requires |replies| == |chunks|
    decreases |chunks|
  {
    if |chunks| == 0 then false
    else
      var k := |chunks| - 1;
      AnyFailed(chunks[..k], replies[..k]) || !Succeeded(TranslateText(chunks[k], replies[k]))
  }

  /** Entry `j` is the one recorded for chunk number `j + 1`. */
  lemma {:induction false} EntriesAt(chunks: seq<string>, replies: seq<Reply>)
    requires |replies| == |chunks|
    ensures forall j :: 0 <= j < |chunks| ==>
      Entries(chunks, replies)[j] == Entry(j + 1, TranslateText(chunks[j], replies[j]))
    decreases |chunks|
  {
    if |chunks| > 0 {
      var k := |chunks| - 1;
      EntriesAt(chunks[..k], replies[..k]);
    }
  }

  /** `AnyFailed` holds exactly when some chunk's outcome is not a translation. */
  lemma {:induction false} AnyFailedIff(chunks: seq<string>, replies: seq<Reply>)
    requires |replies| == |chunks|
    ensures AnyFailed(chunks, replies) <==>
      exists j :: 0 <= j < |chunks| && !Succeeded(TranslateText(chunks[j], replies[j]))
    decreases |chunks|
  {
    if |chunks| > 0 {
      var k := |chunks| - 1;
      AnyFailedIff(chunks[..k], replies[..k]);
      if AnyFailed(chunks[..k], replies[..k]) {
        var j :| 0 <= j < k && !Succeeded(TranslateText(chunks[..k][j], replies[..k][j]));
        assert !Succeeded(TranslateText(chunks[j], replies[j]));
      }
    }
  }

  /**
   * Lines 266-301 over the chunks, with `replies[i]` standing for what the
   * model call for chunk `i` did. The `time.sleep` between calls is recorded
   * in `pausedAfter`, the chunk numbers after which a pause was taken.
   */
  method TranslateChunks(chunks: seq<string>, replies: seq<Reply>)
    returns (translated: seq<string>, errorsOccurred: bool, merged: string,
             ghost pausedAfter: seq<nat>)
    requires |replies| == |chunks|
    ensures |translated| == |chunks|
    ensures forall i :: 0 <= i < |chunks| ==>
      translated[i] == Entry(i + 1, TranslateText(chunks[i], replies[i]))
    ensures errorsOccurred <==>
      exists i :: 0 <= i < |chunks| && !Succeeded(TranslateText(chunks[i], replies[i]))
    ensures |pausedAfter| == if |chunks| == 0 then 0 else |chunks| - 1
    ensures forall j :: 0 <= j < |pausedAfter| ==> pausedAfter[j] == j + 1
    ensures merged == Join(translated, Sep)
  {
    translated := [];
    errorsOccurred := false;
    pausedAfter := [];
    var total := |chunks|;
    for i := 0 to |chunks|
      invariant translated == Entries(chunks[..i], replies[..i])
      invariant errorsOccurred == AnyFailed(chunks[..i], replies[..i])
      invariant |pausedAfter| == if i == 0 then 0 else if i < total then i else total - 1
      invariant forall j :: 0 <= j < |pausedAfter| ==> pausedAfter[j] == j + 1
    {
      assert chunks[..i + 1][..i] == chunks[..i];
      assert replies[..i + 1][..i] == replies[..i];
      var chunkNum := i + 1;
      var translatedChunk := TranslateText(chunks[i], replies[i]);
      var entry, failed := RecordOutcome(chunkNum, translatedChunk);
      translated := translated + [entry];
      if failed {
        errorsOccurred := true;
      }
      if chunkNum < total {
        pausedAfter := pausedAfter + [chunkNum];
      }
    }
    assert chunks[..|chunks|] == chunks;
    assert replies[..|chunks|] == replies;
    EntriesAt(chunks, replies);
    AnyFailedIff(chunks, replies);
    merged := Join(translated, Sep);
  }
}
