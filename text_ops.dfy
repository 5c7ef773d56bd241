/*
 * Sequence-of-character helpers shared by the chunker and the result
 * assembly: Python's `str.split(sep)`, `sep.join(parts)`, the substring test
 * `sub in s`, and two list helpers used to state content preservation.
 */
module TextOps {

  /** The paragraph separator: two newline characters. */
  const Sep: string := "\n\n"

  /** True iff `s` begins with `prefix`. */
  predicate StartsWith(s: string, prefix: string) {
    |prefix| <= |s| && s[..|prefix|] == prefix
  }

  /** Python's `sub in s`: some position of `s` starts an occurrence of `sub`. */
  predicate Contains(s: string, sub: string)
    decreases |s|
  {
    StartsWith(s, sub) || (|s| > 0 && Contains(s[1..], sub))
  }

  /**
   * Python's `t.split(sep)` for a non-empty separator: the occurrences of
   * `sep` are found left to right without overlap, and the text between them
   * is returned in order (an empty string where two occurrences touch or at
   * an end).
   */
  function SplitOn(t: string, sep: string): (r: seq<string>)
    requires |sep| > 0
    ensures |r| >= 1
    ensures r[0] <= t
    decreases |t|
  {
    if |t| < |sep| then [t]
    else if t[..|sep|] == sep then [""] + SplitOn(t[|sep|..], sep)
    else
      var rest := SplitOn(t[1..], sep);
      [[t[0]] + rest[0]] + rest[1..]
  }

  /** Python's `sep.join(parts)`. */
  function Join(parts: seq<string>, sep: string): string
    decreases |parts|
  {
    if |parts| == 0 then ""
    else if |parts| == 1 then parts[0]
    else parts[0] + sep + Join(parts[1..], sep)
  }

  /** Python's `"".join(parts)`. */
  function Concat(parts: seq<string>): string
    decreases |parts|
  {
    if |parts| == 0 then "" else parts[0] + Concat(parts[1..])
  }

  /** The strings of `xs` that are not empty, in order. */
  function NonEmpty(xs: seq<string>): seq<string>
    decreases |xs|
  {
    if |xs| == 0 then []
    else (if xs[0] == "" then [] else [xs[0]]) + NonEmpty(xs[1..])
  }

  /** The lists of `gs` one after the other. */
  function Flatten(gs: seq<seq<string>>): seq<string>
    decreases |gs|
  {
    if |gs| == 0 then [] else Flatten(gs[..|gs| - 1]) + gs[|gs| - 1]
  }

  // ---------------------------------------------------------------------
  // Split and join
  // ---------------------------------------------------------------------

  /** Joining a non-empty list after one more part adds one separator. */
  lemma {:induction false} JoinSnoc(parts: seq<string>, x: string, sep: string)
    requires |parts| > 0
    ensures Join(parts + [x], sep) == Join(parts, sep) + sep + x
    decreases |parts|
  {
    if |parts| == 1 {
      assert parts + [x] == [parts[0], x];
      assert [parts[0], x][1..] == [x];
    } else {
      assert (parts + [x])[1..] == parts[1..] + [x];
      JoinSnoc(parts[1..], x, sep);
    }
  }

  /** Prepending characters to the first part prepends them to the join. */
  lemma JoinExtendFirst(c: string, parts: seq<string>, sep: string)
    requires |parts| > 0
    ensures Join([c + parts[0]] + parts[1..], sep) == c + Join(parts, sep)
  {
    var q := [c + parts[0]] + parts[1..];
    assert q[1..] == parts[1..];
  }

  /** Splitting on `sep` and joining back with `sep` gives the text back. */
  lemma {:induction false} JoinSplit(t: string, sep: string)
    requires |sep| > 0
    ensures Join(SplitOn(t, sep), sep) == t
    decreases |t|
  {
    if |t| < |sep| {
    } else if t[..|sep|] == sep {
      var rest := SplitOn(t[|sep|..], sep);
      JoinSplit(t[|sep|..], sep);
      assert ([""] + rest)[1..] == rest;
      assert Join([""] + rest, sep) == "" + sep + Join(rest, sep);
      assert t == t[..|sep|] + t[|sep|..];
    } else {
      var rest := SplitOn(t[1..], sep);
      JoinSplit(t[1..], sep);
      JoinExtendFirst([t[0]], rest, sep);
      assert t == [t[0]] + t[1..];
    }
  }

  /** Every part of a split is free of the separator. */
  lemma {:induction false} SplitPartsFree(t: string, sep: string)
    requires |sep| > 0
    ensures forall i :: 0 <= i < |SplitOn(t, sep)| ==> !Contains(SplitOn(t, sep)[i], sep)
    decreases |t|
  {
    var r := SplitOn(t, sep);
    if |t| < |sep| {
      NotContainsShort(t, sep);
    } else if t[..|sep|] == sep {
      SplitPartsFree(t[|sep|..], sep);
      NotContainsShort("", sep);
      assert forall i :: 1 <= i < |r| ==> r[i] == SplitOn(t[|sep|..], sep)[i - 1];
    } else {
      var rest := SplitOn(t[1..], sep);
      SplitPartsFree(t[1..], sep);
      var first := [t[0]] + rest[0];
      assert first <= t;
      assert !StartsWith(first, sep) by {
        if |sep| <= |first| {
          assert first[..|sep|] == t[..|sep|];
        }
      }
      assert first[1..] == rest[0];
      assert forall i :: 1 <= i < |r| ==> r[i] == rest[i];
    }
  }

  /** A string shorter than `sub` (and `sub` non-empty) does not contain it. */
  lemma {:induction false} NotContainsShort(s: string, sub: string)
    requires |s| < |sub|
    ensures !Contains(s, sub)
    decreases |s|
  {
    if |s| > 0 {
      NotContainsShort(s[1..], sub);
    }
  }

  /** A text free of the separator is a single part. */
  lemma {:induction false} SplitNoSeparator(t: string, sep: string)
    requires |sep| > 0 && !Contains(t, sep)
    ensures SplitOn(t, sep) == [t]
    decreases |t|
  {
    if |t| >= |sep| {
      SplitNoSeparator(t[1..], sep);
      assert [t[0]] + t[1..] == t;
    }
  }

  /** A text with no newline before its last character holds no paragraph break. */
  lemma {:induction false} NoBreakWithoutNewline(s: string)
    requires forall i :: 0 <= i < |s| - 1 ==> s[i] != '\n'
    ensures !Contains(s, Sep)
    decreases |s|
  {
    if |s| > 0 {
      NoBreakWithoutNewline(s[1..]);
      if |s| >= 2 {
        assert s[..2][0] == s[0];
      }
    }
  }

  /** The first occurrence of `sep` ends the first part. */
  lemma {:induction false} SplitFirstPart(a: string, sep: string, b: string)
    requires |sep| > 0 && !Contains(a + sep[..|sep| - 1], sep)
    ensures SplitOn(a + sep + b, sep) == [a] + SplitOn(b, sep)
    decreases |a|
  {
    var t := a + sep + b;
    if |a| == 0 {
      assert t[..|sep|] == sep;
      assert t[|sep|..] == b;
    } else {
      var x := a + sep[..|sep| - 1];
      assert t[..|sep|] == x[..|sep|];
      assert t[1..] == a[1..] + sep + b;
      assert x[1..] == a[1..] + sep[..|sep| - 1];
      SplitFirstPart(a[1..], sep, b);
      assert [a[0]] + a[1..] == a;
    }
  }

  // ---------------------------------------------------------------------
  // Lists of strings
  // ---------------------------------------------------------------------

  /** Concatenation distributes over appending lists. */
  lemma {:induction false} ConcatAppend(a: seq<string>, b: seq<string>)
    ensures Concat(a + b) == Concat(a) + Concat(b)
    decreases |a|
  {
    if |a| > 0 {
      assert (a + b)[1..] == a[1..] + b;
      ConcatAppend(a[1..], b);
    } else {
      assert a + b == b;
    }
  }

  /** Dropping the empty strings does not change the concatenation. */
  lemma {:induction false} ConcatNonEmpty(xs: seq<string>)
    ensures Concat(NonEmpty(xs)) == Concat(xs)
    decreases |xs|
  {
    if |xs| > 0 {
      ConcatNonEmpty(xs[1..]);
      ConcatAppend(if xs[0] == "" then [] else [xs[0]], NonEmpty(xs[1..]));
    }
  }

  /** Filtering out empty strings distributes over concatenation. */
  lemma {:induction false} NonEmptyAppend(a: seq<string>, b: seq<string>)
    ensures NonEmpty(a + b) == NonEmpty(a) + NonEmpty(b)
    decreases |a|
  {
    if |a| > 0 {
      assert (a + b)[1..] == a[1..] + b;
      NonEmptyAppend(a[1..], b);
    } else {
      assert a + b == b;
    }
  }

  /** The filter keeps exactly the non-empty strings. */
  lemma {:induction false} NonEmptyHasNoEmpty(xs: seq<string>)
    ensures forall i :: 0 <= i < |NonEmpty(xs)| ==> NonEmpty(xs)[i] != ""
    decreases |xs|
  {
    if |xs| > 0 {
      NonEmptyHasNoEmpty(xs[1..]);
    }
  }

  /** A list that joins to the empty string holds no non-empty string. */
  lemma JoinEmptyHasNoContent(g: seq<string>, sep: string)
    requires |sep| > 0 && Join(g, sep) == ""
    ensures NonEmpty(g) == []
  {
    if |g| == 1 {
      assert NonEmpty(g) == [] + NonEmpty(g[1..]);
    }
  }

  /** A list with at least two parts joins to something at least one separator
      longer than any part. */
  lemma {:induction false} JoinLongerThanPart(g: seq<string>, sep: string, j: nat)
    requires |g| >= 2 && j < |g|
    ensures |Join(g, sep)| >= |g[j]| + |sep|
    decreases |g|
  {
    if j > 0 && |g| > 2 {
      JoinLongerThanPart(g[1..], sep, j - 1);
    }
  }
}
