/**
 * The Python `str` operations the applications rely on: `sep.join(parts)`,
 * `s.split(c)` for a one-character separator (the inverse used to state what a
 * join preserves) and `s.strip(chars)`, which removes every leading and trailing
 * character that belongs to the SET `chars` (not a prefix or suffix string).
 */
module PyText {

  // ---------------------------------------------------------------- join

  /** Python's `sep.join(parts)`. */
  function Join(sep: string, parts: seq<string>): string
    decreases |parts|
  {
    if |parts| == 0 then ""
    else if |parts| == 1 then parts[0]
    else parts[0] + sep + Join(sep, parts[1..])
  }

  /** Length of the joined string: all parts plus one separator between each neighbouring pair. */
  function JoinLength(sep: string, parts: seq<string>): nat
    decreases |parts|
  {
    if |parts| == 0 then 0
    else if |parts| == 1 then |parts[0]|
    else |parts[0]| + |sep| + JoinLength(sep, parts[1..])
  }

  /** Position at which part `i` starts in the joined string. */
  function Offset(sep: string, parts: seq<string>, i: nat): nat
    requires i <= |parts|
    decreases i
  {
    if i == 0 then 0 else |parts[0]| + |sep| + Offset(sep, parts[1..], i - 1)
  }

  /** Part `i` sits at its offset in `r` and, unless it is the last part, is followed by `sep`. */
  predicate PieceAt(sep: string, parts: seq<string>, r: string, i: nat)
    requires i < |parts|
  {
    var o := Offset(sep, parts, i);
    && o + |parts[i]| <= |r|
    && r[o..o + |parts[i]|] == parts[i]
    && (i + 1 < |parts| ==> o + |parts[i]| + |sep| <= |r| && r[o + |parts[i]|..o + |parts[i]| + |sep|] == sep)
  }

  /**
   * Layout description of a join, independent of `Join`'s recursion: `r` has the
   * joined length and holds every part, in order, each but the last followed by `sep`.
   */
  predicate IsJoin(sep: string, parts: seq<string>, r: string)
  {
    && |r| == JoinLength(sep, parts)
    && forall i: nat :: i < |parts| ==> PieceAt(sep, parts, r, i)
  }

  lemma SliceOfAppend(a: string, b: string, x: int, y: int)
    requires |a| <= x <= y <= |a| + |b|
    ensures (a + b)[x..y] == b[x - |a|..y - |a|]
  {
    assert forall k :: 0 <= k < y - x ==> (a + b)[x..y][k] == b[x - |a|..y - |a|][k];
  }

  /** The first part of a join of at least two parts, and the separator after it. */
  lemma JoinHeadPiece(sep: string, parts: seq<string>)
    requires |parts| >= 2
    ensures PieceAt(sep, parts, Join(sep, parts), 0)
  {
    var r := Join(sep, parts);
    assert r == parts[0] + sep + Join(sep, parts[1..]);
    assert r[0..|parts[0]|] == parts[0];
    assert r[|parts[0]|..|parts[0]| + |sep|] == sep;
  }

  /** A part of the tail's join, shifted past the head and its separator. */
  lemma JoinTailPiece(sep: string, parts: seq<string>, i: nat)
    requires |parts| >= 2 && 0 < i < |parts|
    requires PieceAt(sep, parts[1..], Join(sep, parts[1..]), i - 1)
    ensures PieceAt(sep, parts, Join(sep, parts), i)
  {
    var tail := parts[1..];
    var rest := Join(sep, tail);
    var head := parts[0] + sep;
    var r := Join(sep, parts);
    assert r == head + rest;
    var o' := Offset(sep, tail, i - 1);
    assert Offset(sep, parts, i) == |head| + o';
    assert tail[i - 1] == parts[i];
    SliceOfAppend(head, rest, |head| + o', |head| + o' + |parts[i]|);
    if i + 1 < |parts| {
      SliceOfAppend(head, rest, |head| + o' + |parts[i]|, |head| + o' + |parts[i]| + |sep|);
    }
  }

  /** Part `i` starts one separator after the end of part `i - 1`. */
  lemma {:induction false} OffsetStep(sep: string, parts: seq<string>, i: nat)
    requires 0 < i <= |parts|
    ensures Offset(sep, parts, i) == Offset(sep, parts, i - 1) + |parts[i - 1]| + |sep|
    decreases i
  {
    if i > 1 {
      OffsetStep(sep, parts[1..], i - 1);
      assert parts[1..][i - 2] == parts[i - 1];
    }
  }

  /** `Join` lays its parts out as `IsJoin` describes. */
  lemma {:induction false} JoinLayout(sep: string, parts: seq<string>)
    ensures IsJoin(sep, parts, Join(sep, parts))
    decreases |parts|
  {
    var r := Join(sep, parts);
    if |parts| == 1 {
      assert PieceAt(sep, parts, r, 0) by { assert r[0..|parts[0]|] == parts[0]; }
    } else if |parts| >= 2 {
      JoinLayout(sep, parts[1..]);
      forall i: nat | i < |parts|
        ensures PieceAt(sep, parts, r, i)
      {
        if i == 0 {
          JoinHeadPiece(sep, parts);
        } else {
          JoinTailPiece(sep, parts, i);
        }
      }
    }
  }

  lemma SliceOfSuffix(r: string, c: int, x: int, y: int)
    requires 0 <= c <= |r| && 0 <= x <= y <= |r| - c
    ensures r[c..][x..y] == r[c + x..c + y]
  {
    assert forall k :: 0 <= k < y - x ==> r[c..][x..y][k] == r[c + x..c + y][k];
  }

  /** A part of the whole layout, seen from the start of the second part, is a part of the tail's layout. */
  lemma TailPieceOf(sep: string, parts: seq<string>, r: string, i: nat)
    requires |parts| >= 2 && i + 1 < |parts| && |parts[0]| + |sep| <= |r|
    requires PieceAt(sep, parts, r, i + 1)
    ensures PieceAt(sep, parts[1..], r[|parts[0]| + |sep|..], i)
  {
    var c := |parts[0]| + |sep|;
    var tail, rest := parts[1..], r[c..];
    assert parts[i + 1] == tail[i];
    var o := Offset(sep, tail, i);
    assert Offset(sep, parts, i + 1) == c + o;
    SliceOfSuffix(r, c, o, o + |tail[i]|);
    if i + 1 < |tail| {
      SliceOfSuffix(r, c, o + |tail[i]|, o + |tail[i]| + |sep|);
    }
  }

  /** The layout determines the string: anything laid out as a join IS the join. */
  lemma {:induction false} JoinUnique(sep: string, parts: seq<string>, r: string)
    requires IsJoin(sep, parts, r)
    ensures r == Join(sep, parts)
    decreases |parts|
  {
    if |parts| == 1 {
      assert PieceAt(sep, parts, r, 0);
      assert r == r[0..|parts[0]|];
    } else if |parts| >= 2 {
      var p0 := parts[0];
      var c := |p0| + |sep|;
      var tail := parts[1..];
      assert PieceAt(sep, parts, r, 0);
      var rest := r[c..];
      forall i: nat | i < |tail|
        ensures PieceAt(sep, tail, rest, i)
      {
        assert PieceAt(sep, parts, r, i + 1);
        TailPieceOf(sep, parts, r, i);
      }
      JoinUnique(sep, tail, rest);
      assert r == r[..|p0|] + r[|p0|..c] + rest;
    }
  }

  // ---------------------------------------------------------------- split

  /** Python's `s.split(c)` for a one-character separator; `"".split(c) == [""]`. */
  function Split(s: string, c: char): (r: seq<string>)
    ensures |r| >= 1
    decreases |s|
  {
    if |s| == 0 then [""]
    else
      var rest := Split(s[1..], c);
      if s[0] == c then [""] + rest else [[s[0]] + rest[0]] + rest[1..]
  }

  lemma {:induction false} SplitPrefix(p: string, s: string, c: char)
    requires c !in p
    ensures Split(p + s, c) == [p + Split(s, c)[0]] + Split(s, c)[1..]
    decreases |p|
  {
    if |p| == 0 {
      assert p + s == s;
      assert p + Split(s, c)[0] == Split(s, c)[0];
      assert [Split(s, c)[0]] + Split(s, c)[1..] == Split(s, c);
    } else {
      assert (p + s)[1..] == p[1..] + s;
      SplitPrefix(p[1..], s, c);
      assert [p[0]] + (p[1..] + Split(s, c)[0]) == p + Split(s, c)[0];
    }
  }

  /** Splitting a join on its one-character separator gives the parts back when no part contains it. */
  lemma {:induction false} SplitJoin(c: char, parts: seq<string>)
    requires |parts| >= 1
    requires forall i :: 0 <= i < |parts| ==> c !in parts[i]
    ensures Split(Join([c], parts), c) == parts
    decreases |parts|
  {
    if |parts| == 1 {
      SplitPrefix(parts[0], "", c);
      assert parts[0] + "" == parts[0];
    } else {
      var rest := Join([c], parts[1..]);
      SplitJoin(c, parts[1..]);
      assert Join([c], parts) == parts[0] + ([c] + rest);
      SplitPrefix(parts[0], [c] + rest, c);
      assert ([c] + rest)[0] == c;
      assert ([c] + rest)[1..] == rest;
      assert Split([c] + rest, c) == [""] + parts[1..];
      assert parts[0] + "" == parts[0];
      assert [parts[0]] + parts[1..] == parts;
    }
  }

  // ---------------------------------------------------------------- counting

  /** Number of occurrences of `c` in `s`. */
  function Count(c: char, s: string): nat
    decreases |s|
  {
    if |s| == 0 then 0 else (if s[0] == c then 1 else 0) + Count(c, s[1..])
  }

  /** Total occurrences of `c` over all parts. */
  function SumCount(c: char, parts: seq<string>): nat
    decreases |parts|
  {
    if |parts| == 0 then 0 else Count(c, parts[0]) + SumCount(c, parts[1..])
  }

  lemma {:induction false} CountAppend(c: char, a: string, b: string)
    ensures Count(c, a + b) == Count(c, a) + Count(c, b)
    decreases |a|
  {
    if |a| == 0 {
      assert a + b == b;
    } else {
      assert (a + b)[1..] == a[1..] + b;
      CountAppend(c, a[1..], b);
    }
  }

  /** Joining `n` parts with the one-character separator `c` adds exactly `n - 1` copies of `c`. */
  lemma {:induction false} JoinCount(c: char, parts: seq<string>)
    requires |parts| >= 1
    ensures Count(c, Join([c], parts)) == |parts| - 1 + SumCount(c, parts)
    decreases |parts|
  {
    if |parts| >= 2 {
      var rest := Join([c], parts[1..]);
      JoinCount(c, parts[1..]);
      CountAppend(c, parts[0] + [c], rest);
      CountAppend(c, parts[0], [c]);
      assert Count(c, [c]) == 1 by { assert [c][1..] == []; }
    } else {
      assert SumCount(c, parts[1..]) == 0;
    }
  }

  // ---------------------------------------------------------------- strip

  /** Length of the longest prefix of `s` made of characters of `cs`. */
  function LeadingRun(s: string, cs: set<char>): (n: nat)
    ensures n <= |s|
    ensures forall k :: 0 <= k < n ==> s[k] in cs
    ensures n < |s| ==> s[n] !in cs
    decreases |s|
  {
    if |s| == 0 || s[0] !in cs then 0 else 1 + LeadingRun(s[1..], cs)
  }

  /** Length of the longest suffix of `s` made of characters of `cs`. */
  function TrailingRun(s: string, cs: set<char>): (n: nat)
    ensures n <= |s|
    ensures forall k :: |s| - n <= k < |s| ==> s[k] in cs
    ensures n < |s| ==> s[|s| - 1 - n] !in cs
    decreases |s|
  {
    if |s| == 0 || s[|s| - 1] !in cs then 0 else 1 + TrailingRun(s[..|s| - 1], cs)
  }

  /**
   * `s[i..j]` is `s` with only characters of `cs` cut from its two ends, and
   * with as many cut as possible: a non-empty slice neither starts nor ends with one.
   */
  predicate Trimmed(s: string, cs: set<char>, i: int, j: int)
    requires 0 <= i <= j <= |s|
  {
    && (forall k :: 0 <= k < i ==> s[k] in cs)
    && (forall k :: j <= k < |s| ==> s[k] in cs)
    && (i < j ==> s[i] !in cs && s[j - 1] !in cs)
  }

  /** The trailing run of the rest of `s`, after its leading run, consists of characters of `cs`. */
  lemma StripSuffix(s: string, cs: set<char>, i: nat, n: nat)
    requires i <= |s| && n == TrailingRun(s[i..], cs)
    ensures i + n <= |s|
    ensures forall k :: |s| - n <= k < |s| ==> s[k] in cs
  {
    var t := s[i..];
    forall k | |s| - n <= k < |s|
      ensures s[k] in cs
    {
      assert s[k] == t[k - i];
    }
  }

  /** What is left between the leading run and the trailing run of the rest is a trimmed slice. */
  lemma StripLayout(s: string, cs: set<char>)
    ensures var i := LeadingRun(s, cs);
            var m := |s| - i - TrailingRun(s[i..], cs);
            && i + m <= |s|
            && s[i..][..m] == s[i..i + m]
            && Trimmed(s, cs, i, i + m)
  {
    var i := LeadingRun(s, cs);
    var t := s[i..];
    var n := TrailingRun(t, cs);
    var m := |t| - n;
    StripSuffix(s, cs, i, n);
    assert t[..m] == s[i..i + m];
    if m > 0 {
      assert s[i + m - 1] == t[|t| - 1 - n];
    }
  }

  /**
   * Python's `s.strip(cs)`: CPython skips the leading run first and then scans
   * back from the end, never past the first kept character.
   */
  function Strip(s: string, cs: set<char>): (r: string)
    ensures LeadingRun(s, cs) + |r| <= |s|
    ensures r == s[LeadingRun(s, cs)..LeadingRun(s, cs) + |r|]
    ensures Trimmed(s, cs, LeadingRun(s, cs), LeadingRun(s, cs) + |r|)
    ensures r == [] || (r[0] !in cs && r[|r| - 1] !in cs)
  {
    StripLayout(s, cs);
    var i := LeadingRun(s, cs);
    var t := s[i..];
    t[..|t| - TrailingRun(t, cs)]
  }

  /**
   * `r` is the slice of `s` that starts after the leading run of `cs`, and only
   * characters of `cs`, as many as possible, are cut around it.
   */
  predicate TrimmedSliceOf(s: string, cs: set<char>, r: string)
  {
    var i := LeadingRun(s, cs);
    && i + |r| <= |s|
    && r == s[i..i + |r|]
    && Trimmed(s, cs, i, i + |r|)
  }

  lemma StripIsTrimmedSlice(s: string, cs: set<char>)
    ensures TrimmedSliceOf(s, cs, Strip(s, cs))
  {
  }

  lemma {:induction false} LeadingRunExact(s: string, cs: set<char>, n: nat)
    requires n <= |s|
    requires forall k :: 0 <= k < n ==> s[k] in cs
    requires n < |s| ==> s[n] !in cs
    ensures LeadingRun(s, cs) == n
    decreases |s|
  {
    if n > 0 {
      LeadingRunExact(s[1..], cs, n - 1);
    }
  }

  lemma {:induction false} TrailingRunExact(s: string, cs: set<char>, n: nat)
    requires n <= |s|
    requires forall k :: |s| - n <= k < |s| ==> s[k] in cs
    requires n < |s| ==> s[|s| - 1 - n] !in cs
    ensures TrailingRun(s, cs) == n
    decreases |s|
  {
    if n > 0 {
      TrailingRunExact(s[..|s| - 1], cs, n - 1);
    }
  }

  /** A string made only of characters of `cs` strips to the empty string. */
  lemma StripAll(s: string, cs: set<char>)
    requires forall k :: 0 <= k < |s| ==> s[k] in cs
    ensures Strip(s, cs) == []
  {
    LeadingRunExact(s, cs, |s|);
  }

  /** A non-empty trimmed slice starts after the leading run and ends before the trailing one. */
  lemma StripUniqueNonEmpty(s: string, cs: set<char>, i: int, j: int)
    requires 0 <= i < j <= |s|
    requires Trimmed(s, cs, i, j)
    ensures Strip(s, cs) == s[i..j]
  {
    LeadingRunExact(s, cs, i);
    var t := s[i..];
    forall k | j - i <= k < |t|
      ensures t[k] in cs
    {
      assert t[k] == s[i + k];
    }
    assert t[j - 1 - i] == s[j - 1];
    TrailingRunExact(t, cs, |s| - j);
    assert Strip(s, cs) == t[..j - i];
    assert t[..j - i] == s[i..j];
  }

  /** Any slice trimmed as `Trimmed` describes is the one `Strip` returns: the description is complete. */
  lemma StripUnique(s: string, cs: set<char>, i: int, j: int)
    requires 0 <= i <= j <= |s|
    requires Trimmed(s, cs, i, j)
    ensures Strip(s, cs) == s[i..j]
  {
    if i == j {
      assert forall k :: 0 <= k < |s| ==> s[k] in cs;
      StripAll(s, cs);
    } else {
      StripUniqueNonEmpty(s, cs, i, j);
    }
  }

  /** Stripping twice with the same set changes nothing the second time. */
  lemma StripIdempotent(s: string, cs: set<char>)
    ensures Strip(Strip(s, cs), cs) == Strip(s, cs)
  {
    var r := Strip(s, cs);
    StripUnique(r, cs, 0, |r|);
    assert r[0..|r|] == r;
  }

  /** A second strip by any subset of the characters already stripped is a no-op. */
  lemma StripThenSubset(s: string, cs: set<char>, cs': set<char>)
    requires cs' <= cs
    ensures Strip(Strip(s, cs), cs') == Strip(s, cs)
  {
    var r := Strip(s, cs);
    StripUnique(r, cs', 0, |r|);
    assert r[0..|r|] == r;
  }
}
