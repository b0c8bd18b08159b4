/**
 The line sorts: the text is split on LF, the lines are reordered, and the result is
 joined with LF. `alphabetical` is Python's `sorted` on strings (code-point
 lexicographic order), `by length` is the stable `sorted(..., key=len)`, and `reverse`
 is `reversed`.
 */
module Sorts {
  import opened Text

  /**
   Python's `a <= b` on strings: lexicographic by code point. A prefix of `b` comes first,
   and a string that `b` is a proper prefix of comes after it.
   */
  predicate LexLe(a: string, b: string): (r: bool)
    ensures a <= b ==> r
    ensures |b| < |a| && b == a[..|b|] ==> !r
    decreases |a|
  {
    if |a| == 0 then true
    else if |b| == 0 then false
    else if a[0] != b[0] then a[0] < b[0]
    else
      var rest := LexLe(a[1..], b[1..]);
      assert |b| < |a| && b == a[..|b|] ==> b[1..] == a[1..][..|b| - 1];
      rest
  }

  /** Between two strings that agree up to position `k` and differ there, position `k` decides. */
  lemma {:induction false} LexLeFirstDifference(a: string, b: string, k: nat)
    requires k < |a| && k < |b| && a[..k] == b[..k] && a[k] != b[k]
    ensures LexLe(a, b) <==> a[k] < b[k]
    decreases k
  {
    if k > 0 {
      assert a[0] == a[..k][0] == b[..k][0] == b[0];
      assert a[1..][..k - 1] == a[..k][1..] == b[..k][1..] == b[1..][..k - 1];
      LexLeFirstDifference(a[1..], b[1..], k - 1);
    }
  }

  lemma {:induction false} LexLeTotal(a: string, b: string)
    ensures LexLe(a, b) || LexLe(b, a)
    decreases |a|
  {
    if |a| > 0 && |b| > 0 && a[0] == b[0] {
      LexLeTotal(a[1..], b[1..]);
    }
  }

  lemma {:induction false} LexLeReflexive(a: string)
    ensures LexLe(a, a)
    decreases |a|
  {
    if |a| > 0 {
      LexLeReflexive(a[1..]);
    }
  }

  lemma {:induction false} LexLeAntisymmetric(a: string, b: string)
    requires LexLe(a, b) && LexLe(b, a)
    ensures a == b
    decreases |a|
  {
    if |a| > 0 {
      LexLeAntisymmetric(a[1..], b[1..]);
      assert a == [a[0]] + a[1..] && b == [b[0]] + b[1..];
    }
  }

  lemma {:induction false} LexLeTransitive(a: string, b: string, c: string)
    requires LexLe(a, b) && LexLe(b, c)
    ensures LexLe(a, c)
    decreases |a|
  {
    if |a| > 0 && a[0] == b[0] && b[0] == c[0] {
      LexLeTransitive(a[1..], b[1..], c[1..]);
    }
  }

  /** Non-decreasing in lexicographic order. */
  predicate Sorted(s: seq<string>)
  {
    forall i, j :: 0 <= i < j < |s| ==> LexLe(s[i], s[j])
  }

  /** A sorted sequence stays sorted with a first element no greater than any of its own. */
  lemma SortedCons(h: string, t: seq<string>)
    requires Sorted(t)
    requires forall j :: 0 <= j < |t| ==> LexLe(h, t[j])
    ensures Sorted([h] + t)
  {
  }

  /** `x` placed before the first element it does not exceed. */
  function Insert(x: string, s: seq<string>): (r: seq<string>)
    requires Sorted(s)
    ensures |r| == |s| + 1
    ensures forall j :: 0 <= j < |r| ==> r[j] == x || r[j] in s
    ensures multiset(r) == multiset(s) + multiset{x}
    ensures Sorted(r)
  {
    if s == [] then [x]
    else if LexLe(x, s[0]) then
      InsertFront(x, s);
      [x] + s
    else
      LexLeTotal(x, s[0]);
      var rest := Insert(x, s[1..]);
      InsertBehind(x, s, rest);
      [s[0]] + rest
  }

  lemma InsertFront(x: string, s: seq<string>)
    requires Sorted(s) && |s| > 0 && LexLe(x, s[0])
    ensures Sorted([x] + s)
  {
    forall j | 0 <= j < |s|
      ensures LexLe(x, s[j])
    {
      if j > 0 {
        LexLeTransitive(x, s[0], s[j]);
      }
    }
    SortedCons(x, s);
  }

  lemma InsertBehind(x: string, s: seq<string>, rest: seq<string>)
    requires Sorted(s) && |s| > 0 && LexLe(s[0], x)
    requires Sorted(rest)
    requires forall j :: 0 <= j < |rest| ==> rest[j] == x || rest[j] in s[1..]
    requires multiset(rest) == multiset(s[1..]) + multiset{x}
    ensures forall j :: 0 <= j < |[s[0]] + rest| ==> ([s[0]] + rest)[j] == x || ([s[0]] + rest)[j] in s
    ensures multiset([s[0]] + rest) == multiset(s) + multiset{x}
    ensures Sorted([s[0]] + rest)
  {
    assert s == [s[0]] + s[1..];
    forall j | 0 <= j < |rest|
      ensures LexLe(s[0], rest[j])
    {
      if rest[j] != x {
        var k :| 0 <= k < |s[1..]| && s[1..][k] == rest[j];
        assert s[k + 1] == rest[j];
      }
    }
    SortedCons(s[0], rest);
  }

  /** Insertion sort: the lines in non-decreasing order, none added or lost. */
  function Sort(s: seq<string>): (r: seq<string>)
    ensures multiset(r) == multiset(s)
    ensures Sorted(r)
  {
    if s == [] then []
    else
      assert s == [s[0]] + s[1..];
      Insert(s[0], Sort(s[1..]))
  }

  /** A sorted sequence starts with its least element, so two sorted arrangements of one multiset start alike. */
  lemma SortedHeads(a: seq<string>, b: seq<string>)
    requires Sorted(a) && Sorted(b) && multiset(a) == multiset(b) && |a| > 0
    ensures |b| > 0 && a[0] == b[0]
  {
    assert |b| == |multiset(b)| == |a|;
    assert a[0] in multiset(b) && b[0] in multiset(a);
    var i :| 0 <= i < |b| && b[i] == a[0];
    var j :| 0 <= j < |a| && a[j] == b[0];
    LexLeReflexive(a[0]);
    LexLeReflexive(b[0]);
    assert LexLe(a[0], a[j]) && LexLe(b[0], b[i]);
    LexLeAntisymmetric(a[0], b[0]);
  }

  /** Dropping the first element removes one copy of it from the multiset. */
  lemma TailMultiset(a: seq<string>)
    requires |a| > 0
    ensures multiset(a[1..]) == multiset(a) - multiset{a[0]}
  {
    assert a == [a[0]] + a[1..];
    assert multiset(a) == multiset{a[0]} + multiset(a[1..]);
  }

  /**
   The order is total and antisymmetric, so there is only one sorted arrangement of a
   multiset of lines: whatever algorithm Python's `sorted` runs, its result is `Sort`'s.
   */
  lemma {:induction false} SortedUnique(a: seq<string>, b: seq<string>)
    requires Sorted(a) && Sorted(b) && multiset(a) == multiset(b)
    ensures a == b
    decreases |a|
  {
    if |a| > 0 {
      SortedHeads(a, b);
      TailMultiset(a);
      TailMultiset(b);
      assert Sorted(a[1..]) && Sorted(b[1..]);
      SortedUnique(a[1..], b[1..]);
      assert a == [a[0]] + a[1..] && b == [b[0]] + b[1..];
    } else {
      assert |b| == |multiset(b)| == 0;
    }
  }

  /**
   `sort alphabetical`. Only whole lines move: the output has the input's characters,
   as a multiset, and a text of one line comes back unchanged.
   */
  function SortAlphabetical(x: string): (r: string)
    ensures multiset(r) == multiset(x) && |r| == |x|
    ensures '\n' !in x ==> r == x
  {
    var lines := Split(x, LF);
    JoinPermutation(Sort(lines), lines, LF);
    assert '\n' !in x ==> lines == [x] by {
      if '\n' !in x { SplitWithoutSeparator(x, '\n'); }
    }
    Join(Sort(lines), LF)
  }

  /** A line taken from a permutation of the text's lines holds no LF. */
  lemma PermutedLines(x: string, r: seq<string>)
    requires multiset(r) == multiset(Split(x, LF))
    ensures forall k :: 0 <= k < |r| ==> '\n' !in r[k]
  {
    var lines := Split(x, LF);
    forall k | 0 <= k < |r|
      ensures '\n' !in r[k]
    {
      assert r[k] in multiset(lines);
      var i :| 0 <= i < |lines| && lines[i] == r[k];
    }
  }

  /**
   The lines of `sort alphabetical`'s output are the input's lines, as a multiset, in
   non-decreasing order; in particular there are as many of them.
   */
  lemma SortAlphabeticalLines(x: string)
    ensures multiset(Split(SortAlphabetical(x), LF)) == multiset(Split(x, LF))
    ensures Sorted(Split(SortAlphabetical(x), LF))
    ensures |Split(SortAlphabetical(x), LF)| == |Split(x, LF)|
  {
    var r := Sort(Split(x, LF));
    PermutedLines(x, r);
    assert |r| == |multiset(r)|;
    SplitJoin(r, '\n');
  }

  /** Sorting sorted text changes nothing. */
  lemma SortAlphabeticalIdempotent(x: string)
    ensures SortAlphabetical(SortAlphabetical(x)) == SortAlphabetical(x)
  {
    var y := SortAlphabetical(x);
    SortAlphabeticalLines(x);
    var lines := Split(y, LF);
    SortedUnique(Sort(lines), lines);
  }

  /** Ordered by length, shorter first. */
  predicate SortedByLength(s: seq<string>)
  {
    forall i, j :: 0 <= i < j < |s| ==> |s[i]| <= |s[j]|
  }

  /** The lines of length `n`, in their order. */
  function OfLength(s: seq<string>, n: nat): (r: seq<string>)
    ensures forall k :: 0 <= k < |r| ==> |r[k]| == n
  {
    if s == [] then []
    else (if |s[0]| == n then [s[0]] else []) + OfLength(s[1..], n)
  }

  lemma SortedByLengthCons(h: string, t: seq<string>)
    requires SortedByLength(t)
    requires forall j :: 0 <= j < |t| ==> |h| <= |t[j]|
    ensures SortedByLength([h] + t)
  {
  }

  /** The lines of length `n` of a sequence with one more line in front. */
  lemma OfLengthCons(h: string, t: seq<string>, n: nat)
    ensures OfLength([h] + t, n) == if |h| == n then [h] + OfLength(t, n) else OfLength(t, n)
  {
  }

  /** `x` placed before the first element at least as long: after the shorter ones, ahead of equals. */
  function InsertByLength(x: string, s: seq<string>): (r: seq<string>)
    requires SortedByLength(s)
    ensures |r| == |s| + 1
    ensures forall j :: 0 <= j < |r| ==> r[j] == x || r[j] in s
    ensures multiset(r) == multiset(s) + multiset{x}
    ensures SortedByLength(r)
    ensures forall n: nat :: OfLength(r, n) == if |x| == n then [x] + OfLength(s, n) else OfLength(s, n)
  {
    if s == [] then
      assert forall n: nat :: OfLength([x], n) == OfLength([x] + [], n);
      [x]
    else if |x| <= |s[0]| then
      SortedByLengthCons(x, s);
      assert forall n: nat :: OfLength([x] + s, n) == if |x| == n then [x] + OfLength(s, n) else OfLength(s, n) by {
        forall n: nat { OfLengthCons(x, s, n); }
      }
      [x] + s
    else
      var rest := InsertByLength(x, s[1..]);
      InsertByLengthBehind(x, s, rest);
      [s[0]] + rest
  }

  lemma InsertByLengthBehind(x: string, s: seq<string>, rest: seq<string>)
    requires SortedByLength(s) && |s| > 0 && |s[0]| < |x|
    requires SortedByLength(rest)
    requires forall j :: 0 <= j < |rest| ==> rest[j] == x || rest[j] in s[1..]
    requires multiset(rest) == multiset(s[1..]) + multiset{x}
    requires forall n: nat :: OfLength(rest, n) == if |x| == n then [x] + OfLength(s[1..], n) else OfLength(s[1..], n)
    ensures forall j :: 0 <= j < |[s[0]] + rest| ==> ([s[0]] + rest)[j] == x || ([s[0]] + rest)[j] in s
    ensures multiset([s[0]] + rest) == multiset(s) + multiset{x}
    ensures SortedByLength([s[0]] + rest)
    ensures forall n: nat :: OfLength([s[0]] + rest, n) == if |x| == n then [x] + OfLength(s, n) else OfLength(s, n)
  {
    assert s == [s[0]] + s[1..];
    forall j | 0 <= j < |rest|
      ensures |s[0]| <= |rest[j]|
    {
      if rest[j] != x {
        var k :| 0 <= k < |s[1..]| && s[1..][k] == rest[j];
        assert s[k + 1] == rest[j];
      }
    }
    SortedByLengthCons(s[0], rest);
    forall n: nat
      ensures OfLength([s[0]] + rest, n) == if |x| == n then [x] + OfLength(s, n) else OfLength(s, n)
    {
      OfLengthCons(s[0], rest, n);
      OfLengthCons(s[0], s[1..], n);
    }
  }

  /** `sorted(lines, key=len)`: a stable insertion sort on line length. */
  function SortByLength(s: seq<string>): (r: seq<string>)
    ensures multiset(r) == multiset(s)
    ensures SortedByLength(r)
    ensures forall n: nat :: OfLength(r, n) == OfLength(s, n)
  {
    if s == [] then []
    else
      assert s == [s[0]] + s[1..];
      InsertByLength(s[0], SortByLength(s[1..]))
  }

  /**
   `sort by length`. Only whole lines move: the output has the input's characters,
   as a multiset, and a text of one line comes back unchanged.
   */
  function SortLinesByLength(x: string): (r: string)
    ensures multiset(r) == multiset(x) && |r| == |x|
    ensures '\n' !in x ==> r == x
  {
    var lines := Split(x, LF);
    JoinPermutation(SortByLength(lines), lines, LF);
    assert '\n' !in x ==> lines == [x] by {
      if '\n' !in x { SplitWithoutSeparator(x, '\n'); }
    }
    Join(SortByLength(lines), LF)
  }

  /**
   The lines of `sort by length`'s output are the input's lines ordered by length, and
   lines of equal length keep their input order (the sort is stable).
   */
  lemma SortLinesByLengthLines(x: string)
    ensures multiset(Split(SortLinesByLength(x), LF)) == multiset(Split(x, LF))
    ensures SortedByLength(Split(SortLinesByLength(x), LF))
    ensures forall n: nat :: OfLength(Split(SortLinesByLength(x), LF), n) == OfLength(Split(x, LF), n)
  {
    var r := SortByLength(Split(x, LF));
    PermutedLines(x, r);
    assert |r| == |multiset(r)|;
    SplitJoin(r, '\n');
  }

  /**
   `sort reverse`: the lines in reverse order. Only whole lines move: the output has the
   input's characters, as a multiset, and a text of one line comes back unchanged.
   */
  function ReverseLines(x: string): (r: string)
    ensures multiset(r) == multiset(x) && |r| == |x|
    ensures '\n' !in x ==> r == x
  {
    var lines := Split(x, LF);
    ReverseMultiset(lines);
    JoinPermutation(Reverse(lines), lines, LF);
    assert '\n' !in x ==> lines == [x] by {
      if '\n' !in x { SplitWithoutSeparator(x, '\n'); }
    }
    Join(Reverse(lines), LF)
  }

  /** The output's lines are the input's, last first. */
  lemma ReverseLinesLines(x: string)
    ensures Split(ReverseLines(x), LF) == Reverse(Split(x, LF))
  {
    var lines := Split(x, LF);
    var r := Reverse(lines);
    assert forall k :: 0 <= k < |r| ==> r[k] == lines[|lines| - 1 - k];
    SplitJoin(r, '\n');
  }

  /** `sort reverse` applied twice gives the text back. */
  lemma ReverseLinesInvolution(x: string)
    ensures ReverseLines(ReverseLines(x)) == x
  {
    ReverseLinesLines(x);
    ReverseReverse(Split(x, LF));
  }
}
