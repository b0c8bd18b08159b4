/**
 The Python string built-ins the transforms are written with: `sep.join(parts)`,
 `s.split(sep)`, `list(s)`, `s[::-1]` / `reversed(...)` and substring tests.
 Strings are `seq<char>`; every Python `str` without lone surrogates maps onto it one to one.
 */
module Text {

  const LF: string := "\n"
  const CRLF: string := "\r\n"
  const TAB: string := "\t"

  /**
   `sep.join(parts)`: the parts with `sep` between neighbours; `""` for no parts. The
   text opens with the first part.
   */
  function Join(parts: seq<string>, sep: string): (r: string)
    ensures |parts| == 0 ==> r == ""
    ensures |parts| >= 1 ==> parts[0] <= r
  {
    if |parts| == 0 then ""
    else if |parts| == 1 then parts[0]
    else parts[0] + sep + Join(parts[1..], sep)
  }

  /** The characters of all the parts together, counted with multiplicity. */
  ghost function Chars(parts: seq<string>): multiset<char>
  {
    if parts == [] then multiset{} else multiset(parts[0]) + Chars(parts[1..])
  }

  /** `n` copies of the separator's characters. */
  ghost function Copies(n: int, sep: string): multiset<char>
    decreases n
  {
    if n <= 0 then multiset{} else multiset(sep) + Copies(n - 1, sep)
  }

  lemma {:induction false} CharsConcat(a: seq<string>, b: seq<string>)
    ensures Chars(a + b) == Chars(a) + Chars(b)
    decreases |a|
  {
    if a != [] {
      CharsConcat(a[1..], b);
      assert (a + b)[0] == a[0];
      assert (a + b)[1..] == a[1..] + b;
    } else {
      assert a + b == b;
    }
  }

  /** Taking out the part at `i` takes out its characters. */
  lemma CharsRemove(q: seq<string>, i: int)
    requires 0 <= i < |q|
    ensures Chars(q) == multiset(q[i]) + Chars(q[..i] + q[i + 1..])
  {
    var a, b := q[..i], q[i + 1..];
    var c := [q[i]] + b;
    assert q == a + c;
    assert c[0] == q[i] && c[1..] == b;
    CharsConcat(a, c);
    CharsConcat(a, b);
  }

  /** Taking out the part at `i` takes one copy of it out of the multiset of parts. */
  lemma MultisetRemove(q: seq<string>, i: int)
    requires 0 <= i < |q|
    ensures multiset(q[..i] + q[i + 1..]) == multiset(q) - multiset{q[i]}
  {
    assert q == q[..i] + [q[i]] + q[i + 1..];
    assert multiset(q) == multiset(q[..i]) + multiset{q[i]} + multiset(q[i + 1..]);
  }

  /** Two orderings of one multiset, each with its first part taken out, still match. */
  lemma RemoveMatching(p: seq<string>, q: seq<string>, i: int)
    requires multiset(p) == multiset(q) && |p| > 0 && 0 <= i < |q| && q[i] == p[0]
    ensures multiset(p[1..]) == multiset(q[..i] + q[i + 1..])
  {
    MultisetRemove(q, i);
    assert p == [p[0]] + p[1..];
    assert multiset(p) == multiset{p[0]} + multiset(p[1..]);
  }

  /** The characters of the parts do not depend on the order of the parts. */
  lemma {:induction false} CharsPermutation(p: seq<string>, q: seq<string>)
    requires multiset(p) == multiset(q)
    ensures Chars(p) == Chars(q)
    decreases |p|
  {
    if p == [] {
      assert |q| == |multiset(q)| == 0;
    } else {
      assert p[0] in multiset(q);
      var i :| 0 <= i < |q| && q[i] == p[0];
      RemoveMatching(p, q, i);
      CharsPermutation(p[1..], q[..i] + q[i + 1..]);
      CharsRemove(q, i);
    }
  }

  /** A join holds the parts' characters and one separator per pair of neighbours. */
  lemma {:induction false} JoinMultiset(parts: seq<string>, sep: string)
    ensures multiset(Join(parts, sep)) == Chars(parts) + Copies(|parts| - 1, sep)
    decreases |parts|
  {
    if |parts| == 1 {
      assert Chars(parts[1..]) == multiset{};
    } else if |parts| >= 2 {
      JoinMultiset(parts[1..], sep);
      assert Join(parts, sep) == parts[0] + sep + Join(parts[1..], sep);
      assert Copies(|parts| - 1, sep) == multiset(sep) + Copies(|parts| - 2, sep);
    }
  }

  /** Joining the same parts in another order keeps the characters and the length. */
  lemma JoinPermutation(p: seq<string>, q: seq<string>, sep: string)
    requires multiset(p) == multiset(q)
    ensures multiset(Join(p, sep)) == multiset(Join(q, sep))
    ensures |Join(p, sep)| == |Join(q, sep)|
  {
    assert |p| == |multiset(p)| == |q|;
    CharsPermutation(p, q);
    JoinMultiset(p, sep);
    JoinMultiset(q, sep);
    assert |Join(p, sep)| == |multiset(Join(p, sep))|;
    assert |Join(q, sep)| == |multiset(Join(q, sep))|;
  }

  /** `sep` occurs in `p` starting at position `k`. */
  ghost predicate SepAt(p: string, k: int, sep: string)
  {
    0 <= k && k + |sep| <= |p| && p[k..k + |sep|] == sep
  }

  /** `sep not in p`: the separator occurs nowhere in `p`. */
  ghost predicate NoSep(p: string, sep: string)
  {
    forall k :: !SepAt(p, k, sep)
  }

  /**
   A piece without the separator, with one character put in front, still lacks it when
   the result starts a string that does not start with the separator.
   */
  lemma NoSepCons(c: char, p: string, sep: string, s: string)
    requires |sep| > 0 && NoSep(p, sep)
    requires [c] + p <= s && |sep| <= |s| && s[..|sep|] != sep
    ensures NoSep([c] + p, sep)
  {
    var q := [c] + p;
    forall k
      ensures !SepAt(q, k, sep)
    {
      if k < 0 || k + |sep| > |q| {
      } else if k == 0 {
        assert q[..|sep|] == s[..|sep|];
      } else {
        assert q[k..k + |sep|] == p[k - 1..k - 1 + |sep|];
        assert !SepAt(p, k - 1, sep);
      }
    }
  }

  /** Putting one more character in front of the first part puts it in front of the whole join. */
  lemma JoinPushHead(c: char, parts: seq<string>, sep: string)
    requires |parts| >= 1
    ensures Join([[c] + parts[0]] + parts[1..], sep) == [c] + Join(parts, sep)
  {
  }

  /**
   `s.split(sep)` for a non-empty separator (Python raises ValueError for an empty one):
   scanning left to right, every non-overlapping occurrence of `sep` ends a piece.
   There is always at least one piece, joining the pieces back gives `s`, and no piece
   contains `sep`.
   */
  function Split(s: string, sep: string): (r: seq<string>)
    requires |sep| > 0
    ensures |r| >= 1
    ensures Join(r, sep) == s
    ensures forall i :: 0 <= i < |r| ==> NoSep(r[i], sep)
    ensures |sep| == 1 ==> forall i :: 0 <= i < |r| ==> sep[0] !in r[i]
    decreases |s|
  {
    if |s| < |sep| then [s]
    else if s[..|sep|] == sep then
      var rest := Split(s[|sep|..], sep);
      assert ([""] + rest)[1..] == rest;
      assert s == s[..|sep|] + s[|sep|..];
      [""] + rest
    else
      var rest := Split(s[1..], sep);
      JoinPushHead(s[0], rest, sep);
      assert s == [s[0]] + s[1..];
      NoSepCons(s[0], rest[0], sep, s);
      assert |sep| == 1 ==> s[..1] == [s[0]] && sep == [sep[0]];
      [[s[0]] + rest[0]] + rest[1..]
  }

  /** A text holding the separator anywhere is cut into at least two pieces. */
  lemma SplitCuts(s: string, sep: string, k: int)
    requires |sep| > 0 && SepAt(s, k, sep)
    ensures |Split(s, sep)| >= 2
  {
  }

  /** A string without the separator character splits into itself alone. */
  lemma SplitWithoutSeparator(p: string, c: char)
    requires c !in p
    ensures Split(p, [c]) == [p]
  {
  }

  /** A first piece without the separator character, then the separator, then anything. */
  lemma {:induction false} SplitAfterPiece(p: string, c: char, tail: string)
    requires c !in p
    ensures Split(p + [c] + tail, [c]) == [p] + Split(tail, [c])
    decreases |p|
  {
    var s := p + [c] + tail;
    if |p| == 0 {
      assert s[..1] == [c];
      assert s[1..] == tail;
    } else {
      assert s[..1] == [p[0]];
      assert s[1..] == p[1..] + [c] + tail;
      SplitAfterPiece(p[1..], c, tail);
      assert [p[0]] + p[1..] == p;
    }
  }

  /**
   The other direction of the split/join round trip: for a one-character separator,
   splitting a join gives back the parts, provided no part holds the separator.
   */
  lemma {:induction false} SplitJoin(parts: seq<string>, c: char)
    requires |parts| >= 1
    requires forall i :: 0 <= i < |parts| ==> c !in parts[i]
    ensures Split(Join(parts, [c]), [c]) == parts
    decreases |parts|
  {
    if |parts| == 1 {
      SplitWithoutSeparator(parts[0], c);
    } else {
      SplitAfterPiece(parts[0], c, Join(parts[1..], [c]));
      SplitJoin(parts[1..], c);
      assert [parts[0]] + parts[1..] == parts;
    }
  }

  /** Every character of a join comes from a part or from the separator, and conversely. */
  lemma {:induction false} JoinChars(parts: seq<string>, sep: string, c: char)
    ensures c in Join(parts, sep) <==>
      (exists i :: 0 <= i < |parts| && c in parts[i]) || (|parts| >= 2 && c in sep)
    decreases |parts|
  {
    if |parts| >= 2 {
      JoinChars(parts[1..], sep, c);
      assert forall i :: 1 <= i < |parts| ==> parts[i] == parts[1..][i - 1];
      if c in parts[0] {
      } else if exists i :: 1 <= i < |parts| && c in parts[i] {
        var i :| 1 <= i < |parts| && c in parts[i];
        assert c in parts[1..][i - 1];
      }
    }
  }

  /** `list(s)`: one single-character cell per character. */
  function Cells(s: string): (r: seq<string>)
    ensures |r| == |s|
    ensures forall i :: 0 <= i < |r| ==> r[i] == [s[i]]
  {
    seq(|s|, i requires 0 <= i < |s| => [s[i]])
  }

  /** `''.join(list(s)) == s`. */
  lemma {:induction false} JoinCells(s: string)
    ensures Join(Cells(s), "") == s
    decreases |s|
  {
    if |s| >= 2 {
      JoinCells(s[1..]);
      assert Cells(s)[1..] == Cells(s[1..]);
      assert s == [s[0]] + s[1..];
    } else if |s| == 1 {
      assert s == [s[0]];
    }
  }

  /** `list(''.join(row)) == row` when every cell of the row is one character. */
  lemma {:induction false} CellsJoin(row: seq<string>)
    requires forall i :: 0 <= i < |row| ==> |row[i]| == 1
    ensures Cells(Join(row, "")) == row
    decreases |row|
  {
    if |row| >= 2 {
      CellsJoin(row[1..]);
      var j := Join(row, "");
      assert j == row[0] + Join(row[1..], "");
      assert Cells(j) == Cells(row[0]) + Cells(Join(row[1..], ""));
      assert row[0] == [row[0][0]];
      assert Cells(row[0]) == [row[0]];
      assert [row[0]] + row[1..] == row;
    } else if |row| == 1 {
      assert row[0] == [row[0][0]];
      assert Cells(row[0]) == [row[0]];
    }
  }

  /** `s[::-1]`, `reversed(s)`: position `i` of the result holds position `|s| - 1 - i` of `s`. */
  function Reverse<T>(s: seq<T>): (r: seq<T>)
    ensures |r| == |s|
    ensures forall i :: 0 <= i < |s| ==> r[i] == s[|s| - 1 - i]
  {
    if s == [] then [] else Reverse(s[1..]) + [s[0]]
  }

  /** Reversing twice restores the sequence. */
  lemma ReverseReverse<T>(s: seq<T>)
    ensures Reverse(Reverse(s)) == s
  {
  }

  /** Reversal keeps the elements, only the order changes. */
  lemma {:induction false} ReverseMultiset<T>(s: seq<T>)
    ensures multiset(Reverse(s)) == multiset(s)
    decreases |s|
  {
    if s != [] {
      ReverseMultiset(s[1..]);
      assert s == [s[0]] + s[1..];
    }
  }

  /** Python's `'\r\n' in s`. */
  function ContainsCrlf(s: string): (r: bool)
    ensures r <==> exists i :: 0 <= i < |s| - 1 && s[i] == '\r' && s[i + 1] == '\n'
    decreases |s|
  {
    if |s| < 2 then false
    else if s[0] == '\r' && s[1] == '\n' then true
    else
      var rest := ContainsCrlf(s[1..]);
      assert forall i :: 1 <= i < |s| - 1 ==> s[i] == s[1..][i - 1] && s[i + 1] == s[1..][i];
      rest
  }
}
