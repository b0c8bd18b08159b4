/**
 The Nutrimatic query helpers `add ?` and `add A* between`. In a Nutrimatic pattern `?`
 makes the preceding character optional and `A*` stands for any run of letters.
 */
module Nutrimatic {
  import opened Text

  /** `add ?`: `''.join(f'{c}?' for c in x)`, every character followed by `?`. */
  function AddQuestion(x: string): (r: string)
    ensures |r| == 2 * |x|
    ensures forall i :: 0 <= i < |x| ==> r[2 * i] == x[i] && r[2 * i + 1] == '?'
  {
    if x == [] then ""
    else
      var rest := AddQuestion(x[1..]);
      var r := [x[0], '?'] + rest;
      assert forall i :: 1 <= i < |x| ==> r[2 * i] == x[i] && r[2 * i + 1] == '?' by {
        forall i | 1 <= i < |x|
          ensures r[2 * i] == x[i] && r[2 * i + 1] == '?'
        {
          assert 2 * (i - 1) + 2 == 2 * i;
          assert r[2 * i] == rest[2 * (i - 1)] && r[2 * i + 1] == rest[2 * (i - 1) + 1];
          assert x[i] == x[1..][i - 1];
        }
      }
      r
  }

  /** Every other character of `s`, starting with the first. */
  function Evens(s: string): (r: string)
    ensures |r| == (|s| + 1) / 2
    ensures forall i :: 0 <= i < |r| ==> r[i] == s[2 * i]
  {
    if |s| <= 1 then s
    else
      var rest := Evens(s[2..]);
      var r := [s[0]] + rest;
      assert (|s| - 2 + 1) / 2 + 1 == (|s| + 1) / 2;
      assert forall i :: 1 <= i < |r| ==> r[i] == s[2 * i] by {
        forall i | 1 <= i < |r|
          ensures r[i] == s[2 * i]
        {
          assert 2 * (i - 1) + 2 == 2 * i;
          assert r[i] == rest[i - 1] == s[2..][2 * (i - 1)];
        }
      }
      r
  }

  /** Dropping the inserted `?`s gives the query's letters back. */
  lemma AddQuestionInverse(x: string)
    ensures Evens(AddQuestion(x)) == x
  {
  }

  lemma ShiftThree(m: nat)
    ensures (m + 3) % 3 == m % 3 && (m + 3) / 3 == m / 3 + 1
  {
  }

  lemma ShiftTwo(k: nat)
    requires k >= 2
    ensures (k - 2) % 3 == 0 <==> k % 3 == 2
    ensures (k - 2) % 3 == 1 <==> k % 3 == 0
    ensures k % 3 == 2 ==> (k - 2) / 3 == k / 3
  {
  }

  /** `'A*'.join(x)`: the characters of `x` with `A*` between neighbours. */
  lemma {:induction false} StarJoin(x: string)
    requires |x| > 0
    ensures |Join(Cells(x), "A*")| == 3 * |x| - 2
    ensures forall k :: 0 <= k < |Join(Cells(x), "A*")| ==>
      Join(Cells(x), "A*")[k] == if k % 3 == 0 then x[k / 3] else if k % 3 == 1 then 'A' else '*'
    decreases |x|
  {
    var j := Join(Cells(x), "A*");
    if |x| > 1 {
      StarJoin(x[1..]);
      var rest := Join(Cells(x[1..]), "A*");
      assert Cells(x)[1..] == Cells(x[1..]);
      assert j == [x[0]] + "A*" + rest;
      forall k | 3 <= k < |j|
        ensures j[k] == if k % 3 == 0 then x[k / 3] else if k % 3 == 1 then 'A' else '*'
      {
        assert j[k] == rest[k - 3];
        ShiftThree(k - 3);
      }
    }
  }

  /** Framing `'A*'.join(x)` with `A*` on both sides shifts every position by two. */
  lemma StarFrame(x: string)
    requires |x| > 0
    ensures |"A*" + Join(Cells(x), "A*") + "A*"| == 3 * |x| + 2
    ensures forall k :: 0 <= k < |"A*" + Join(Cells(x), "A*") + "A*"| ==>
      ("A*" + Join(Cells(x), "A*") + "A*")[k] ==
        if k % 3 == 2 then x[k / 3] else if k % 3 == 0 then 'A' else '*'
  {
    var j := Join(Cells(x), "A*");
    var r := "A*" + j + "A*";
    StarJoin(x);
    forall k | 2 <= k < |r| - 2
      ensures r[k] == if k % 3 == 2 then x[k / 3] else if k % 3 == 0 then 'A' else '*'
    {
      assert r[k] == j[k - 2];
      ShiftTwo(k);
    }
  }

  /**
   `add A* between`: `'A*' + 'A*'.join(x) + 'A*'`. Each character of `x` is preceded by
   `A*` and the whole ends with `A*`; the empty query gives `A*A*`.
   */
  function AddStarBetween(x: string): (r: string)
    ensures |x| == 0 ==> r == "A*A*"
    ensures |x| > 0 ==> |r| == 3 * |x| + 2
    ensures |x| > 0 ==> forall k :: 0 <= k < |r| ==>
      r[k] == if k % 3 == 2 then x[k / 3] else if k % 3 == 0 then 'A' else '*'
  {
    if |x| > 0 then StarFrame(x); "A*" + Join(Cells(x), "A*") + "A*"
    else "A*" + Join(Cells(x), "A*") + "A*"
  }

  /** The query's characters sit at every third position, starting at 2. */
  function Thirds(s: string): (r: string)
    ensures |r| == |s| / 3
    ensures forall i :: 0 <= i < |r| ==> 3 * i + 2 < |s| && r[i] == s[3 * i + 2]
    decreases |s|
  {
    if |s| <= 2 then ""
    else
      var rest := Thirds(s[3..]);
      var r := [s[2]] + rest;
      assert forall i :: 1 <= i < |r| ==> r[i] == rest[i - 1] == s[3 * i + 2] by {
        forall i | 1 <= i < |r|
          ensures r[i] == rest[i - 1] == s[3 * i + 2]
        {
          assert 3 * (i - 1) + 2 + 3 == 3 * i + 2;
          assert rest[i - 1] == s[3..][3 * (i - 1) + 2];
        }
      }
      r
  }

  lemma ThirdPosition(i: nat)
    ensures (3 * i + 2) % 3 == 2 && (3 * i + 2) / 3 == i
  {
  }

  /** Reading every third character back recovers a non-empty query. */
  lemma AddStarBetweenInverse(x: string)
    requires |x| > 0
    ensures Thirds(AddStarBetween(x)) == x
  {
    var t := Thirds(AddStarBetween(x));
    var r := AddStarBetween(x);
    ThirdPosition(|x|);
    forall i | 0 <= i < |x|
      ensures t[i] == x[i]
    {
      ThirdPosition(i);
      assert t[i] == r[3 * i + 2];
    }
  }
}
