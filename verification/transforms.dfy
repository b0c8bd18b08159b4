/**
 The top-level string transform `answerize` (`reverse` is `Text.Reverse`). Case mapping is the ASCII
 part of Python's `str.upper`: `a`..`z` become `A`..`Z`, every other character is kept.
 */
module Transforms {
  import opened Text

  /** The characters an answer is written in: `A`..`Z` and `0`..`9`. */
  predicate IsAnswerChar(c: char)
  {
    'A' <= c <= 'Z' || '0' <= c <= '9'
  }

  /** ASCII upper-casing of one character. */
  function UpperChar(c: char): (u: char)
    ensures 'a' <= c <= 'z' ==> 'A' <= u <= 'Z' && u as int == c as int - 32
    ensures !('a' <= c <= 'z') ==> u == c
  {
    if 'a' <= c <= 'z' then (c as int - 32) as char else c
  }

  /** `s.upper()`, ASCII letters only. */
  function Upper(s: string): (r: string)
    ensures |r| == |s|
    ensures forall i :: 0 <= i < |s| ==> r[i] == UpperChar(s[i])
  {
    seq(|s|, i requires 0 <= i < |s| => UpperChar(s[i]))
  }

  /**
   `re.sub('[^A-Z0-9]', '', s)`: the answer characters of `s`, in order. A single character
   is kept exactly when it is an answer character.
   */
  function KeepAnswerChars(s: string): (r: string)
    ensures |r| <= |s|
    ensures forall i :: 0 <= i < |r| ==> IsAnswerChar(r[i])
    ensures |s| == 1 ==> r == (if IsAnswerChar(s[0]) then s else [])
  {
    if s == [] then []
    else (if IsAnswerChar(s[0]) then [s[0]] else []) + KeepAnswerChars(s[1..])
  }

  /** The characters the filter leaves are exactly the answer characters that occur in `s`. */
  lemma {:induction false} KeepAnswerCharsMembers(s: string, c: char)
    ensures c in KeepAnswerChars(s) <==> c in s && IsAnswerChar(c)
    decreases |s|
  {
    if s != [] {
      KeepAnswerCharsMembers(s[1..], c);
      assert s == [s[0]] + s[1..];
    }
  }

  /** `answerize`: upper-case, then drop everything that is not a letter or a digit. */
  function Answerize(x: string): (r: string)
    ensures |r| <= |x|
    ensures forall i :: 0 <= i < |r| ==> IsAnswerChar(r[i])
  {
    KeepAnswerChars(Upper(x))
  }

  /** Text that is already all answer characters is left as it is by the filter. */
  lemma {:induction false} KeepAnswerCharsFixed(s: string)
    requires forall i :: 0 <= i < |s| ==> IsAnswerChar(s[i])
    ensures KeepAnswerChars(s) == s
    decreases |s|
  {
    if s != [] {
      KeepAnswerCharsFixed(s[1..]);
      assert [s[0]] + s[1..] == s;
    }
  }

  /** Text that is already all answer characters is its own answer. */
  lemma AnswerizeFixed(s: string)
    requires forall i :: 0 <= i < |s| ==> IsAnswerChar(s[i])
    ensures Answerize(s) == s
  {
    assert Upper(s) == s;
    KeepAnswerCharsFixed(s);
  }

  /** `answerize` is idempotent. */
  lemma AnswerizeIdempotent(x: string)
    ensures Answerize(Answerize(x)) == Answerize(x)
  {
    AnswerizeFixed(Answerize(x));
  }

  /** The filter works character by character: it distributes over concatenation. */
  lemma {:induction false} KeepAnswerCharsConcat(a: string, b: string)
    ensures KeepAnswerChars(a + b) == KeepAnswerChars(a) + KeepAnswerChars(b)
    decreases |a|
  {
    if a != [] {
      assert (a + b)[1..] == a[1..] + b;
      KeepAnswerCharsConcat(a[1..], b);
    } else {
      assert a + b == b;
    }
  }

  /**
   A character-by-character reference for `answerize`: the answer of a concatenation is
   the concatenation of the answers, and one character answers as its upper-case form
   if that is a letter or digit, as nothing otherwise.
   */
  lemma AnswerizeByCharacter(a: string, b: string, c: char)
    ensures Answerize(a + b) == Answerize(a) + Answerize(b)
    ensures Answerize([c]) == if IsAnswerChar(UpperChar(c)) then [UpperChar(c)] else []
  {
    assert Upper(a + b) == Upper(a) + Upper(b);
    KeepAnswerCharsConcat(Upper(a), Upper(b));
    assert Upper([c]) == [UpperChar(c)];
  }
}
