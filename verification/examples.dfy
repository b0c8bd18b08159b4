/** Worked examples of the transforms on concrete inputs. */
module Examples {
  import opened Text
  import opened Grid
  import opened GridAdapter
  import opened Transforms
  import opened Sorts

  lemma UpperExample()
    ensures Upper("What's up?") == "WHAT'S UP?"
  {
  }

  /**
   Lower-case letters come out upper-cased and punctuation between them is dropped, as
   `What's` answers as `WHATS`.
   */
  lemma AnswerizeExample(a: char, p: char, b: char)
    requires 'a' <= a <= 'z' && 'a' <= b <= 'z'
    requires !('a' <= p <= 'z') && !IsAnswerChar(p)
    ensures Answerize([a, p, b]) == [UpperChar(a), UpperChar(b)]
  {
    AnswerizeByCharacter([a], [p], a);
    AnswerizeByCharacter([a] + [p], [b], p);
    AnswerizeByCharacter([], [], b);
    assert [a, p, b] == [a] + [p] + [b];
  }

  lemma SortExample()
    ensures Sort(["banana", "apple", "cherry"]) == ["apple", "banana", "cherry"]
  {
    var lines := ["banana", "apple", "cherry"];
    var sorted := ["apple", "banana", "cherry"];
    assert LexLe("apple", "banana") && LexLe("banana", "cherry") && LexLe("apple", "cherry");
    assert Sorted(sorted);
    assert multiset(sorted) == multiset(lines);
    SortedUnique(Sort(lines), sorted);
  }

  /** CRLF mode breaks a line at `\r\n`: `"a\r\nb".split("\r\n") == ["a", "b"]`. */
  lemma CrlfSplitExample(a: char, b: char)
    ensures Split([a, '\r', '\n', b], CRLF) == [[a], [b]]
  {
    var s := [a, '\r', '\n', b];
    assert s[..2][1] != CRLF[1];
    var t := s[1..];
    assert t[..2] == CRLF;
    assert t[2..] == [b];
    assert Split([b], CRLF) == [[b]];
    var rest := Split(t, CRLF);
    assert rest == [""] + [[b]];
    assert Split(s, CRLF) == [[a] + rest[0]] + rest[1..];
    assert [a] + rest[0] == [a] && rest[1..] == [[b]];
  }

  lemma JoinTwo(a: string, b: string, sep: string)
    ensures Join([a, b], sep) == a + sep + b
  {
    assert [a, b][1..] == [b];
  }

  /** Cells that are neither tab nor line break. */
  predicate Ordinary(c: char)
  {
    c != '\t' && c != '\n' && c != '\r'
  }

  lemma TabRowParseExample(a: char, b: char)
    requires Ordinary(a) && Ordinary(b)
    ensures ParseRow([a, '\t', b], true) == [[a], [b]]
  {
    JoinTwo([a], [b], TAB);
    assert [a] + TAB + [b] == [a, '\t', b];
    SplitJoin([[a], [b]], '\t');
  }

  lemma TabGridParseExample(a: char, b: char, c: char, d: char)
    requires Ordinary(a) && Ordinary(b) && Ordinary(c) && Ordinary(d)
    ensures Parse([a, '\t', b, '\n', c, '\t', d], Layout(true, Lf)) == [[[a], [b]], [[c], [d]]]
  {
    var l1, l2 := [a, '\t', b], [c, '\t', d];
    JoinTwo(l1, l2, LF);
    assert l1 + LF + l2 == [a, '\t', b, '\n', c, '\t', d];
    SplitJoin([l1, l2], '\n');
    TabRowParseExample(a, b);
    TabRowParseExample(c, d);
  }

  lemma TabGridTransposeExample(a: string, b: string, c: string, d: string)
    ensures Transpose([[a, b], [c, d]]) == [[a, c], [b, d]]
  {
    var g := [[a, b], [c, d]];
    MinWidthRectangular(g, 2);
    var t := Transpose(g);
    assert t[0] == Column(g, 0) == [a, c];
    assert t[1] == Column(g, 1) == [b, d];
  }

  lemma TabGridSerialiseExample(a: char, b: char, c: char, d: char)
    ensures Serialise([[[a], [c]], [[b], [d]]], Layout(true, Lf)) == [a, '\t', c, '\n', b, '\t', d]
  {
    var t := [[[a], [c]], [[b], [d]]];
    JoinTwo([a], [c], TAB);
    JoinTwo([b], [d], TAB);
    assert [a] + TAB + [c] == [a, '\t', c] && [b] + TAB + [d] == [b, '\t', d];
    var rows := seq(|t|, k requires 0 <= k < |t| => Join(t[k], TAB));
    assert rows == [[a, '\t', c], [b, '\t', d]];
    JoinTwo([a, '\t', c], [b, '\t', d], LF);
    assert [a, '\t', c] + LF + [b, '\t', d] == [a, '\t', c, '\n', b, '\t', d];
  }

  /** Tab mode: `transpose` of `a<TAB>b<LF>c<TAB>d` is `a<TAB>c<LF>b<TAB>d`. */
  lemma TransposeTabExample(a: char, b: char, c: char, d: char)
    requires Ordinary(a) && Ordinary(b) && Ordinary(c) && Ordinary(d)
    ensures TransposeText([a, '\t', b, '\n', c, '\t', d]) == [a, '\t', c, '\n', b, '\t', d]
  {
    var data := [a, '\t', b, '\n', c, '\t', d];
    assert data[1] == '\t';
    assert !ContainsCrlf(data);
    assert DetectLayout(data) == Layout(true, Lf);
    TabGridParseExample(a, b, c, d);
    TabGridTransposeExample([a], [b], [c], [d]);
    TabGridSerialiseExample(a, b, c, d);
  }

  lemma TransposeTabLiteralExample()
    ensures TransposeText("a\tb\nc\td") == "a\tc\nb\td"
  {
    TransposeTabExample('a', 'b', 'c', 'd');
  }
}
