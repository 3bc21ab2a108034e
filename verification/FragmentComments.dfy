/** Two inputs at which a comment followed by code spoils the lexical normal form. */
module FragmentComments {
  import opened Wrappers
  import opened Text
  import opened FragmentScanner
  import opened FragmentNormaliser
  import opened FragmentLayout
  import opened FragmentSqueeze

  lemma TextOfKept(sc: Scanner, s: string, parts: seq<string>)
    requires |parts| == |Kept(sc.Lexemes(s))|
    requires forall i :: 0 <= i < |parts| ==> parts[i] == Render(sc, Kept(sc.Lexemes(s))[i])
    ensures LexicalText(sc, s) == Strip(Join(" ", NonEmpty(parts)))
  {
    hide Render, Scanner.NextLexeme;
    LexicalTextIsRendered(sc, s);
    assert parts == RenderedAll(sc, Kept(sc.Lexemes(s)));
  }

  /** A comment that runs to the end of the text is kept as one lexeme. */
  lemma LoneComment(sc: Scanner, s: string)
    requires s != "" && s[0] == '#' && '\n' !in s
    ensures Kept(sc.Lexemes(s)) == [Lexeme(CommentText, TidyComment(s))]
  {
    assert LineLength(s) == |s|;
    assert s[..|s|] == s && s + "" == s;
    assert sc.NextLexeme(s) == Lexeme(CommentText, s);
    LexemesStep(sc, Lexeme(CommentText, s), "");
  }

  /** A comment line, then whatever the next line holds. */
  lemma CommentThenRest(sc: Scanner, rest: string)
    ensures Kept(sc.Lexemes("#\n" + rest)) == [Lexeme(CommentText, "#")] + Kept(sc.Lexemes(rest))
  {
    var s := "#\n" + rest;
    assert LineLength(s) == 1 by { assert s[0] == '#' && s[1] == '\n' && s[1..][0] == '\n'; }
    assert s[..1] == "#" && s[1..] == "\n" + rest && ("\n" + rest)[1..] == rest;
    assert sc.NextLexeme(s) == Lexeme(CommentText, "#");
    assert Strip(Squeeze("#")) == "#";
    LeadingSpaceIsSkipped(sc, "\n", rest);
  }

  lemma JoinedTexts(a: string, b: string)
    requires VisibleEnds(a) && VisibleEnds(b)
    ensures Strip(Join(" ", NonEmpty([a, b]))) == a + " " + b
  {
    assert [a, b][1..] == [b] && [b][1..] == [];
    assert NonEmpty([b]) == [b] && NonEmpty([a, b]) == [a] + [b];
    assert [a] + [b] == [a, b];
    StripVisible(a + " " + b);
  }

  lemma SingleText(a: string)
    requires VisibleEnds(a)
    ensures Strip(Join(" ", NonEmpty([a]))) == a
  {
    assert [a][1..] == [];
    assert NonEmpty([a]) == [a];
    StripVisible(a);
  }

  lemma LoneCommentText(sc: Scanner, s: string)
    requires s != "" && s[0] == '#' && '\n' !in s
    ensures LexicalText(sc, s) == TidyComment(s)
  {
    hide TidyComment, NonEmpty, Join, Strip, VisibleEnds;
    LoneComment(sc, s);
    TextOfKept(sc, s, [TidyComment(s)]);
    TidyCommentIsSqueezed(s);
    SingleText(TidyComment(s));
  }

  /** One piece of code on the line after a comment, and the same text inside the comment. */
  lemma CodeAfterComment(sc: Scanner, p: string, l: Lexeme)
    requires VisibleEnds(p) && '\n' !in p && Kept(sc.Lexemes(p)) == [l] && Render(sc, l) == p
    ensures Kept(sc.Lexemes("#\n" + p)) == [Lexeme(CommentText, "#"), l]
    ensures LexicalText(sc, "#\n" + p) == "# " + p
    ensures Kept(sc.Lexemes("# " + p)) == [Lexeme(CommentText, TidyComment("# " + p))]
    ensures LexicalText(sc, "# " + p) == TidyComment("# " + p)
  {
    hide LexicalText, TidyComment, Strip, NonEmpty, Join, Scanner.NextLexeme, NormaliseLiteral;
    CommentThenRest(sc, p);
    TextOfKept(sc, "#\n" + p, ["#", p]);
    JoinedTexts("#", p);
    assert "#" + " " + p == "# " + p;
    LoneComment(sc, "# " + p);
    LoneCommentText(sc, "# " + p);
  }

  // ----- a quoted text -----

  const QUOTED := "'  '"

  lemma QuotedCloses()
    ensures CloseAfter("  '", "'") == Some(3)
  {
    assert "  '"[1..] == " '" && " '"[1..] == "'";
    assert CloseAfter("'", "'") == Some(1);
    assert CloseAfter(" '", "'") == Some(2);
  }

  lemma QuotedSpan()
    ensures LiteralSpan(QUOTED) == Some(Span(4, true)) && PrefixRun(QUOTED) == 0
  {
    QuotedCloses();
    hide CloseAfter;
    assert PrefixRun(QUOTED) == 0;
    assert QUOTED[0..] == QUOTED && QUOTED[1..] == "  '" && QUOTED[1] != '\'';
    assert !(['\'', '\'', '\''] <= QUOTED);
    assert Delimiter(QUOTED) == "'";
  }

  lemma QuotedLexeme(sc: Scanner)
    ensures Kept(sc.Lexemes(QUOTED)) == [Lexeme(Literal(true), QUOTED)]
    ensures NormaliseLiteral(sc, QUOTED) == QUOTED
  {
    QuotedSpan();
    hide LiteralSpan, PrefixRun;
    assert QUOTED[..4] == QUOTED && QUOTED + "" == QUOTED;
    LexemesStep(sc, Lexeme(Literal(true), QUOTED), "");
  }

  /** A string on the line after a comment is drawn into the comment, and squeezed the second time. */
  lemma CommentsAreNotStable(sc: Scanner)
    ensures var s := "#\n" + QUOTED; LexicalText(sc, LexicalText(sc, s)) != LexicalText(sc, s)
  {
    hide LexicalText, TidyComment, Scanner.NextLexeme, NormaliseLiteral;
    QuotedLexeme(sc);
    CodeAfterComment(sc, QUOTED, Lexeme(Literal(true), QUOTED));
    var t := "# " + QUOTED;
    assert t[3] == ' ' == t[4];
    TidyFixed(t);
  }

  /** Code after a comment and the same text inside the comment have one normal form, and it is fixed. */
  lemma CommentsAreNotFaithful(sc: Scanner)
    ensures LexicalText(sc, "#\n" + "a") == LexicalText(sc, "# " + "a") == "# " + "a"
    ensures Kept(sc.Lexemes("#\n" + "a")) != Kept(sc.Lexemes("# " + "a"))
  {
    hide LexicalText, TidyComment, Scanner.NextLexeme, Squeeze, Strip;
    LoneCharacter(sc, 'a');
    CodeAfterComment(sc, "a", Lexeme(Plain, "a"));
    TidyFixed("# " + "a");
  }
}
