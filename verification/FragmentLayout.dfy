/** Layout between lexemes never matters to the lexical normal form. */
module FragmentLayout {
  import opened Text
  import opened FragmentScanner
  import opened FragmentLexing
  import opened FragmentNormaliser

  lemma {:induction false} LeadingSpaceIsSkipped(sc: Scanner, w: string, b: string)
    requires AllSpace(w)
    ensures Kept(sc.Lexemes(w + b)) == Kept(sc.Lexemes(b))
  {
    if w == "" {
      assert w + b == b;
    } else {
      assert (w + b)[1..] == w[1..] + b;
      LeadingSpaceIsSkipped(sc, w[1..], b);
    }
  }

  lemma LexemesStep(sc: Scanner, l: Lexeme, z: string)
    requires l.raw != "" && sc.NextLexeme(l.raw + z) == l
    ensures sc.Lexemes(l.raw + z) == [l] + sc.Lexemes(z)
    ensures Kept(sc.Lexemes(l.raw + z)) ==
      if l.kind == Space then Kept(sc.Lexemes(z)) else [Tidy(l)] + Kept(sc.Lexemes(z))
  {
    assert (l.raw + z)[|l.raw|..] == z;
    assert ([l] + sc.Lexemes(z))[1..] == sc.Lexemes(z);
  }

  lemma {:induction false} SqueezeTail(s: string, w: string)
    requires AllSpace(w)
    ensures RStrip(Squeeze(s + w)) == RStrip(Squeeze(s))
    decreases |s|
  {
    if s == "" {
      assert s + w == w;
      if w != "" {
        LStripAllSpace(w[1..]);
        assert Squeeze(w) == " " + "" == " ";
        assert " "[..0] == "";
      }
    } else if IsSpace(s[0]) {
      assert (s + w)[1..] == s[1..] + w;
      LStripTail(s[1..], w);
      SqueezeTail(LStrip(s[1..]), w);
      var x, x' := Squeeze(LStrip(s[1..] + w)), Squeeze(LStrip(s[1..]));
      if AllSpace(s[1..]) {
        LStripAllSpace(s[1..]);
        LStripAllSpace(s[1..] + w);
      }
      RStripCons(' ', x);
      RStripCons(' ', x');
    } else {
      assert (s + w)[1..] == s[1..] + w;
      SqueezeTail(s[1..], w);
      RStripCons(s[0], Squeeze(s[1..] + w));
      RStripCons(s[0], Squeeze(s[1..]));
    }
  }

  lemma {:induction false} LStripTail(s: string, w: string)
    requires AllSpace(w)
    ensures LStrip(s + w) == if AllSpace(s) then "" else LStrip(s) + w
  {
    if s == "" {
      assert s + w == w;
      LStripAllSpace(w);
    } else {
      assert (s + w)[1..] == s[1..] + w;
      assert s == [s[0]] + s[1..];
      if IsSpace(s[0]) {
        LStripTail(s[1..], w);
      }
    }
  }

  lemma {:induction false} RStripCons(c: char, s: string)
    ensures RStrip([c] + s) == if RStrip(s) == "" then RStrip([c]) else [c] + RStrip(s)
  {
    if s == "" {
      assert [c] + s == [c];
    } else {
      assert ([c] + s)[..|s|] == [c] + s[..|s| - 1];
      if IsSpace(s[|s| - 1]) {
        RStripCons(c, s[..|s| - 1]);
      }
    }
  }

  /** Whitespace after a comment does not change how the comment is kept. */
  lemma TidyCommentTail(raw: string, w: string)
    requires raw != "" && !IsSpace(raw[0]) && AllSpace(w)
    ensures Strip(Squeeze(raw + w)) == Strip(Squeeze(raw))
  {
    SqueezeTail(raw, w);
    assert Squeeze(raw)[0] == raw[0] == Squeeze(raw + w)[0];
  }

  /**
   Inserting whitespace at a lexeme boundary changes nothing that is kept. The one exception the
   code makes is an unterminated literal, which has no end to insert after.
   */
  lemma {:induction false} InsertSpace(sc: Scanner, n: nat, a: string, w: string, b: string)
    requires sc.Valid() && AllSpace(w)
    requires n <= |sc.Lexemes(a + b)| && Concat(Raw(sc.Lexemes(a + b)[..n])) == a
    requires forall l <- sc.Lexemes(a + b)[..n] :: l.kind != Literal(false)
    ensures Kept(sc.Lexemes(a + w + b)) == Kept(sc.Lexemes(a + b))
    decreases n
  {
    hide Scanner.NextLexeme, IsSpace;
    if w == "" {
      assert a + w == a;
    } else if n == 0 {
      assert a == "" && a + w == w && a + b == b;
      LeadingSpaceIsSkipped(sc, w, b);
    } else {
      var ls := sc.Lexemes(a + b);
      var l, a' := ls[0], Concat(Raw(ls[1..n]));
      FirstOfPrefix(sc, n, a, b);
      Assoc(l.raw, a', b);
      Assoc(l.raw, a', w);
      Assoc(l.raw, a' + w, b);
      LexemesStep(sc, l, a' + b);
      assert ls[1..n] == sc.Lexemes(a' + b)[..n - 1];
      assert forall m <- ls[1..n] :: m in ls[..n];
      InsertSpace(sc, n - 1, a', w, b);
      InsertAfterHead(sc, l, a', w, b);
    }
  }

  lemma InsertAfterHead(sc: Scanner, l: Lexeme, a': string, w: string, b: string)
    requires sc.Valid() && AllSpace(w) && w != "" && l.raw != "" && l.kind != Literal(false)
    requires sc.NextLexeme(l.raw + (a' + b)) == l
    requires Kept(sc.Lexemes(a' + w + b)) == Kept(sc.Lexemes(a' + b))
    ensures Kept(sc.Lexemes(l.raw + (a' + w + b))) == Kept(sc.Lexemes(l.raw + (a' + b)))
  {
    LexemesStep(sc, l, a' + b);
    if l.kind == CommentText && a' == "" {
      assert a' + b == b && a' + w == w;
      Assoc(l.raw, w, b);
      CommentThenSpace(sc, l, w, b);
    } else {
      Assoc(a', w, b);
      LexemeStable(sc, l.raw, a' + b, a', a' + w + b);
      LexemesStep(sc, l, a' + w + b);
    }
  }

  lemma FirstOfPrefix(sc: Scanner, n: nat, a: string, b: string)
    requires 0 < n <= |sc.Lexemes(a + b)| && Concat(Raw(sc.Lexemes(a + b)[..n])) == a
    ensures a + b != ""
    ensures var ls := sc.Lexemes(a + b);
      && ls[0] in ls[..n] && ls[0].raw != "" && sc.NextLexeme(a + b) == ls[0]
      && a == ls[0].raw + Concat(Raw(ls[1..n]))
  {
    var ls := sc.Lexemes(a + b);
    assert Raw(ls[..n])[1..] == Raw(ls[1..n]);
    assert ls[0] == ls[..n][0];
  }

  lemma CommentThenSpace(sc: Scanner, l: Lexeme, w: string, b: string)
    requires AllSpace(w) && l.raw != "" && l.kind == CommentText && sc.NextLexeme(l.raw + b) == l
    ensures Kept(sc.Lexemes(l.raw + w + b)) == Kept(sc.Lexemes(l.raw + b))
  {
    var m := LineLength(w);
    assert w[..m] + w[m..] == w;
    Assoc(l.raw, w[..m], w[m..]);
    Assoc(l.raw + w[..m], w[m..], b);
    CommentThenLine(sc, l, w[..m], w[m..], b);
  }

  /** The comment swallows the inserted space up to the first line end in it. */
  lemma CommentThenLine(sc: Scanner, l: Lexeme, w: string, line: string, b: string)
    requires AllSpace(w) && AllSpace(line) && '\n' !in w && (line != "" ==> line[0] == '\n')
    requires l.raw != "" && l.kind == CommentText && sc.NextLexeme(l.raw + b) == l
    ensures Kept(sc.Lexemes(l.raw + w + (line + b))) == Kept(sc.Lexemes(l.raw + b))
  {
    var longer := Lexeme(CommentText, l.raw + w);
    assert line == "" ==> line + b == b;
    CommentStops(sc, l, w, b, line + b);
    LexemesStep(sc, longer, line + b);
    LexemesStep(sc, l, b);
    TidyCommentTail(l.raw, w);
    LeadingSpaceIsSkipped(sc, line, b);
  }

  lemma CommentStops(sc: Scanner, l: Lexeme, more: string, b: string, tail: string)
    requires l.raw != "" && l.kind == CommentText && sc.NextLexeme(l.raw + b) == l && '\n' !in more
    requires tail != "" ==> tail[0] == '\n' || tail == b
    ensures l.raw[0] == '#' && sc.NextLexeme(l.raw + more + tail) == Lexeme(CommentText, l.raw + more)
  {
    var s := l.raw + b;
    assert s[0] == l.raw[0] == '#' && l.raw == s[..LineLength(s)];
    assert b != "" ==> s[|l.raw|] == b[0];
    LineLengthWhole(l.raw + more, tail);
    assert (l.raw + more + tail)[0] == '#';
  }

  /** Layout invariance of the whole normal form. */
  lemma LayoutInvariant(sc: Scanner, n: nat, a: string, w: string, b: string)
    requires sc.Valid() && AllSpace(w)
    requires n <= |sc.Lexemes(a + b)| && Concat(Raw(sc.Lexemes(a + b)[..n])) == a
    requires forall l <- sc.Lexemes(a + b)[..n] :: l.kind != Literal(false)
    ensures LexicalText(sc, a + w + b) == LexicalText(sc, a + b)
  {
    InsertSpace(sc, n, a, w, b);
    SameKeptSameText(sc, a + w + b, a + b);
  }

  lemma SameKeptSameText(sc: Scanner, s: string, t: string)
    requires Kept(sc.Lexemes(s)) == Kept(sc.Lexemes(t))
    ensures LexicalText(sc, s) == LexicalText(sc, t)
  {
    var ls := Kept(sc.Lexemes(s));
    assert seq(|ls|, i requires 0 <= i < |ls| => Render(sc, ls[i]))
      == seq(|ls|, i requires 0 <= i < |ls| => Render(sc, ls[i]));
  }

  // ----- a text of one character -----

  lemma {:induction false} NoOperatorSoShort(s: string, operators: seq<string>)
    requires |s| == 1 && forall op :: op in operators ==> |op| >= 2
    ensures FirstOperator(s, operators).None?
  {
    if operators != [] {
      assert operators[0] in operators;
      NoOperatorSoShort(s, operators[1..]);
    }
  }

  lemma NoLiteralSoShort(s: string)
    requires |s| == 1 && !IsQuote(s[0])
    ensures LiteralSpan(s).None?
  {}

  lemma OperatorsAreLonger()
    ensures forall op :: op in OPERATORS ==> |op| >= 2
  {}

  /** A visible character that opens nothing is a lexeme of its own. */
  lemma LoneCharacter(sc: Scanner, c: char)
    requires !IsSpace(c) && c != '#' && !IsQuote(c)
    ensures sc.Lexemes([c]) == Kept(sc.Lexemes([c])) == [Lexeme(Plain, [c])]
  {
    hide IsSpace, LiteralSpan, FirstOperator;
    var s := [c];
    OperatorsAreLonger();
    NoOperatorSoShort(s, OPERATORS);
    NoLiteralSoShort(s);
    assert s[..1] == s && s[1..] == "" && s + "" == s;
    assert sc.NextLexeme(s) == Lexeme(Plain, s);
    LexemesStep(sc, Lexeme(Plain, s), "");
  }

  lemma LoneCharacterText(sc: Scanner, c: char)
    requires !IsSpace(c) && c != '#' && !IsQuote(c)
    ensures LexicalText(sc, [c]) == [c]
  {
    hide LexicalText, Scanner.Lexemes, IsQuote;
    var s := [c];
    LoneCharacter(sc, c);
    LexicalTextIsRendered(sc, s);
    var parts := RenderedAll(sc, [Lexeme(Plain, s)]);
    assert parts == [s];
    assert NonEmpty(parts) == [s] by { assert parts[1..] == [] && NonEmpty([]) == [] && [s] + [] == [s]; }
    StripVisible(s);
  }

  // ----- a text that is one token -----

  /** A name, number or operator of one character, and then only layout. */
  predicate OneToken(t: Tokenization) {
    && !t.failed && t.tokens != []
    && (t.tokens[0] == Token(OtherToken, 0, 1) || t.tokens[0] == Token(OperatorToken, 0, 1))
    && forall i :: 1 <= i < |t.tokens| ==> t.tokens[i].kind == LayoutToken
  }

  /** Either the lexer takes the text, or the tokenizer finds nothing but its first character. */
  predicate FirstCharacterOnly(sc: Scanner, text: string) {
    NeedsLexer(text, sc.tokenize(text)) || OneToken(sc.tokenize(text))
  }

  lemma {:induction false} OnlyLayout(text: string, tokens: seq<Token>, start: nat)
    requires forall i :: 0 <= i < |tokens| ==> tokens[i].kind == LayoutToken
    ensures StreamLexemes(text, tokens, 0, start) == [] && OperatorTexts(text, tokens) == []
  {
    if tokens != [] {
      OnlyLayout(text, tokens[1..], start);
    }
  }

  lemma OneTokenLexeme(text: string, t: Tokenization)
    requires OneToken(t) && text != ""
    ensures StreamLexemes(text, t.tokens, 0, 0) == [Lexeme(Plain, text[..1])]
  {
    OnlyLayout(text, t.tokens[1..], 0);
    assert Slice(text, 0, 1) == text[..1];
  }

  /** The tokens Python gives for a name are complete: the lexer is not asked. */
  lemma NameIsComplete(text: string, t: Tokenization)
    requires OneToken(t) && t.tokens[0].kind == OtherToken
    ensures !NeedsLexer(text, t)
  {
    OnlyLayout(text, t.tokens[1..], 0);
    assert OperatorTexts(text, t.tokens) == [];
    assert forall token <- t.tokens :: token.kind != ErrorToken;
  }

  lemma OneTokenText(sc: Scanner, text: string, t: Tokenization)
    requires OneToken(t) && text != "" && !IsSpace(text[0])
    ensures StreamText(sc, text, t.tokens) == text[..1]
  {
    OneTokenLexeme(text, t);
    hide StreamLexemes;
    var c := text[..1];
    var ls := StreamLexemes(text, t.tokens, 0, 0);
    assert seq(|ls|, i requires 0 <= i < |ls| => Render(sc, ls[i])) == [c];
    StripVisible(c);
  }

  /** A character that opens nothing is its own normal form, whichever way it is read. */
  lemma LoneCharacterForm(sc: Scanner, c: char)
    requires !IsSpace(c) && c != '#' && !IsQuote(c) && FirstCharacterOnly(sc, [c])
    ensures NormaliseFragment(sc, [c]) == [c]
  {
    LoneCharacterText(sc, c);
    var s := [c];
    assert UnifyNewlines(s) == s by { assert s[1..] == "" && [c] + "" == s && IsSpace('\r'); }
    if !NeedsLexer(s, sc.tokenize(s)) {
      OneTokenText(sc, s, sc.tokenize(s));
      assert s[..1] == s;
    }
    hide LexicalText, StreamText, UnifyNewlines, NeedsLexer;
    assert NormaliseFragment(sc, s) == [c];
  }
}
