/**
 Re-spacing a source fragment (scripts/check_duplicate_code_ratchet.py): text put between two lexemes,
 or between two tokens of the standard tokenizer, leaves the normal form as it was.
 */
module FragmentSpacing {
  import opened Text
  import opened Brackets
  import opened FragmentScanner
  import opened FragmentNormaliser
  import opened FragmentLayout
  import opened FStringTokens

  // ----- which texts the lexer reads -----

  /** The standard tokenizer's result can be used: complete, free of errors, and properly nested. */
  ghost predicate Usable(text: string, t: Tokenization) {
    && !t.failed && t.tokens != []
    && (forall i :: 0 <= i < |t.tokens| ==> t.tokens[i].kind != ErrorToken)
    && Nested(OperatorTexts(text, t.tokens))
  }

  lemma LexerReadsTheRest(text: string, t: Tokenization)
    ensures NeedsLexer(text, t) <==> !Usable(text, t)
  {
    hide OperatorTexts, Unclosed, Nested;
    var ops := OperatorTexts(text, t.tokens);
    ClosedIffNested(ops);
    if exists token <- t.tokens :: token.kind == ErrorToken {
      var i :| 0 <= i < |t.tokens| && t.tokens[i].kind == ErrorToken;
    } else {
      assert forall i :: 0 <= i < |t.tokens| ==> t.tokens[i] in t.tokens;
    }
  }

  // ----- streams of tokens -----

  /** The tokens that are not layout. */
  ghost function Visible(tokens: seq<Token>): seq<Token> {
    if tokens == [] then []
    else (if tokens[0].kind == LayoutToken then [] else [tokens[0]]) + Visible(tokens[1..])
  }

  ghost function Later(tokens: seq<Token>, n: nat): (r: seq<Token>)
    ensures |r| == |tokens|
    ensures forall i :: 0 <= i < |r| ==> r[i] == Token(tokens[i].kind, tokens[i].start + n, tokens[i].end + n)
  {
    seq(|tokens|, i requires 0 <= i < |tokens| =>
      Token(tokens[i].kind, tokens[i].start + n, tokens[i].end + n))
  }

  lemma VisibleCons(token: Token, rest: seq<Token>)
    ensures Visible([token] + rest) == if token.kind == LayoutToken then Visible(rest) else [token] + Visible(rest)
  {
    assert ([token] + rest)[1..] == rest;
    assert [] + Visible(rest) == Visible(rest);
  }

  /** Layout tokens add nothing, inside an f-string or outside. */
  lemma {:induction false} LayoutIsDropped(text: string, tokens: seq<Token>, depth: nat, start: nat)
    ensures StreamLexemes(text, tokens, depth, start) == StreamLexemes(text, Visible(tokens), depth, start)
    ensures OperatorTexts(text, tokens) == OperatorTexts(text, Visible(tokens))
  {
    hide Slice, Tidy;
    if tokens != [] {
      var token, rest := tokens[0], tokens[1..];
      VisibleCons(token, rest);
      assert [token] + rest == tokens;
      assert ([token] + Visible(rest))[1..] == Visible(rest);
      LayoutIsDropped(text, rest, depth, start);
      LayoutIsDropped(text, rest, depth + 1, if depth == 0 then token.start else start);
      if depth > 0 {
        LayoutIsDropped(text, rest, depth - 1, start);
      }
    }
  }

  lemma {:induction false} VisibleKinds(tokens: seq<Token>)
    ensures (exists token <- tokens :: token.kind == ErrorToken) <==>
      exists token <- Visible(tokens) :: token.kind == ErrorToken
  {
    if tokens != [] {
      VisibleKinds(tokens[1..]);
      assert tokens == [tokens[0]] + tokens[1..];
    }
  }

  /** Everything that ends by `at` reads alike in both texts. */
  ghost predicate AlikeUpTo(s: string, t: string, at: nat) {
    forall start: nat, end: nat :: end <= at ==> Slice(s, start, end) == Slice(t, start, end)
  }

  /** Everything that starts from `at` on reads alike, `n` further on in the second text. */
  ghost predicate AlikeFrom(s: string, t: string, at: nat, n: nat) {
    forall start: nat, end: nat :: start >= at ==> Slice(s, start, end) == Slice(t, start + n, end + n)
  }

  /** Tokens that end before the inserted text cover what they covered. */
  lemma {:induction false} BeforeInsertion(s: string, t: string, at: nat, tokens: seq<Token>, depth: nat, start: nat)
    requires AlikeUpTo(s, t, at) && forall i :: 0 <= i < |tokens| ==> tokens[i].end <= at
    ensures StreamLexemes(s, tokens, depth, start) == StreamLexemes(t, tokens, depth, start)
    ensures OperatorTexts(s, tokens) == OperatorTexts(t, tokens)
  {
    if tokens != [] {
      var token, rest := tokens[0], tokens[1..];
      assert Slice(s, token.start, token.end) == Slice(t, token.start, token.end);
      assert Slice(s, start, token.end) == Slice(t, start, token.end);
      hide Slice, Tidy, AlikeUpTo;
      BeforeInsertion(s, t, at, rest, depth, start);
      BeforeInsertion(s, t, at, rest, depth + 1, if depth == 0 then token.start else start);
      if depth > 0 {
        BeforeInsertion(s, t, at, rest, depth - 1, start);
      }
    }
  }

  /** What one token adds to the stream. */
  ghost function Added(text: string, token: Token, depth: nat, start: nat): seq<Lexeme> {
    if token.kind == FStringEnd && depth > 0 then
      if depth == 1 then [Lexeme(Literal(true), Slice(text, start, token.end))] else []
    else if token.kind == FStringStart || token.kind == LayoutToken || depth > 0 then []
    else
      var kind := match token.kind
        case CommentToken => CommentText
        case StringToken => Literal(true)
        case _ => Plain;
      [Tidy(Lexeme(kind, Slice(text, token.start, token.end)))]
  }

  ghost function DepthAfter(token: Token, depth: nat): nat {
    if token.kind == FStringStart then depth + 1
    else if token.kind == FStringEnd && depth > 0 then depth - 1
    else depth
  }

  ghost function StartAfter(token: Token, depth: nat, start: nat): nat {
    if token.kind == FStringStart && depth == 0 then token.start else start
  }

  lemma StreamStep(text: string, token: Token, rest: seq<Token>, depth: nat, start: nat)
    ensures StreamLexemes(text, [token] + rest, depth, start) ==
      Added(text, token, depth, start)
      + StreamLexemes(text, rest, DepthAfter(token, depth), StartAfter(token, depth, start))
  {
    hide Slice, Tidy;
    assert ([token] + rest)[1..] == rest;
    var tail := StreamLexemes(text, rest, DepthAfter(token, depth), StartAfter(token, depth, start));
    assert [] + tail == tail;
  }

  lemma AddedMoves(s: string, t: string, at: nat, n: nat, token: Token, depth: nat, start: nat)
    requires AlikeFrom(s, t, at, n) && token.start >= at && (depth > 0 ==> start >= at)
    ensures Added(s, token, depth, start)
      == Added(t, Token(token.kind, token.start + n, token.end + n), depth, start + n)
  {
    hide Slice, Tidy;
    if depth > 0 {
      assert Slice(s, start, token.end) == Slice(t, start + n, token.end + n);
    } else {
      assert Slice(s, token.start, token.end) == Slice(t, token.start + n, token.end + n);
    }
  }

  /** Tokens that start after the inserted text are moved with what they cover. */
  lemma {:induction false} AfterInsertion(
      s: string, t: string, at: nat, n: nat, tokens: seq<Token>, depth: nat, start: nat)
    requires AlikeFrom(s, t, at, n) && forall i :: 0 <= i < |tokens| ==> tokens[i].start >= at
    requires depth > 0 ==> start >= at
    ensures StreamLexemes(s, tokens, depth, start) == StreamLexemes(t, Later(tokens, n), depth, start + n)
  {
    hide *;
    if tokens == [] {
      NoLexemes(s, depth, start);
      NoLexemes(t, depth, start + n);
      assert Later(tokens, n) == [];
    } else {
      var token, rest := tokens[0], tokens[1..];
      var moved := Token(token.kind, token.start + n, token.end + n);
      assert [token] + rest == tokens && token.start >= at;
      assert forall i :: 0 <= i < |rest| ==> rest[i] == tokens[i + 1];
      ReaderMoves(token, depth, start, at, n);
      AfterInsertion(s, t, at, n, rest, DepthAfter(token, depth), StartAfter(token, depth, start));
      LaterCons(token, rest, n);
      StreamStep(s, token, rest, depth, start);
      StreamStep(t, moved, Later(rest, n), depth, start + n);
      AddedMoves(s, t, at, n, token, depth, start);
    }
  }

  lemma NoLexemes(text: string, depth: nat, start: nat)
    ensures StreamLexemes(text, [], depth, start) == []
  {}

  lemma ReaderMoves(token: Token, depth: nat, start: nat, at: nat, n: nat)
    requires token.start >= at && (depth > 0 ==> start >= at)
    ensures var moved := Token(token.kind, token.start + n, token.end + n);
      && DepthAfter(moved, depth) == DepthAfter(token, depth)
      && StartAfter(moved, depth, start + n) == StartAfter(token, depth, start) + n
    ensures DepthAfter(token, depth) > 0 ==> StartAfter(token, depth, start) >= at
  {}

  lemma {:induction false} OperatorsAfterInsertion(s: string, t: string, at: nat, n: nat, tokens: seq<Token>)
    requires AlikeFrom(s, t, at, n) && forall i :: 0 <= i < |tokens| ==> tokens[i].start >= at
    ensures OperatorTexts(s, tokens) == OperatorTexts(t, Later(tokens, n))
  {
    hide *;
    if tokens == [] {
      NoOperators(s);
      NoOperators(t);
      assert Later(tokens, n) == [];
    } else {
      var token, rest := tokens[0], tokens[1..];
      assert [token] + rest == tokens && token.start >= at;
      assert forall i :: 0 <= i < |rest| ==> rest[i] == tokens[i + 1];
      AlikeAt(s, t, at, n, token.start, token.end);
      LaterCons(token, rest, n);
      OperatorsAfterInsertion(s, t, at, n, rest);
      OperatorStep(s, token, rest);
      OperatorStep(t, Token(token.kind, token.start + n, token.end + n), Later(rest, n));
    }
  }

  lemma NoOperators(text: string)
    ensures OperatorTexts(text, []) == []
  {}

  lemma OperatorStep(text: string, token: Token, rest: seq<Token>)
    ensures OperatorTexts(text, [token] + rest) ==
      (if token.kind == OperatorToken then [Slice(text, token.start, token.end)] else []) + OperatorTexts(text, rest)
  {
    hide Slice;
    assert ([token] + rest)[1..] == rest;
  }

  lemma AlikeAt(s: string, t: string, at: nat, n: nat, start: nat, end: nat)
    requires AlikeFrom(s, t, at, n) && start >= at
    ensures Slice(s, start, end) == Slice(t, start + n, end + n)
  {
    hide Slice;
  }

  lemma LaterCons(token: Token, rest: seq<Token>, n: nat)
    ensures Later([token] + rest, n) == [Token(token.kind, token.start + n, token.end + n)] + Later(rest, n)
  {}

  lemma AlikeAround(a: string, w: string, b: string)
    ensures AlikeUpTo(a + b, a + w + b, |a|) && AlikeFrom(a + b, a + w + b, |a|, |w|)
  {
    hide Slice;
    forall start: nat, end: nat | end <= |a| ensures Slice(a + b, start, end) == Slice(a + w + b, start, end) {
      SliceBefore(a, w, b, start, end);
    }
    forall start: nat, end: nat | start >= |a|
      ensures Slice(a + b, start, end) == Slice(a + w + b, start + |w|, end + |w|)
    {
      SliceAfter(a, w, b, start, end);
    }
  }

  lemma SliceBefore(a: string, w: string, b: string, start: nat, end: nat)
    requires end <= |a|
    ensures Slice(a + b, start, end) == Slice(a + w + b, start, end)
  {
    if start < end {
      assert (a + b)[start..end] == a[start..end];
      assert (a + w + b)[start..end] == a[start..end];
    }
  }

  lemma SliceAfter(a: string, w: string, b: string, start: nat, end: nat)
    requires start >= |a|
    ensures Slice(a + b, start, end) == Slice(a + w + b, start + |w|, end + |w|)
  {
    var hi := if end < |a + b| then end else |a + b|;
    if start < hi {
      assert (a + b)[start..hi] == b[start - |a|..hi - |a|];
      assert (a + w + b)[start + |w|..hi + |w|] == b[start - |a|..hi - |a|];
    }
  }

  /**
   The tokens of the two texts correspond: apart from layout, the same tokens, those from the insertion
   on moved by its length, and it lies inside no token and no f-string.
   */
  ghost predicate SameTokens(a: string, w: string, b: string, t: Tokenization, u: Tokenization) {
    && !u.failed && u.tokens != []
    && exists before, after :: Around(a, w, t.tokens, u.tokens, before, after)
  }

  ghost predicate Around(
      a: string, w: string, tokens: seq<Token>, moved: seq<Token>, before: seq<Token>, after: seq<Token>)
  {
    && Visible(tokens) == before + after && Visible(moved) == before + Later(after, |w|)
    && Enclosed(before, 0)
    && (forall i :: 0 <= i < |before| ==> before[i].end <= |a|)
    && (forall i :: 0 <= i < |after| ==> after[i].start >= |a|)
  }

  lemma OperatorsApart(text: string, before: seq<Token>, after: seq<Token>)
    ensures OperatorTexts(text, before + after) == OperatorTexts(text, before) + OperatorTexts(text, after)
  {
    hide Slice;
    if before == [] {
      assert before + after == after;
    } else {
      assert (before + after)[1..] == before[1..] + after;
      OperatorsApart(text, before[1..], after);
    }
  }

  lemma SameStream(
      a: string, w: string, b: string, tokens: seq<Token>, moved: seq<Token>, before: seq<Token>, after: seq<Token>)
    requires Around(a, w, tokens, moved, before, after)
    ensures StreamLexemes(a + b, tokens, 0, 0) == StreamLexemes(a + w + b, moved, 0, 0)
  {
    hide StreamLexemes, OperatorTexts, Visible, Enclosed, Later, AlikeUpTo, AlikeFrom, Slice;
    AlikeAround(a, w, b);
    var s, t, later := a + b, a + w + b, Later(after, |w|);
    LayoutIsDropped(s, tokens, 0, 0);
    LayoutIsDropped(t, moved, 0, 0);
    ReadsApart(s, before, after, 0, 0);
    ReadsApart(t, before, later, 0, 0);
    BeforeInsertion(s, t, |a|, before, 0, 0);
    AfterInsertion(s, t, |a|, |w|, after, 0, 0);
    StartIsForgotten(t, later, |w|, 0);
  }

  lemma SameOperators(
      a: string, w: string, b: string, tokens: seq<Token>, moved: seq<Token>, before: seq<Token>, after: seq<Token>)
    requires Around(a, w, tokens, moved, before, after)
    ensures OperatorTexts(a + b, tokens) == OperatorTexts(a + w + b, moved)
  {
    AlikeAround(a, w, b);
    var s, t, later := a + b, a + w + b, Later(after, |w|);
    hide OperatorTexts, StreamLexemes, Visible, Enclosed, Later, AlikeUpTo, AlikeFrom;
    LayoutIsDropped(s, tokens, 0, 0);
    LayoutIsDropped(t, moved, 0, 0);
    OperatorsApart(s, before, after);
    OperatorsApart(t, before, later);
    BeforeInsertion(s, t, |a|, before, 0, 0);
    OperatorsAfterInsertion(s, t, |a|, |w|, after);
  }

  lemma SameKinds(a: string, w: string, tokens: seq<Token>, moved: seq<Token>)
    requires exists before, after :: Around(a, w, tokens, moved, before, after)
    ensures (exists token <- tokens :: token.kind == ErrorToken) <==>
      exists token <- moved :: token.kind == ErrorToken
  {
    VisibleKinds(tokens);
    VisibleKinds(moved);
    var before: seq<Token>, after: seq<Token> :| Around(a, w, tokens, moved, before, after);
    hide Visible;
    assert forall i :: 0 <= i < |after| ==> Later(after, |w|)[i].kind == after[i].kind;
    if token :| token in after && token.kind == ErrorToken {
      var i :| 0 <= i < |after| && after[i] == token;
      assert Later(after, |w|)[i] in Later(after, |w|);
    }
    if token :| token in Later(after, |w|) && token.kind == ErrorToken {
      var i :| 0 <= i < |after| && Later(after, |w|)[i] == token;
      assert after[i] in after;
    }
  }

  /** Text between two tokens changes nothing the tokenizer's stream keeps. */
  lemma StreamLayoutInvariant(sc: Scanner, a: string, w: string, b: string, t: Tokenization, u: Tokenization)
    requires !NeedsLexer(a + b, t) && SameTokens(a, w, b, t, u)
    ensures !NeedsLexer(a + w + b, u)
    ensures StreamText(sc, a + w + b, u.tokens) == StreamText(sc, a + b, t.tokens)
  {
    var before, after :| Around(a, w, t.tokens, u.tokens, before, after);
    SameStream(a, w, b, t.tokens, u.tokens, before, after);
    SameOperators(a, w, b, t.tokens, u.tokens, before, after);
    SameKinds(a, w, t.tokens, u.tokens);
    hide StreamLexemes, OperatorTexts, Render, SameTokens;
    var ls := StreamLexemes(a + b, t.tokens, 0, 0);
    assert seq(|ls|, i requires 0 <= i < |ls| => Render(sc, ls[i]))
      == seq(|ls|, i requires 0 <= i < |ls| => Render(sc, ls[i]));
  }

  // ----- re-spaced fragments -----

  /** `w` is put between two lexemes of a text the lexer reads, before and after. */
  ghost predicate LexedApart(sc: Scanner, a: string, w: string, b: string) {
    && NeedsLexer(a + b, sc.tokenize(a + b)) && NeedsLexer(a + w + b, sc.tokenize(a + w + b))
    && AllSpace(w)
    && exists n :: EndsLexeme(sc, n, a, b)
  }

  /** `a` is the first lexemes of the text, none of them an unterminated literal. */
  ghost predicate EndsLexeme(sc: Scanner, n: nat, a: string, b: string) {
    && n <= |sc.Lexemes(a + b)| && Concat(Raw(sc.Lexemes(a + b)[..n])) == a
    && forall l <- sc.Lexemes(a + b)[..n] :: l.kind != Literal(false)
  }

  /** `w` is put between two tokens of a text that tokenizes. */
  ghost predicate TokenizedApart(sc: Scanner, a: string, w: string, b: string) {
    && !NeedsLexer(a + b, sc.tokenize(a + b))
    && SameTokens(a, w, b, sc.tokenize(a + b), sc.tokenize(a + w + b))
  }

  /** `y` is `x` with space put in at one place. */
  ghost predicate Spaced(sc: Scanner, x: string, y: string) {
    exists a, w, b :: UnifyNewlines(x) == a + b && UnifyNewlines(y) == a + w + b
      && (LexedApart(sc, a, w, b) || TokenizedApart(sc, a, w, b))
  }

  /** Step by step, space is put in or taken out, or line ends are written another way. */
  ghost predicate Respaced(sc: Scanner, texts: seq<string>) {
    texts != [] && forall i :: 0 < i < |texts| ==>
      || Spaced(sc, texts[i - 1], texts[i]) || Spaced(sc, texts[i], texts[i - 1])
      || UnifyNewlines(texts[i - 1]) == UnifyNewlines(texts[i])
  }

  lemma SpacedForm(sc: Scanner, x: string, y: string)
    requires sc.Valid() && Spaced(sc, x, y)
    ensures NormaliseFragment(sc, x) == NormaliseFragment(sc, y)
  {
    hide UnifyNewlines, NeedsLexer, LexicalText, StreamText, Scanner.Lexemes, SameTokens, Scanner.Valid;
    var a, w, b :| UnifyNewlines(x) == a + b && UnifyNewlines(y) == a + w + b
      && (LexedApart(sc, a, w, b) || TokenizedApart(sc, a, w, b));
    if LexedApart(sc, a, w, b) {
      var n: nat :| EndsLexeme(sc, n, a, b);
      LayoutInvariant(sc, n, a, w, b);
    } else {
      var t, u := sc.tokenize(a + b), sc.tokenize(a + w + b);
      assert TokenizedApart(sc, a, w, b);
      assert !NeedsLexer(a + b, t);
      assert SameTokens(a, w, b, t, u);
      StreamLayoutInvariant(sc, a, w, b, t, u);
    }
  }

  lemma SameLinesSameForm(sc: Scanner, x: string, y: string)
    requires UnifyNewlines(x) == UnifyNewlines(y)
    ensures NormaliseFragment(sc, x) == NormaliseFragment(sc, y)
  {
    hide UnifyNewlines, NeedsLexer, LexicalText, StreamText;
  }

  /** However a fragment is re-spaced, its normal form stays. */
  lemma {:induction false} RespacedForm(sc: Scanner, texts: seq<string>)
    requires sc.Valid() && Respaced(sc, texts)
    ensures NormaliseFragment(sc, texts[0]) == NormaliseFragment(sc, texts[|texts| - 1])
  {
    hide NormaliseFragment, Spaced, UnifyNewlines, Scanner.Valid;
    if |texts| > 1 {
      var x, y := texts[|texts| - 2], texts[|texts| - 1];
      RespacedForm(sc, texts[..|texts| - 1]);
      if Spaced(sc, x, y) {
        SpacedForm(sc, x, y);
      } else if Spaced(sc, y, x) {
        SpacedForm(sc, y, x);
      } else {
        SameLinesSameForm(sc, x, y);
      }
    }
  }

  // ----- line ends -----

  /** Texts split where no `\r\n` is cut are unified part by part. */
  lemma {:induction false} LinesApart(s: string, t: string)
    requires !(s != "" && s[|s| - 1] == '\r' && t != "" && t[0] == '\n')
    ensures UnifyNewlines(s + t) == UnifyNewlines(s) + UnifyNewlines(t)
    decreases |s|
  {
    if s == "" {
      assert s + t == t;
    } else {
      UnifyStep(s);
      UnifyStep(s + t);
      hide UnifyNewlines;
      if |s| > 1 && s[0] == '\r' && s[1] == '\n' {
        assert (s + t)[2..] == s[2..] + t;
        LinesApart(s[2..], t);
        Assoc("\n", UnifyNewlines(s[2..]), UnifyNewlines(t));
      } else {
        assert (s + t)[1..] == s[1..] + t;
        LinesApart(s[1..], t);
        Assoc([if s[0] == '\r' then '\n' else s[0]], UnifyNewlines(s[1..]), UnifyNewlines(t));
      }
    }
  }

  lemma UnifyStep(s: string)
    requires s != ""
    ensures UnifyNewlines(s) ==
      if |s| > 1 && s[0] == '\r' && s[1] == '\n' then "\n" + UnifyNewlines(s[2..])
      else [if s[0] == '\r' then '\n' else s[0]] + UnifyNewlines(s[1..])
  {}

  lemma {:induction false} PlainLines(s: string)
    requires '\r' !in s
    ensures UnifyNewlines(s) == s
  {
    if s != "" {
      PlainLines(s[1..]);
      assert s == [s[0]] + s[1..];
    }
  }

  /** A text without `\r` reads the same whichever of the three line ends its lines have. */
  lemma LineEndsAreOne(line: string, rest: string)
    requires '\r' !in line && (rest != "" ==> rest[0] != '\n')
    ensures UnifyNewlines(line + "\r\n" + rest) == line + "\n" + UnifyNewlines(rest)
    ensures UnifyNewlines(line + "\r" + rest) == line + "\n" + UnifyNewlines(rest)
    ensures UnifyNewlines(line + "\n" + rest) == line + "\n" + UnifyNewlines(rest)
  {
    PlainLines(line);
    assert UnifyNewlines("\r\n") == "\n" by { assert "\r\n"[2..] == ""; }
    assert UnifyNewlines("\r") == "\n" == UnifyNewlines("\n") by { assert "\r"[1..] == "" == "\n"[1..]; }
    LinesApart(line, "\r\n");
    LinesApart(line, "\r");
    LinesApart(line, "\n");
    LinesApart(line + "\r\n", rest);
    LinesApart(line + "\r", rest);
    LinesApart(line + "\n", rest);
  }
}
