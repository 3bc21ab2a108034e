/** What normalising an f-string preserves (scripts/check_duplicate_code_ratchet.py). */
module FStringLaws {
  import opened Wrappers
  import opened Text
  import opened FragmentScanner
  import opened FragmentNormaliser
  import opened FragmentSqueeze
  import opened FragmentLayout
  import opened FragmentNormalForm

  ghost function PartTexts(parts: seq<Part>): seq<string> {
    seq(|parts|, i requires 0 <= i < |parts| => PartText(parts[i]))
  }

  lemma PartTextsCons(p: Part, rest: seq<Part>)
    ensures PartTexts([p] + rest) == [PartText(p)] + PartTexts(rest)
    ensures Concat(PartTexts([p] + rest)) == PartText(p) + Concat(PartTexts(rest))
  {
    assert forall i :: 1 <= i <= |rest| ==> ([p] + rest)[i] == rest[i - 1];
    assert PartTexts([p] + rest) == [PartText(p)] + PartTexts(rest);
  }

  lemma FirstPartText(s: string)
    requires s != ""
    ensures PartText(FirstPart(s).0) == s[..FirstPart(s).1]
  {
    hide FieldEnd;
    if s[0] == '{' && !("{{" <= s) && FieldEnd(s[1..], 0).Some? {
      var n := FieldEnd(s[1..], 0).value;
      assert s[1..][n] == s[n + 1] == '}';
      assert s[..n + 2] == "{" + s[1..1 + n] + "}";
    }
  }

  /** The parts of an f-string body tile it: no character is lost or moved. */
  lemma {:induction false} PartsTile(body: string)
    ensures Concat(PartTexts(Parts(body))) == body
    decreases |body|
  {
    if body != "" {
      hide FirstPart, PartText, PartTexts;
      FirstPartText(body);
      var part, n := FirstPart(body).0, FirstPart(body).1;
      PartsTile(body[n..]);
      hide Concat;
      PartTextsCons(part, Parts(body[n..]));
      assert body[..n] + body[n..] == body;
    }
  }

  /** A body without replacement fields is kept as it is. */
  lemma NoFieldsNoChange(sc: Scanner, body: string)
    requires forall p <- Parts(body) :: p.Verbatim?
    ensures NormaliseBody(sc, body) == body
  {
    hide NormaliseExpression, Parts;
    PartsTile(body);
    var parts := Parts(body);
    forall i | 0 <= i < |parts| ensures parts[i].Verbatim? {
      assert parts[i] in parts;
    }
    assert seq(|parts|, i requires 0 <= i < |parts| =>
      if parts[i].Field? then "{" + NormaliseExpression(sc, parts[i].expression) + "}" else parts[i].raw)
      == PartTexts(parts);
  }

  /**
   The two delimiters and the body make up the literal exactly when the delimiters do not overlap.
   An f-string that is nothing but its opening delimiter passes the closing test with the same
   characters, and is given a second delimiter.
   */
  lemma ShapeSplits(literal: string)
    requires Shape(literal).FString?
    ensures var FString(open, body, close) := Shape(literal);
      literal == open + body + close <==> |open| + |close| <= |literal|
  {
    hide PrefixRun, Delimiter;
    var FString(open, body, close) := Shape(literal);
    assert close == literal[|literal| - |close|..];
    if |open| + |close| <= |literal| {
      assert body == literal[|open|..|literal| - |close|];
      assert literal == literal[..|open|] + literal[|open|..|literal| - |close|] + literal[|literal| - |close|..];
    }
  }

  /** The smallest literal whose delimiters overlap. */
  lemma OverlappingDelimiters(sc: Scanner)
    ensures NormaliseLiteral(sc, "f'") == "f''"
  {
    var literal := "f'";
    assert literal[1..] == "'" && literal[..2] == literal && literal[..1] == "f";
    assert PrefixRun("'") == 0 && PrefixRun(literal) == 1;
    assert Shape(literal) == FString("f'", "", "'");
    assert NormaliseBody(sc, "") == "";
  }

  /** An f-string with separate delimiters and no fields is its own normal form. */
  lemma FieldFreeLiteral(sc: Scanner, literal: string)
    requires Shape(literal).FString? && forall p <- Parts(Shape(literal).body) :: p.Verbatim?
    ensures NormaliseLiteral(sc, literal) == literal
      <==> |Shape(literal).open| + |Shape(literal).close| <= |literal|
  {
    ShapeSplits(literal);
    NoFieldsNoChange(sc, Shape(literal).body);
  }

  // ----- the text of a field -----

  /** A place in a field's text that is code: outside every string literal, at a bracket depth. */
  datatype Place = Place(index: nat, depth: nat)

  /** The code places from `index` on; closing brackets too many leave the depth at zero. */
  ghost function CodePlaces(e: string, index: nat, depth: nat): (r: seq<Place>)
    requires index <= |e|
    ensures forall i :: 0 <= i < |r| ==> index <= r[i].index < |e|
    decreases |e| - index
  {
    if index == |e| then []
    else if LiteralSpan(e[index..]).Some? then CodePlaces(e, index + LiteralSpan(e[index..]).value.length, depth)
    else [Place(index, depth)] + CodePlaces(e, index + 1, DepthAfter(e[index], depth))
  }

  function DepthAfter(c: char, depth: nat): nat {
    if c in "([{" then depth + 1 else if c in ")]}" && depth > 0 then depth - 1 else depth
  }

  /** The place ends the expression: at depth 0, and a conversion, format or debug suffix starts there. */
  ghost predicate EndsExpression(e: string, p: Place)
    requires p.index < |e|
  {
    p.depth == 0 && IsBoundary(e, p.index)
  }

  lemma BracketIsNoBoundary(e: string, index: nat)
    requires index < |e| && (e[index] in "([{" || e[index] in ")]}")
    ensures !IsBoundary(e, index)
  {}

  /** `b` is the first place that ends the expression, or there is none. */
  ghost predicate FirstEnding(e: string, places: seq<Place>, b: Option<nat>)
    requires forall i :: 0 <= i < |places| ==> places[i].index < |e|
  {
    match b
    case None => forall i :: 0 <= i < |places| ==> !EndsExpression(e, places[i])
    case Some(b) =>
      exists k :: 0 <= k < |places| && places[k] == Place(b, 0) && EndsExpression(e, places[k])
        && forall i :: 0 <= i < k ==> !EndsExpression(e, places[i])
  }

  /** A first ending among the rest is the first of all, after a place that is none. */
  lemma EndingOfRest(e: string, p: Place, rest: seq<Place>, b: Option<nat>)
    requires p.index < |e| && forall i :: 0 <= i < |rest| ==> rest[i].index < |e|
    requires !EndsExpression(e, p) && FirstEnding(e, rest, b)
    ensures forall i :: 0 <= i < |[p] + rest| ==> ([p] + rest)[i].index < |e|
    ensures FirstEnding(e, [p] + rest, b)
  {
    hide EndsExpression;
    var all := [p] + rest;
    assert forall i :: 0 < i < |all| ==> all[i] == rest[i - 1];
    if b.Some? {
      var k :| 0 <= k < |rest| && rest[k] == Place(b.value, 0) && EndsExpression(e, rest[k])
        && forall i :: 0 <= i < k ==> !EndsExpression(e, rest[i]);
      assert all[k + 1] == rest[k];
    }
  }

  /** The search for a boundary, one place at a time. */
  lemma BoundaryStep(e: string, index: nat, depth: nat)
    requires index < |e| && LiteralSpan(e[index..]).None?
    ensures var after := DepthAfter(e[index], depth);
      && CodePlaces(e, index, depth) == [Place(index, depth)] + CodePlaces(e, index + 1, after)
      && FieldBoundary(e, index, depth) ==
           if EndsExpression(e, Place(index, depth)) then Some(index) else FieldBoundary(e, index + 1, after)
  {
    hide LiteralSpan;
    if e[index] in "([{" || e[index] in ")]}" {
      BracketIsNoBoundary(e, index);
    }
  }

  /**
   The boundary of a field is the first place in code, outside literals and brackets, where a suffix
   starts; there is none exactly when no such place exists.
   */
  lemma {:induction false} BoundaryIsFirst(e: string, index: nat, depth: nat)
    requires index <= |e|
    ensures FirstEnding(e, CodePlaces(e, index, depth), FieldBoundary(e, index, depth))
    decreases |e| - index
  {
    hide LiteralSpan, EndsExpression, FirstEnding;
    if index == |e| {
      NothingEnds(e);
    } else if LiteralSpan(e[index..]).Some? {
      BoundaryIsFirst(e, index + LiteralSpan(e[index..]).value.length, depth);
    } else {
      BoundaryStep(e, index, depth);
      hide FieldBoundary;
      var p, rest := Place(index, depth), CodePlaces(e, index + 1, DepthAfter(e[index], depth));
      if EndsExpression(e, p) {
        HeadEnds(e, p, rest);
      } else {
        BoundaryIsFirst(e, index + 1, DepthAfter(e[index], depth));
        EndingOfRest(e, p, rest, FieldBoundary(e, index, depth));
      }
    }
  }

  lemma NothingEnds(e: string)
    ensures FirstEnding(e, [], None)
  {}

  lemma HeadEnds(e: string, p: Place, rest: seq<Place>)
    requires p.index < |e| && forall i :: 0 <= i < |rest| ==> rest[i].index < |e|
    requires EndsExpression(e, p)
    ensures forall i :: 0 <= i < |[p] + rest| ==> ([p] + rest)[i].index < |e|
    ensures FirstEnding(e, [p] + rest, Some(p.index))
  {
    var all := [p] + rest;
    assert all[0] == p == Place(p.index, 0);
    assert forall i :: 0 < i < |all| ==> all[i] == rest[i - 1];
  }

  lemma EndingIsBoundary(e: string, places: seq<Place>, b: nat)
    requires forall i :: 0 <= i < |places| ==> places[i].index < |e|
    requires FirstEnding(e, places, Some(b))
    ensures b < |e| && IsBoundary(e, b)
  {
    hide IsBoundary;
  }

  /** A suffix starts with a `!` or `:` with no `=` after it, or an `=` that is neither first nor a comparison's. */
  lemma BoundaryFound(e: string, b: nat)
    requires FieldBoundary(e, 0, 0) == Some(b)
    ensures FirstEnding(e, CodePlaces(e, 0, 0), Some(b))
    ensures e[b] in "!:" || (e[b] == '=' && b > 0 && e[b - 1] !in "=<>!:")
    ensures b + 1 < |e| ==> e[b + 1] != '='
  {
    hide FieldBoundary, CodePlaces, FirstEnding;
    BoundaryIsFirst(e, 0, 0);
    EndingIsBoundary(e, CodePlaces(e, 0, 0), b);
  }

  lemma {:induction false} NoReturn(s: string)
    ensures '\r' !in UnifyNewlines(s)
    ensures '\r' !in s ==> UnifyNewlines(s) == s
    decreases |s|
  {
    if s != "" {
      NoReturn(if s[0] == '\r' && |s| > 1 && s[1] == '\n' then s[2..] else s[1..]);
      assert [s[0]] + s[1..] == s;
    }
  }

  lemma {:induction false} JoinMembers(parts: seq<string>, c: char)
    requires c in Join(" ", parts) && c != ' '
    ensures exists i :: 0 <= i < |parts| && c in parts[i]
  {
    if |parts| == 1 {
      assert c in parts[0];
    } else if |parts| > 1 && c !in parts[0] {
      JoinMembers(parts[1..], c);
      var i :| 0 <= i < |parts[1..]| && c in parts[1..][i];
      assert parts[i + 1] == parts[1..][i];
    }
  }

  /**
   When the text of a field before its boundary is taken by the lexer, and holds neither an f-string
   nor an unterminated literal, the field is left as it is exactly when that text is its own lexemes
   one space apart.
   */
  lemma LexedFieldSurvives(sc: Scanner, e: string, b: nat)
    requires sc.Valid() && FieldBoundary(e, 0, 0) == Some(b)
    requires var t := UnifyNewlines(e[..b]); NeedsLexer(t, sc.tokenize(t)) && TameText(sc, t)
    ensures NormaliseExpression(sc, e) == e <==>
      '\r' !in e[..b] && e[..b] == Join(" ", Raw(Kept(sc.Lexemes(e[..b]))))
  {
    hide NeedsLexer, TameText, LexicalText, FieldBoundary, UnifyNewlines, Join, Kept, Scanner.Lexemes;
    var x := e[..b];
    var t := UnifyNewlines(x);
    NoReturn(x);
    TameNormalForm(sc, t);
    var n := NormaliseFragment(sc, x);
    assert n == LexicalText(sc, t);
    assert e == x + e[b..];
    SameSuffix(n, x, e[b..]);
    if n == x && '\r' in x {
      JoinHasNoReturn(sc, t);
    }
  }

  ghost predicate NoFStrings(ls: seq<Lexeme>) {
    forall i :: 0 <= i < |ls| && ls[i].kind.Literal? ==> Shape(ls[i].raw).Whole?
  }

  /** The pieces a text is read as, by the lexer or from its tokens. */
  ghost function Taken(sc: Scanner, t: string): seq<Lexeme> {
    if NeedsLexer(t, sc.tokenize(t)) then Kept(sc.Lexemes(t)) else StreamLexemes(t, sc.tokenize(t).tokens, 0, 0)
  }

  /** The pieces one space apart; the lexer leaves out comments that tidy to nothing. */
  ghost function TakenText(sc: Scanner, t: string): string {
    Strip(Join(" ", if NeedsLexer(t, sc.tokenize(t)) then NonEmpty(Raw(Taken(sc, t))) else Raw(Taken(sc, t))))
  }

  lemma RendersRaw(sc: Scanner, ls: seq<Lexeme>)
    requires NoFStrings(ls)
    ensures RenderedAll(sc, ls) == Raw(ls)
  {
    hide Shape;
    forall i | 0 <= i < |ls| ensures RenderedAll(sc, ls)[i] == Raw(ls)[i] {
      WholeRendersRaw(sc, ls[i]);
    }
  }

  lemma WholeRendersRaw(sc: Scanner, l: Lexeme)
    requires l.kind.Literal? ==> Shape(l.raw).Whole?
    ensures Render(sc, l) == l.raw
  {
    hide Shape;
  }

  lemma TakenIsForm(sc: Scanner, x: string)
    requires NoFStrings(Taken(sc, UnifyNewlines(x)))
    ensures NormaliseFragment(sc, x) == TakenText(sc, UnifyNewlines(x))
  {
    hide Render, StreamLexemes, NoFStrings, NeedsLexer, UnifyNewlines, Strip, Join;
    var t := UnifyNewlines(x);
    var ls := Taken(sc, t);
    RendersRaw(sc, ls);
    if NeedsLexer(t, sc.tokenize(t)) {
      LexicalTextIsRendered(sc, t);
      hide LexicalText;
    } else {
      assert RenderedAll(sc, ls) == seq(|ls|, i requires 0 <= i < |ls| => Render(sc, ls[i]));
    }
  }

  /**
   Whichever way the text of a field before its boundary is read, if no f-string is among its pieces
   the field is left as it is exactly when that text is its own pieces one space apart. A debug field
   prints that text, so otherwise its output changes.
   */
  lemma FieldTextSurvives(sc: Scanner, e: string, b: nat)
    requires FieldBoundary(e, 0, 0) == Some(b) && NoFStrings(Taken(sc, UnifyNewlines(e[..b])))
    ensures NormaliseExpression(sc, e) == e <==> e[..b] == TakenText(sc, UnifyNewlines(e[..b]))
  {
    hide Taken, TakenText, NoFStrings, FieldBoundary, UnifyNewlines;
    TakenIsForm(sc, e[..b]);
    assert e == e[..b] + e[b..];
    SameSuffix(NormaliseFragment(sc, e[..b]), e[..b], e[b..]);
  }

  lemma SameSuffix(a: string, b: string, z: string)
    ensures a + z == b + z <==> a == b
  {
    if a + z == b + z {
      assert |a| == |b| && a == (a + z)[..|a|] && b == (b + z)[..|b|];
    }
  }

  lemma {:induction false} LexemesWithin(sc: Scanner, s: string, c: char)
    ensures forall l <- sc.Lexemes(s) :: c in l.raw ==> c in s
    decreases |s|
  {
    hide Scanner.NextLexeme;
    if s != "" {
      var rest := s[|sc.NextLexeme(s).raw|..];
      LexemesWithin(sc, rest, c);
    }
  }

  lemma ReturnIsNotSqueezed(s: string)
    requires IsSqueezed(s)
    ensures '\r' !in s
  {}

  lemma JoinHasNoReturn(sc: Scanner, t: string)
    requires sc.Valid() && TameText(sc, t) && '\r' !in t
    ensures '\r' !in Join(" ", Raw(Kept(sc.Lexemes(t))))
  {
    hide TameText, Scanner.NextLexeme, IsSqueezed, Genuine, Ordinary, VisibleEnds;
    var ls := Kept(sc.Lexemes(t));
    TameNormalForm(sc, t);
    LexemesWithin(sc, t, '\r');
    KeptFrom(sc.Lexemes(t));
    forall i | 0 <= i < |ls| ensures '\r' !in ls[i].raw {
      assert Sound(sc, ls[i]) && ls[i] in ls;
      var m :| m in sc.Lexemes(t) && ls[i] == Tidy(m);
      if m.kind == CommentText {
        ReturnIsNotSqueezed(ls[i].raw);
      }
    }
    if '\r' in Join(" ", Raw(ls)) {
      JoinMembers(Raw(ls), '\r');
    }
  }

  // ----- a debug field -----

  /** A character that stands for itself in code and in an f-string. */
  predicate StandsAlone(c: char) {
    !IsSpace(c) && !IsPrefixLetter(c) && !IsQuote(c)
    && c !in {'#', '(', '[', '{', ')', ']', '}', '!', ':', '=', '\\'}
  }

  lemma NoLiteralAt(s: string)
    requires s != "" && !IsPrefixLetter(s[0]) && !IsQuote(s[0])
    ensures LiteralSpan(s).None?
  {}

  lemma DebugBoundary(c: char)
    requires StandsAlone(c)
    ensures FieldBoundary([c, ' ', '=', ' '], 0, 0) == Some(2)
  {
    hide LiteralSpan;
    var e := [c, ' ', '=', ' '];
    NoLiteralAt(e[0..]);
    NoLiteralAt(e[1..]);
    NoLiteralAt(e[2..]);
    assert e[3..4] == [' '];
    assert IsBoundary(e, 2) && !IsBoundary(e, 1) && !IsBoundary(e, 0);
    assert FieldBoundary(e, 2, 0) == Some(2);
    assert FieldBoundary(e, 1, 0) == Some(2);
  }

  lemma SpaceAfter(sc: Scanner, c: char)
    requires sc.Valid() && StandsAlone(c)
    ensures LexicalText(sc, [c, ' ']) == [c]
  {
    hide Scanner.NextLexeme, LexicalText, IsSpace;
    LoneCharacter(sc, c);
    var l := Lexeme(Plain, [c]);
    assert [c] + "" == [c] && [c] + " " + "" == [c, ' '] && sc.Lexemes([c])[..1] == [l];
    assert Raw([l]) == [[c]] && Concat([[c]]) == [c] by { assert [[c]][1..] == [] && [c] + "" == [c]; }
    assert AllSpace(" ") by { UnderscoreIsVisible(); }
    LayoutInvariant(sc, 1, [c], " ", "");
    LoneCharacterText(sc, c);
  }

  /** A name followed by a space, as it comes from the tokens or from the lexer. */
  lemma SpaceIsLost(sc: Scanner, c: char)
    requires sc.Valid() && StandsAlone(c) && FirstCharacterOnly(sc, [c, ' '])
    ensures NormaliseFragment(sc, [c, ' ']) == [c]
  {
    var s := [c, ' '];
    NoReturn(s);
    SpaceAfter(sc, c);
    assert c != '\r' by { assert IsSpace('\r'); }
    if !NeedsLexer(s, sc.tokenize(s)) {
      OneTokenText(sc, s, sc.tokenize(s));
      assert s[..1] == [c];
    }
    hide UnifyNewlines, LexicalText, StreamText, StandsAlone, NeedsLexer;
    assert NormaliseFragment(sc, s) == [c];
  }

  lemma DebugExpression(sc: Scanner, c: char)
    requires sc.Valid() && StandsAlone(c) && FirstCharacterOnly(sc, [c, ' '])
    ensures NormaliseExpression(sc, [c, ' ', '=', ' ']) == [c, '=', ' ']
  {
    DebugBoundary(c);
    SpaceIsLost(sc, c);
    hide FieldBoundary, StandsAlone, FirstCharacterOnly, NormaliseFragment;
    var e := [c, ' ', '=', ' '];
    assert e[..2] == [c, ' '] && e[2..] == ['=', ' '];
    assert [c] + ['=', ' '] == [c, '=', ' '];
  }

  lemma DebugFieldEnd(c: char)
    requires StandsAlone(c)
    ensures FieldEnd([c, ' ', '=', ' '] + "}", 0) == Some(4)
  {
    hide LiteralSpan;
    var s := [c, ' ', '=', ' '] + "}";
    NoLiteralAt(s);
    NoLiteralAt(s[1..]);
    NoLiteralAt(s[2..]);
    NoLiteralAt(s[3..]);
    NoLiteralAt(s[4..]);
    assert s[1..][1..] == s[2..] && s[2..][1..] == s[3..] && s[3..][1..] == s[4..];
    assert FieldEnd(s[4..], 0) == Some(0);
    assert FieldEnd(s[3..], 0) == Some(1);
    assert FieldEnd(s[2..], 0) == Some(2);
    assert FieldEnd(s[1..], 0) == Some(3);
  }

  /** A body that is one field. */
  lemma OneFieldParts(body: string, e: string)
    requires body == "{" + (e + "}") && e != "" && e[0] != '{' && FieldEnd(e + "}", 0) == Some(|e|)
    ensures Parts(body) == [Field(e)]
  {
    hide FieldEnd;
    assert body[1..] == e + "}" && body[1] == e[0] && body[1..1 + |e|] == e;
    assert FirstPart(body) == (Field(e), |body|);
    hide FirstPart;
    assert body[|body|..] == "" && Parts("") == [] && [Field(e)] + [] == [Field(e)];
  }

  lemma AloneIsNoBrace(c: char)
    requires StandsAlone(c)
    ensures c != '{'
  {}

  lemma DebugBody(sc: Scanner, c: char, body: string)
    requires sc.Valid() && StandsAlone(c) && FirstCharacterOnly(sc, [c, ' '])
    requires body == "{" + ([c, ' ', '=', ' '] + "}")
    ensures NormaliseBody(sc, body) == "{" + [c, '=', ' '] + "}"
  {
    hide StandsAlone, FirstCharacterOnly, Parts, NormaliseExpression, NormaliseBody, FieldEnd;
    AloneIsNoBrace(c);
    DebugFieldEnd(c);
    OneFieldParts(body, [c, ' ', '=', ' ']);
    DebugExpression(sc, c);
    OneFieldBody(sc, body, [c, ' ', '=', ' ']);
  }

  lemma OneFieldBody(sc: Scanner, body: string, e: string)
    requires Parts(body) == [Field(e)]
    ensures NormaliseBody(sc, body) == "{" + NormaliseExpression(sc, e) + "}"
  {
    hide Parts, NormaliseExpression;
    var parts := Parts(body);
    var texts := seq(|parts|, i requires 0 <= i < |parts| =>
      if parts[i].Field? then "{" + NormaliseExpression(sc, parts[i].expression) + "}" else parts[i].raw);
    assert texts == ["{" + NormaliseExpression(sc, e) + "}"];
    assert Concat(texts) == texts[0] by { assert texts[1..] == [] && texts[0] + "" == texts[0]; }
  }

  /**
   The space before the `=` of a debug field is printed, and lost: from the tokens, where the first
   character is the only token that is not layout, and by the lexer, where it takes the text.
   */
  lemma DebugTextChanges(sc: Scanner, c: char)
    requires sc.Valid() && StandsAlone(c) && FirstCharacterOnly(sc, [c, ' '])
    ensures NormaliseLiteral(sc, "f'" + ("{" + ([c, ' ', '=', ' '] + "}")) + "'")
      == "f'" + ("{" + [c, '=', ' '] + "}") + "'"
  {
    hide StandsAlone, FirstCharacterOnly, NormaliseBody, Shape;
    var body := "{" + ([c, ' ', '=', ' '] + "}");
    DebugBody(sc, c, body);
    DebugShape("f'" + body + "'", body);
  }

  /** The delimiters and the body of an f-string that holds one field. */
  lemma DebugShape(literal: string, body: string)
    requires literal == "f'" + body + "'" && body != "" && body[0] == '{'
    ensures Shape(literal) == FString("f'", body, "'")
  {
    assert literal[0] == 'f' && literal[1] == '\'' && literal[2] == '{';
    assert PrefixRun(literal[1..]) == 0;
    assert PrefixRun(literal) == 1;
    assert literal[..1] == "f" && literal[1..][0] == '\'' && literal[1..][1] == '{';
    assert Delimiter(literal[1..]) == "'";
    var n := |literal| - 1;
    assert literal[n..] == "'" && literal[..2] == "f'" && literal[2..n] == body;
  }
}
