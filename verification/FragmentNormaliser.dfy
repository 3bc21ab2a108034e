/**
 The normal form of a source fragment (scripts/check_duplicate_code_ratchet.py): the mutual
 recursion from fragment to lexemes, to string literals, to f-string fields, and back to fragments.
 Every recursive call is on a shorter text, or on the same text in a later phase.
 */
module FragmentNormaliser {
  import opened Wrappers
  import opened Text
  import opened FragmentScanner
  import opened Brackets

  /** Windows and old Macintosh line ends become `\n`. */
  function UnifyNewlines(s: string): (r: string)
    ensures |r| <= |s|
  {
    if s == "" then ""
    else if s[0] == '\r' then
      ['\n'] + UnifyNewlines(if |s| > 1 && s[1] == '\n' then s[2..] else s[1..])
    else [s[0]] + UnifyNewlines(s[1..])
  }

  function NonEmpty(parts: seq<string>): seq<string> {
    if parts == [] then []
    else (if parts[0] == "" then [] else [parts[0]]) + NonEmpty(parts[1..])
  }

  // ----- the parts of an f-string -----

  datatype LiteralShape = Whole | FString(open: string, body: string, close: string)

  predicate EndsWith(s: string, suffix: string) {
    |suffix| <= |s| && s[|s| - |suffix|..] == suffix
  }

  /** Where an f-string's body lies; other literals are left as they are. */
  function Shape(literal: string): (r: LiteralShape)
    ensures r.FString? ==> |r.body| + 2 <= |literal|
  {
    var p := PrefixRun(literal);
    if !('f' in literal[..p] || 'F' in literal[..p]) || p == |literal| then Whole
    else
      var d := Delimiter(literal[p..]);
      if !EndsWith(literal, d) then Whole
      else
        var bodyEnd := |literal| - |d|;
        FString(literal[..p + |d|], Slice(literal, p + |d|, bodyEnd), literal[bodyEnd..])
  }

  datatype Part = Verbatim(raw: string) | Field(expression: string)

  function PartText(p: Part): string {
    match p
    case Verbatim(raw) => raw
    case Field(e) => "{" + e + "}"
  }

  /** The offset of the brace that closes a replacement field. */
  function FieldEnd(s: string, depth: nat): (r: Option<nat>)
    ensures r.Some? ==> r.value < |s| && s[r.value] == '}'
    decreases |s|
  {
    if s == "" then None
    else if LiteralSpan(s).None? && s[0] == '}' && depth == 0 then Some(0)
    else
      var k := if LiteralSpan(s).Some? then LiteralSpan(s).value.length else 1;
      var depth' :=
        if LiteralSpan(s).Some? then depth
        else if s[0] == '{' then depth + 1
        else if s[0] == '}' then depth - 1
        else depth;
      Plus(k, FieldEnd(s[k..], depth'))
  }

  /** The part at the head of a non-empty f-string body, and its length. */
  function FirstPart(s: string): (r: (Part, nat))
    requires s != ""
    ensures 0 < r.1 <= |s| && (r.0.Field? ==> |r.0.expression| + 2 <= |s|)
  {
    if "{{" <= s || "}}" <= s then (Verbatim(s[..2]), 2)
    else if s[0] != '{' then (Verbatim(s[..1]), 1)
    else match FieldEnd(s[1..], 0)
      case None => (Verbatim(s), |s|)
      case Some(n) => (Field(s[1..1 + n]), n + 2)
  }

  function Parts(body: string): (r: seq<Part>)
    ensures forall i :: 0 <= i < |r| && r[i].Field? ==> |r[i].expression| + 2 <= |body|
    decreases |body|
  {
    if body == "" then [] else
      var (part, n) := FirstPart(body);
      [part] + Parts(body[n..])
  }

  /**
   Where a field's expression gives way to its conversion, format or debug suffix, looking from
   `index` on. An `=` at the very start is never a boundary.
   */
  function FieldBoundary(e: string, index: nat, depth: nat): (r: Option<nat>)
    requires index <= |e|
    ensures r.Some? ==> index <= r.value < |e| && e[r.value] in "!:="
    decreases |e| - index
  {
    if index == |e| then None
    else if LiteralSpan(e[index..]).Some? then
      FieldBoundary(e, index + LiteralSpan(e[index..]).value.length, depth)
    else
      var c := e[index];
      if c in "([{" then FieldBoundary(e, index + 1, depth + 1)
      else if c in ")]}" then FieldBoundary(e, index + 1, if depth > 0 then depth - 1 else 0)
      else if depth == 0 && IsBoundary(e, index) then Some(index)
      else FieldBoundary(e, index + 1, depth)
  }

  predicate IsBoundary(e: string, index: nat)
    requires index < |e|
  {
    var next := if index + 1 < |e| then e[index + 1..index + 2] else "";
    || (e[index] in "!:" && next != "=")
    || (e[index] == '=' && index > 0 && e[index - 1] !in "=<>!:" && next != "=")
  }

  // ----- the standard tokenizer's lexemes -----

  /** What a complete token stream keeps; a whole f-string is taken back from the source text. */
  function StreamLexemes(text: string, tokens: seq<Token>, depth: nat, start: nat): (ls: seq<Lexeme>)
    ensures forall l <- ls :: |l.raw| <= |text|
  {
    if tokens == [] then [] else
      var token, rest := tokens[0], tokens[1..];
      if token.kind == FStringStart then
        StreamLexemes(text, rest, depth + 1, if depth == 0 then token.start else start)
      else if depth > 0 then
        if token.kind != FStringEnd then StreamLexemes(text, rest, depth, start)
        else
          (if depth == 1 then [Lexeme(Literal(true), Slice(text, start, token.end))] else [])
          + StreamLexemes(text, rest, depth - 1, start)
      else if token.kind == LayoutToken then StreamLexemes(text, rest, 0, start)
      else
        var kind := match token.kind
          case CommentToken => CommentText
          case StringToken => Literal(true)
          case _ => Plain;
        [Tidy(Lexeme(kind, Slice(text, token.start, token.end)))] + StreamLexemes(text, rest, 0, start)
  }

  /** The operator tokens' own text, in order. */
  function OperatorTexts(text: string, tokens: seq<Token>): seq<string> {
    if tokens == [] then [] else
      var own := if tokens[0].kind == OperatorToken then [Slice(text, tokens[0].start, tokens[0].end)] else [];
      own + OperatorTexts(text, tokens[1..])
  }

  predicate NeedsLexer(text: string, t: Tokenization) {
    || t.failed
    || t.tokens == []
    || (exists token <- t.tokens :: token.kind == ErrorToken)
    || Unclosed(OperatorTexts(text, t.tokens), [])
  }

  // ----- the mutual recursion -----

  function NormaliseFragment(sc: Scanner, text: string): string
    decreases |text|, 4
  {
    var t := UnifyNewlines(text);
    var tokens := sc.tokenize(t);
    if NeedsLexer(t, tokens) then LexicalText(sc, t) else StreamText(sc, t, tokens.tokens)
  }

  function LexicalText(sc: Scanner, text: string): string
    decreases |text|, 3
  {
    var ls := Kept(sc.Lexemes(text));
    LexemesFit(sc, text);
    Strip(Join(" ", NonEmpty(seq(|ls|, i requires 0 <= i < |ls| => Render(sc, ls[i])))))
  }

  function StreamText(sc: Scanner, text: string, tokens: seq<Token>): string
    decreases |text|, 3
  {
    var ls := StreamLexemes(text, tokens, 0, 0);
    Strip(Join(" ", seq(|ls|, i requires 0 <= i < |ls| => Render(sc, ls[i]))))
  }

  function Render(sc: Scanner, l: Lexeme): string
    decreases |l.raw|, 2
  {
    if l.kind.Literal? then NormaliseLiteral(sc, l.raw) else l.raw
  }

  function NormaliseLiteral(sc: Scanner, literal: string): string
    decreases |literal|, 1
  {
    match Shape(literal)
    case Whole => literal
    case FString(open, body, close) => open + NormaliseBody(sc, body) + close
  }

  function NormaliseBody(sc: Scanner, body: string): string
    decreases |body|, 5
  {
    var parts := Parts(body);
    Concat(seq(|parts|, i requires 0 <= i < |parts| =>
      if parts[i].Field? then "{" + NormaliseExpression(sc, parts[i].expression) + "}" else parts[i].raw))
  }

  function NormaliseExpression(sc: Scanner, e: string): string
    decreases |e|, 5
  {
    match FieldBoundary(e, 0, 0)
    case None => NormaliseFragment(sc, e)
    case Some(b) => NormaliseFragment(sc, e[..b]) + e[b..]
  }

  // ----- the pieces a text is put together from -----

  ghost function RenderedAll(sc: Scanner, ls: seq<Lexeme>): seq<string> {
    seq(|ls|, i requires 0 <= i < |ls| => Render(sc, ls[i]))
  }

  lemma RenderedAllCons(sc: Scanner, l: Lexeme, ls: seq<Lexeme>)
    ensures RenderedAll(sc, [l] + ls) == [Render(sc, l)] + RenderedAll(sc, ls)
  {
    hide Render;
    forall i | 0 <= i < 1 + |ls|
      ensures RenderedAll(sc, [l] + ls)[i] == ([Render(sc, l)] + RenderedAll(sc, ls))[i]
    {
      assert i > 0 ==> ([l] + ls)[i] == ls[i - 1];
    }
  }

  lemma LexicalTextIsRendered(sc: Scanner, text: string)
    ensures LexicalText(sc, text) == Strip(Join(" ", NonEmpty(RenderedAll(sc, Kept(sc.Lexemes(text))))))
  {
    hide Render;
    var ls := Kept(sc.Lexemes(text));
    assert RenderedAll(sc, ls) == seq(|ls|, i requires 0 <= i < |ls| => Render(sc, ls[i]));
  }
}
