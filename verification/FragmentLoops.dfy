/**
 The scanning loops of scripts/check_duplicate_code_ratchet.py, which move an index over the text
 and append to a list of pieces, proved against the suffix functions of FragmentScanner and
 FragmentNormaliser.
 */
module FragmentLoops {
  import opened Wrappers
  import opened Text
  import opened FragmentScanner
  import opened FragmentLiterals
  import opened FragmentNormaliser
  import opened Brackets

  /** The offset just past the string literal at the head of `s`. */
  ghost function LiteralLength(s: string): (r: Option<nat>)
    ensures r.Some? ==> 1 <= r.value <= |s|
  {
    match LiteralSpan(s)
    case None => None
    case Some(span) => Some(span.length)
  }

  /** The closing offset of a literal body, or its whole length when nothing closes it. */
  ghost function BodyLength(s: string, delimiter: string): nat
    requires delimiter != ""
  {
    match CloseAfter(s, delimiter)
    case None => |s|
    case Some(n) => n
  }

  lemma BodyStep(text: string, index: nat, delimiter: string)
    requires index < |text| && delimiter != ""
    ensures var rest := text[index..];
      BodyLength(rest, delimiter) ==
        if text[index] == '\\' then
          (if index + 2 <= |text| then 2 + BodyLength(text[index + 2..], delimiter) else 1)
        else if delimiter <= rest then |delimiter|
        else 1 + BodyLength(text[index + 1..], delimiter)
  {
    assert index + 2 <= |text| ==> text[index..][2..] == text[index + 2..];
    assert text[index..][1..] == text[index + 1..];
  }

  lemma QuotedLength(text: string, start: nat, p: nat)
    requires start <= |text| && p == PrefixLength(text[start..])
    ensures LiteralLength(text[start..]).Some? <==> start + p < |text| && IsQuote(text[start + p])
    ensures LiteralLength(text[start..]).Some? ==>
      var d := Delimiter(text[start + p..]);
      LiteralLength(text[start..]) == Some(p + |d| + BodyLength(text[start + p + |d|..], d))
  {
    hide CloseAfter, PrefixRun;
    if start + p < |text| && IsQuote(text[start + p]) {
      assert text[start..][p..] == text[start + p..];
      var d := Delimiter(text[start + p..]);
      assert text[start + p..][|d|..] == text[start + p + |d|..];
    }
  }

  lemma LiteralLaw(s: string)
    ensures LiteralLength(s).Some? <==> StartsLiteral(s)
    ensures LiteralLength(s).Some? ==> EndsLiteral(s, LiteralLength(s).value)
  {
    hide LiteralSpan, StartsLiteral, EndsLiteral;
    LengthExactly(s);
  }

  /** The exclusive end of the string literal at `start`, if one starts there. */
  method StringLiteralEnd(text: string, start: nat) returns (end: Option<nat>)
    requires start <= |text|
    ensures end == Plus(start, LiteralLength(text[start..]))
    ensures end.Some? ==> start < end.value <= |text|
    ensures end.Some? <==> StartsLiteral(text[start..])
    ensures end.Some? ==> EndsLiteral(text[start..], end.value - start)
  {
    hide LiteralSpan, LiteralLength, BodyLength, Delimiter, StartsLiteral, EndsLiteral;
    LiteralLaw(text[start..]);
    var prefixEnd := start;
    while prefixEnd < |text| && IsPrefixLetter(text[prefixEnd])
      invariant start <= prefixEnd <= |text|
      invariant PrefixRun(text[start..]) == prefixEnd - start + PrefixRun(text[prefixEnd..])
    {
      assert text[prefixEnd..][1..] == text[prefixEnd + 1..];
      prefixEnd := prefixEnd + 1;
    }
    if prefixEnd == start || prefixEnd - start > 3 {
      prefixEnd := start;
    }
    QuotedLength(text, start, prefixEnd - start);
    if prefixEnd >= |text| || !IsQuote(text[prefixEnd]) {
      return None;
    }
    var delimiter := Delimiter(text[prefixEnd..]);
    end := ClosingDelimiter(text, prefixEnd + |delimiter|, delimiter);
  }

  /** The loop that looks for the delimiter, skipping escaped characters. */
  method ClosingDelimiter(text: string, body: nat, delimiter: string) returns (end: Option<nat>)
    requires body <= |text| && delimiter != ""
    ensures end == Some(body + BodyLength(text[body..], delimiter))
  {
    hide CloseAfter, BodyLength;
    var index := body;
    while index < |text|
      invariant body <= index
      invariant BodyLength(text[body..], delimiter) ==
        if index <= |text| then index - body + BodyLength(text[index..], delimiter) else |text| - body
    {
      BodyStep(text, index, delimiter);
      if text[index] == '\\' {
        index := index + 2;
      } else if delimiter <= text[index..] {
        return Some(index + |delimiter|);
      } else {
        index := index + 1;
      }
    }
    assert index == |text| ==> BodyLength(text[index..], delimiter) == 0 by {
      EmptyBody(delimiter);
      assert index == |text| ==> text[index..] == "";
    }
    return Some(|text|);
  }

  lemma EmptyBody(delimiter: string)
    requires delimiter != ""
    ensures BodyLength("", delimiter) == 0
  {}

  lemma OperatorStep(text: string, tokens: seq<Token>, i: nat)
    requires i < |tokens|
    ensures var rest := OperatorTexts(text, tokens[i + 1..]);
      OperatorTexts(text, tokens[i..]) ==
        if tokens[i].kind == OperatorToken then [Slice(text, tokens[i].start, tokens[i].end)] + rest else rest
  {
    assert tokens[i..][1..] == tokens[i + 1..];
  }

  /** Whether the operator tokens leave a delimiter unclosed. */
  method HasUnclosedDelimiter(text: string, tokens: seq<Token>) returns (unclosed: bool)
    ensures unclosed == Unclosed(OperatorTexts(text, tokens), [])
  {
    var stack: seq<string> := [];
    assert tokens[0..] == tokens;
    for i := 0 to |tokens|
      invariant Unclosed(OperatorTexts(text, tokens), []) == Unclosed(OperatorTexts(text, tokens[i..]), stack)
    {
      OperatorStep(text, tokens, i);
      if tokens[i].kind != OperatorToken {
        continue;
      }
      var op := Slice(text, tokens[i].start, tokens[i].end);
      assert ([op] + OperatorTexts(text, tokens[i + 1..]))[1..] == OperatorTexts(text, tokens[i + 1..]);
      if Closer(op).Some? {
        stack := stack + [Closer(op).value];
      } else if IsCloser(op) {
        if stack == [] || stack[|stack| - 1] != op {
          return true;
        }
        stack := stack[..|stack| - 1];
      }
    }
    return stack != [];
  }

  lemma FieldEndStep(body: string, index: nat, depth: nat)
    requires index < |body|
    ensures var literal := LiteralLength(body[index..]);
      var next := body[index + 1..];
      FieldEnd(body[index..], depth) ==
        if literal.Some? then Plus(literal.value, FieldEnd(body[index + literal.value..], depth))
        else if body[index] == '{' then Plus(1, FieldEnd(next, depth + 1))
        else if body[index] == '}' then (if depth == 0 then Some(0) else Plus(1, FieldEnd(next, depth - 1)))
        else Plus(1, FieldEnd(next, depth))
  {
    hide PrefixLength, Quoted;
    var literal := LiteralLength(body[index..]);
    if literal.Some? {
      assert body[index..][literal.value..] == body[index + literal.value..];
    } else {
      assert body[index..][1..] == body[index + 1..];
    }
  }

  /** The offset of the closing brace of the field that starts at `start`. */
  method FStringExpressionEnd(body: string, start: nat) returns (end: Option<nat>)
    requires start <= |body|
    ensures end == Plus(start, FieldEnd(body[start..], 0))
  {
    hide LiteralLength, FieldEnd, StartsLiteral, EndsLiteral;
    var depth: nat, index := 0, start;
    while index < |body|
      invariant start <= index <= |body|
      invariant FieldEnd(body[start..], 0) == Plus(index - start, FieldEnd(body[index..], depth))
    {
      FieldEndStep(body, index, depth);
      var literalEnd := StringLiteralEnd(body, index);
      if literalEnd.Some? {
        index := literalEnd.value;
        continue;
      }
      if body[index] == '{' {
        depth := depth + 1;
      } else if body[index] == '}' {
        if depth == 0 {
          return Some(index);
        }
        depth := depth - 1;
      }
      index := index + 1;
    }
    assert FieldEnd(body[index..], depth) == None by {
      NoFieldEnd(depth);
      assert body[index..] == "";
    }
    return None;
  }

  lemma NoFieldEnd(depth: nat)
    ensures FieldEnd("", depth) == None
  {}

  lemma BoundaryStep(e: string, index: nat, depth: nat)
    requires index < |e|
    ensures var literal, c := LiteralLength(e[index..]), e[index];
      FieldBoundary(e, index, depth) ==
        if literal.Some? then FieldBoundary(e, index + literal.value, depth)
        else if c in "([{" then FieldBoundary(e, index + 1, depth + 1)
        else if c in ")]}" then FieldBoundary(e, index + 1, if depth > 0 then depth - 1 else 0)
        else if depth == 0 && IsBoundary(e, index) then Some(index)
        else FieldBoundary(e, index + 1, depth)
  {
    hide LiteralSpan, IsBoundary;
  }

  lemma NoBoundaryLeft(e: string, depth: nat)
    ensures FieldBoundary(e, |e|, depth) == None
  {}

  /** The boundaries found in a field: at most one, and the first. */
  method FStringFieldBoundaries(expression: string) returns (boundaries: seq<nat>)
    ensures boundaries ==
      match FieldBoundary(expression, 0, 0) { case None => [] case Some(b) => [b] }
  {
    hide LiteralSpan, LiteralLength, IsBoundary, FieldBoundary, StartsLiteral, EndsLiteral;
    boundaries := [];
    var depth: nat, index := 0, 0;
    while index < |expression|
      invariant index <= |expression| && boundaries == []
      invariant FieldBoundary(expression, 0, 0) == FieldBoundary(expression, index, depth)
    {
      BoundaryStep(expression, index, depth);
      var literalEnd := StringLiteralEnd(expression, index);
      if literalEnd.Some? {
        index := literalEnd.value;
        continue;
      }
      var character := expression[index];
      if character in "([{" {
        depth := depth + 1;
      } else if character in ")]}" {
        depth := if depth > 0 then depth - 1 else 0;
      } else if depth == 0 && IsBoundary(expression, index) {
        boundaries := boundaries + [index];
        return;
      }
      index := index + 1;
    }
    NoBoundaryLeft(expression, depth);
  }

  /** An f-string body's rendering, part by part. */
  ghost function Rendered(sc: Scanner, parts: seq<Part>): seq<string> {
    seq(|parts|, i requires 0 <= i < |parts| =>
      if parts[i].Field? then "{" + NormaliseExpression(sc, parts[i].expression) + "}" else parts[i].raw)
  }

  lemma RenderedIsBody(sc: Scanner, body: string)
    ensures NormaliseBody(sc, body) == Concat(Rendered(sc, Parts(body)))
  {
    var parts := Parts(body);
    assert Rendered(sc, parts) == seq(|parts|, i requires 0 <= i < |parts| =>
      if parts[i].Field? then "{" + NormaliseExpression(sc, parts[i].expression) + "}" else parts[i].raw);
  }

  lemma RenderedCons(sc: Scanner, p: Part, rest: seq<Part>)
    ensures var own := if p.Field? then "{" + NormaliseExpression(sc, p.expression) + "}" else p.raw;
      Rendered(sc, [p] + rest) == [own] + Rendered(sc, rest)
  {
    hide NormaliseExpression;
    var own := if p.Field? then "{" + NormaliseExpression(sc, p.expression) + "}" else p.raw;
    forall i | 0 <= i < 1 + |rest| ensures Rendered(sc, [p] + rest)[i] == ([own] + Rendered(sc, rest))[i] {
      assert i > 0 ==> ([p] + rest)[i] == rest[i - 1];
    }
  }

  /** One turn of the body loop, in terms of positions in the body. */
  lemma PartCases(body: string, index: nat)
    requires index < |body|
    ensures var s, field := body[index..], FieldEnd(body[index + 1..], 0);
      FirstPart(s) ==
        if "{{" <= s || "}}" <= s then (Verbatim(s[..2]), 2)
        else if body[index] != '{' then (Verbatim([body[index]]), 1)
        else if field.None? then (Verbatim(s), |s|)
        else (Field(body[index + 1..index + 1 + field.value]), field.value + 2)
  {
    hide FieldEnd;
    var s := body[index..];
    SliceOfSuffix(body, index, index + 1);
    assert s[..1] == [body[index]];
    var field := FieldEnd(s[1..], 0);
    if field.Some? {
      SliceOfSuffix(s, 1, 1 + field.value);
      SliceOfSuffix(body, index + 1, index + 1 + field.value);
    }
  }

  /** What the body loop still has to add from `index` on. */
  ghost function RenderedFrom(sc: Scanner, body: string, index: nat): seq<string>
    requires index <= |body|
  {
    Rendered(sc, Parts(body[index..]))
  }

  lemma RenderedFromStep(sc: Scanner, body: string, index: nat)
    requires index < |body|
    ensures var (p, n) := FirstPart(body[index..]);
      var own := if p.Field? then "{" + NormaliseExpression(sc, p.expression) + "}" else p.raw;
      RenderedFrom(sc, body, index) == [own] + RenderedFrom(sc, body, index + n)
  {
    hide Rendered, FirstPart, NormaliseExpression;
    var (p, n) := FirstPart(body[index..]);
    SliceOfSuffix(body, index, index + n);
    RenderedCons(sc, p, Parts(body[index + n..]));
  }

  lemma RenderedFromEnds(sc: Scanner, body: string)
    ensures RenderedFrom(sc, body, |body|) == []
    ensures NormaliseBody(sc, body) == Concat(RenderedFrom(sc, body, 0))
  {
    hide NormaliseExpression;
    assert body[|body|..] == "" && body[0..] == body;
    RenderedIsBody(sc, body);
  }

  method NormaliseFStringBody(sc: Scanner, body: string) returns (r: string)
    ensures r == NormaliseBody(sc, body)
    decreases |body|, 5
  {
    hide FieldEnd, FirstPart, RenderedFrom, NormaliseBody, NormaliseExpression;
    RenderedFromEnds(sc, body);
    var pieces: seq<string> := [];
    var index := 0;
    while index < |body|
      invariant index <= |body|
      invariant RenderedFrom(sc, body, 0) == pieces + RenderedFrom(sc, body, index)
    {
      RenderedFromStep(sc, body, index);
      PartCases(body, index);
      ghost var before, next := pieces, index + FirstPart(body[index..]).1;
      if "{{" <= body[index..] || "}}" <= body[index..] {
        SliceOfSuffix(body, index, index + 2);
        pieces := pieces + [body[index..index + 2]];
        index := index + 2;
      } else if body[index] != '{' {
        pieces := pieces + [[body[index]]];
        index := index + 1;
      } else {
        var end := FStringExpressionEnd(body, index + 1);
        if end.None? {
          pieces := pieces + [body[index..]];
          index := |body|;
        } else {
          var expression := NormaliseFStringExpression(sc, body[index + 1..end.value]);
          pieces := pieces + ["{" + expression + "}"];
          index := end.value + 1;
        }
      }
      Assoc(before, pieces[|before|..], RenderedFrom(sc, body, next));
      assert before + pieces[|before|..] == pieces;
    }
    assert pieces + [] == pieces;
    return Concat(pieces);
  }

  method NormaliseFStringExpression(sc: Scanner, expression: string) returns (r: string)
    ensures r == NormaliseExpression(sc, expression)
    decreases |expression|, 5
  {
    hide FieldBoundary, NormaliseFragment;
    var boundaries := FStringFieldBoundaries(expression);
    if boundaries == [] {
      r := NormaliseSourceFragment(sc, expression);
    } else {
      var boundary := boundaries[0];
      r := NormaliseSourceFragment(sc, expression[..boundary]);
      r := r + expression[boundary..];
    }
  }

  lemma LiteralCases(sc: Scanner, literal: string)
    ensures var p := PrefixRun(literal);
      NormaliseLiteral(sc, literal) ==
        if !('f' in literal[..p] || 'F' in literal[..p]) || p == |literal| then literal
        else
          var d := Delimiter(literal[p..]);
          var bodyEnd := |literal| - |d|;
          if !EndsWith(literal, d) then literal
          else literal[..p + |d|] + NormaliseBody(sc, Slice(literal, p + |d|, bodyEnd)) + literal[bodyEnd..]
  {
    hide NormaliseBody, PrefixRun, Delimiter, Slice, EndsWith;
  }

  /** The end of the run of prefix letters. */
  method PrefixEnd(literal: string) returns (end: nat)
    ensures end == PrefixRun(literal)
  {
    end := 0;
    assert literal[0..] == literal;
    while end < |literal| && IsPrefixLetter(literal[end])
      invariant end <= |literal|
      invariant PrefixRun(literal) == end + PrefixRun(literal[end..])
    {
      assert literal[end..][1..] == literal[end + 1..];
      end := end + 1;
    }
  }

  /** `_normalise_literal`: only a complete f-string is changed. */
  method NormaliseStringLiteral(sc: Scanner, literal: string) returns (r: string)
    ensures r == NormaliseLiteral(sc, literal)
    decreases |literal|, 1
  {
    hide NormaliseBody, NormaliseLiteral, Delimiter, EndsWith, PrefixRun, Slice;
    LiteralCases(sc, literal);
    var prefixEnd := PrefixEnd(literal);
    if !('f' in literal[..prefixEnd] || 'F' in literal[..prefixEnd]) || prefixEnd == |literal| {
      return literal;
    }
    var delimiter := Delimiter(literal[prefixEnd..]);
    if !EndsWith(literal, delimiter) {
      return literal;
    }
    var bodyStart, bodyEnd := prefixEnd + |delimiter|, |literal| - |delimiter|;
    var body := NormaliseFStringBody(sc, Slice(literal, bodyStart, bodyEnd));
    return literal[..bodyStart] + body + literal[bodyEnd..];
  }

  /** What the lexer loop still has to add from `index` on. */
  ghost function PiecesFrom(sc: Scanner, text: string, index: nat): seq<string> {
    if index >= |text| then [] else RenderedAll(sc, Kept(sc.Lexemes(text[index..])))
  }

  lemma LexicalTextIsKept(sc: Scanner, text: string)
    ensures LexicalText(sc, text) == Strip(Join(" ", NonEmpty(PiecesFrom(sc, text, 0))))
  {
    hide Render;
    assert text[0..] == text;
    LexicalTextIsRendered(sc, text);
    assert text == "" ==> Kept(sc.Lexemes(text)) == [];
  }

  lemma KeptStep(sc: Scanner, text: string, index: nat)
    requires index < |text|
    ensures var l := sc.NextLexeme(text[index..]);
      PiecesFrom(sc, text, index) ==
        (if l.kind == Space then [] else [Render(sc, Tidy(l))]) + PiecesFrom(sc, text, index + |l.raw|)
  {
    hide Scanner.NextLexeme, Render, Tidy;
    var l := sc.NextLexeme(text[index..]);
    var rest := text[index + |l.raw|..];
    assert text[index..][|l.raw|..] == rest;
    assert Kept(sc.Lexemes(text[index..])) ==
      (if l.kind == Space then [] else [Tidy(l)]) + Kept(sc.Lexemes(rest));
    if l.kind != Space {
      RenderedAllCons(sc, Tidy(l), Kept(sc.Lexemes(rest)));
    } else {
      assert [] + Kept(sc.Lexemes(rest)) == Kept(sc.Lexemes(rest));
    }
    assert index + |l.raw| == |text| ==> rest == "";
  }

  /** The exclusive end of the run of word characters from `start` on. */
  method WordEnd(sc: Scanner, text: string, start: nat, dots: bool) returns (end: nat)
    requires start <= |text|
    ensures end == start + sc.WordRun(text[start..], dots) && end <= |text|
  {
    end := start;
    while end < |text| && sc.IsWordChar(text[end], dots)
      invariant start <= end <= |text|
      invariant sc.WordRun(text[start..], dots) == end - start + sc.WordRun(text[end..], dots)
    {
      assert text[end..][1..] == text[end + 1..];
      end := end + 1;
    }
  }

  /** The lexer's case analysis at `index`, in terms of positions in the text. */
  lemma LexemeCases(sc: Scanner, text: string, index: nat)
    requires index < |text|
    ensures var s := text[index..];
      var c, literal, l := text[index], LiteralLength(s), sc.NextLexeme(s);
      if IsSpace(c) then l == Lexeme(Space, [c])
      else if c == '#' then l == Lexeme(CommentText, s[..LineLength(s)])
      else if literal.Some? then l.kind.Literal? && l.raw == s[..literal.value]
      else l == sc.PlainLexeme(s)
  {
    hide LiteralSpan, FirstOperator, IsSpace, LineLength, Scanner.PlainLexeme;
    assert text[index..][..1] == [text[index]];
  }

  lemma RenderCases(sc: Scanner, l: Lexeme)
    ensures Render(sc, Tidy(l)) ==
      if l.kind == CommentText then Strip(Squeeze(l.raw))
      else if l.kind.Literal? then NormaliseLiteral(sc, l.raw)
      else l.raw
  {
    hide NormaliseLiteral, Squeeze, Strip;
  }

  /** The line feed that ends a comment is skipped like any whitespace. */
  lemma LineFeedIsSkipped(sc: Scanner, text: string, index: nat)
    requires index < |text| ==> text[index] == '\n'
    ensures PiecesFrom(sc, text, index + 1) == PiecesFrom(sc, text, index)
  {
    hide Render, Tidy;
    if index < |text| {
      KeptStep(sc, text, index);
      assert [] + PiecesFrom(sc, text, index + 1) == PiecesFrom(sc, text, index + 1);
    }
  }

  method CommentEnd(text: string, index: nat) returns (end: nat)
    requires index < |text|
    ensures end == index + LineLength(text[index..])
  {
    end := index;
    while end < |text| && text[end] != '\n'
      invariant index <= end <= |text|
      invariant LineLength(text[index..]) == end - index + LineLength(text[end..])
    {
      assert text[end..][1..] == text[end + 1..];
      end := end + 1;
    }
  }

  /** One turn of the lexer loop: the piece it adds, if any, and the next position. */
  method NextPiece(sc: Scanner, text: string, index: nat) returns (piece: seq<string>, next: nat)
    requires index < |text|
    ensures index < next
    ensures PiecesFrom(sc, text, index) == piece + PiecesFrom(sc, text, next)
    decreases |text|, 2
  {
    hide LiteralLength, LineLength, Scanner.PlainLexeme, Scanner.NextLexeme, PiecesFrom, Render, Tidy, IsSpace,
      NormaliseLiteral, Strip, Squeeze, StartsLiteral, EndsLiteral;
    LexemeCases(sc, text, index);
    KeptStep(sc, text, index);
    ghost var l := sc.NextLexeme(text[index..]);
    RenderCases(sc, l);
    var character := text[index];
    if IsSpace(character) {
      return [], index + 1;
    }
    if character == '#' {
      var end := CommentEnd(text, index);
      SliceOfSuffix(text, index, end);
      LineFeedIsSkipped(sc, text, end);
      return [Strip(Squeeze(text[index..end]))], end + 1;
    }
    var literalEnd := StringLiteralEnd(text, index);
    if literalEnd.Some? {
      SliceOfSuffix(text, index, literalEnd.value);
      var literal := NormaliseStringLiteral(sc, text[index..literalEnd.value]);
      return [literal], literalEnd.value;
    }
    assert l.raw == sc.PlainLexeme(text[index..]).raw;
    var end := PlainEnd(sc, text, index);
    return [text[index..end]], end;
  }

  /** The end of an operator, number, name or single character. */
  method PlainEnd(sc: Scanner, text: string, index: nat) returns (end: nat)
    requires index < |text|
    ensures index < end <= |text| && text[index..end] == sc.PlainLexeme(text[index..]).raw
  {
    hide FirstOperator, Scanner.WordRun;
    ghost var s := text[index..];
    var character := text[index];
    assert s[1..] == text[index + 1..] && s[..1] == text[index..index + 1];
    var operator := FirstOperator(text[index..], OPERATORS);
    if operator.Some? {
      end := index + |operator.value|;
    } else if sc.digit(character) {
      end := WordEnd(sc, text, index + 1, true);
    } else if sc.alpha(character) || character == '_' {
      end := WordEnd(sc, text, index + 1, false);
    } else {
      end := index + 1;
    }
    SliceOfSuffix(text, index, end);
    if operator.Some? {
      OperatorsAreVisible(operator.value);
    }
  }

  method NormaliseFragmentLexically(sc: Scanner, text: string) returns (r: string)
    ensures r == LexicalText(sc, text)
    decreases |text|, 3
  {
    hide PiecesFrom, LexicalText;
    LexicalTextIsKept(sc, text);
    var pieces: seq<string> := [];
    var index := 0;
    while index < |text|
      invariant PiecesFrom(sc, text, 0) == pieces + PiecesFrom(sc, text, index)
    {
      var piece, next := NextPiece(sc, text, index);
      Assoc(pieces, piece, PiecesFrom(sc, text, next));
      pieces := pieces + piece;
      index := next;
    }
    NothingKept(sc, text, index);
    assert pieces + [] == pieces;
    return Strip(Join(" ", NonEmpty(pieces)));
  }

  lemma NothingKept(sc: Scanner, text: string, index: nat)
    requires index >= |text|
    ensures PiecesFrom(sc, text, index) == []
  {}

  /** What the token loop still has to add. */
  ghost function StreamFrom(sc: Scanner, text: string, tokens: seq<Token>, depth: nat, start: nat): seq<string> {
    RenderedAll(sc, StreamLexemes(text, tokens, depth, start))
  }

  lemma StreamStep(sc: Scanner, text: string, tokens: seq<Token>, i: nat, depth: nat, start: nat)
    requires i < |tokens|
    ensures var token, rest := tokens[i], tokens[i + 1..];
      StreamFrom(sc, text, tokens[i..], depth, start) ==
        if token.kind == FStringStart then
          StreamFrom(sc, text, rest, depth + 1, if depth == 0 then token.start else start)
        else if depth > 0 then
          (if token.kind == FStringEnd && depth == 1 then [NormaliseLiteral(sc, Slice(text, start, token.end))] else [])
          + StreamFrom(sc, text, rest, if token.kind == FStringEnd then depth - 1 else depth, start)
        else if token.kind == LayoutToken then StreamFrom(sc, text, rest, 0, start)
        else
          [if token.kind == CommentToken then Strip(Squeeze(Slice(text, token.start, token.end)))
           else if token.kind == StringToken then NormaliseLiteral(sc, Slice(text, token.start, token.end))
           else Slice(text, token.start, token.end)] + StreamFrom(sc, text, rest, 0, start)
  {
    hide NormaliseLiteral, Squeeze, Strip, RenderedAll;
    var token, rest := tokens[i], tokens[i + 1..];
    assert tokens[i..][1..] == rest && tokens[i..][0] == token;
    assert [] + StreamFrom(sc, text, rest, depth, start) == StreamFrom(sc, text, rest, depth, start);
    if token.kind != FStringStart && depth > 0 && token.kind == FStringEnd {
      var tail := StreamLexemes(text, rest, depth - 1, start);
      assert [] + tail == tail && [] + RenderedAll(sc, tail) == RenderedAll(sc, tail);
      RenderedAllCons(sc, Lexeme(Literal(true), Slice(text, start, token.end)), tail);
    } else if token.kind != FStringStart && depth == 0 && token.kind != LayoutToken {
      var kind := match token.kind
        case CommentToken => CommentText
        case StringToken => Literal(true)
        case _ => Plain;
      RenderedAllCons(sc, Tidy(Lexeme(kind, Slice(text, token.start, token.end))), StreamLexemes(text, rest, 0, start));
    }
  }

  method NormaliseTokenStream(sc: Scanner, text: string, tokens: seq<Token>) returns (r: string)
    ensures r == StreamText(sc, text, tokens)
    decreases |text|, 3
  {
    hide StreamFrom, NormaliseLiteral, StreamText, Slice;
    StreamTextIsFrom(sc, text, tokens);
    var pieces: seq<string> := [];
    var fstringDepth: nat, fstringStart: nat := 0, 0;
    assert tokens[0..] == tokens;
    for i := 0 to |tokens|
      invariant StreamFrom(sc, text, tokens, 0, 0) ==
        pieces + StreamFrom(sc, text, tokens[i..], fstringDepth, fstringStart)
    {
      StreamStep(sc, text, tokens, i, fstringDepth, fstringStart);
      var token, piece := tokens[i], [];
      if token.kind == FStringStart {
        if fstringDepth == 0 {
          fstringStart := token.start;
        }
        fstringDepth := fstringDepth + 1;
        continue;
      }
      if fstringDepth > 0 {
        if token.kind == FStringEnd {
          fstringDepth := fstringDepth - 1;
          if fstringDepth == 0 {
            var literal := NormaliseStringLiteral(sc, Slice(text, fstringStart, token.end));
            piece := [literal];
          }
        }
      } else if token.kind == LayoutToken {
        continue;
      } else {
        var value := Slice(text, token.start, token.end);
        if token.kind == CommentToken {
          value := Strip(Squeeze(value));
        } else if token.kind == StringToken {
          value := NormaliseStringLiteral(sc, value);
        }
        piece := [value];
      }
      Assoc(pieces, piece, StreamFrom(sc, text, tokens[i + 1..], fstringDepth, fstringStart));
      pieces := pieces + piece;
    }
    assert tokens[|tokens|..] == [];
    NothingStreamed(sc, text, fstringDepth, fstringStart);
    assert pieces + [] == pieces;
    return Strip(Join(" ", pieces));
  }

  lemma StreamTextIsFrom(sc: Scanner, text: string, tokens: seq<Token>)
    ensures StreamText(sc, text, tokens) == Strip(Join(" ", StreamFrom(sc, text, tokens, 0, 0)))
  {
    hide Render;
    var ls := StreamLexemes(text, tokens, 0, 0);
    assert RenderedAll(sc, ls) == seq(|ls|, i requires 0 <= i < |ls| => Render(sc, ls[i]));
  }

  lemma NothingStreamed(sc: Scanner, text: string, depth: nat, start: nat)
    ensures StreamFrom(sc, text, [], depth, start) == []
  {}

  /** `_normalise_fragment`: the token stream when it is complete, the lexer otherwise. */
  method NormaliseSourceFragment(sc: Scanner, fragment: string) returns (r: string)
    ensures r == NormaliseFragment(sc, fragment)
    decreases |fragment|, 4
  {
    hide LexicalText, StreamText, OperatorTexts, Unclosed;
    var text := UnifyNewlines(fragment);
    var tokenization := sc.tokenize(text);
    var unclosed := HasUnclosedDelimiter(text, tokenization.tokens);
    if tokenization.failed || tokenization.tokens == []
       || (exists token <- tokenization.tokens :: token.kind == ErrorToken) || unclosed {
      r := NormaliseFragmentLexically(sc, text);
    } else {
      r := NormaliseTokenStream(sc, text, tokenization.tokens);
    }
  }
}
