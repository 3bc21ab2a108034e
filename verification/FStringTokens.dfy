/**
 Two ways the standard tokenizer reports an f-string: as one string token, or as a start, an end and
 what lies between them. Both give one normal form (scripts/check_duplicate_code_ratchet.py).
 */
module FStringTokens {
  import opened Text
  import opened FragmentScanner
  import opened FragmentNormaliser

  /** Tokens inside an f-string that close every f-string they open, and only those. */
  ghost predicate Enclosed(tokens: seq<Token>, depth: nat) {
    if tokens == [] then depth == 0
    else match tokens[0].kind
      case FStringStart => Enclosed(tokens[1..], depth + 1)
      case FStringEnd => depth > 0 && Enclosed(tokens[1..], depth - 1)
      case _ => Enclosed(tokens[1..], depth)
  }

  /** Outside f-strings it does not matter where the last one started. */
  lemma {:induction false} StartIsForgotten(text: string, tokens: seq<Token>, start: nat, other: nat)
    ensures StreamLexemes(text, tokens, 0, start) == StreamLexemes(text, tokens, 0, other)
  {
    hide Slice, Tidy;
    if tokens != [] && tokens[0].kind != FStringStart {
      StartIsForgotten(text, tokens[1..], start, other);
    }
  }

  /** What lies inside an f-string adds nothing, and leaves the depth as it was. */
  lemma {:induction false} InsideAddsNothing(
      text: string, inside: seq<Token>, after: seq<Token>, depth: nat, outer: nat, start: nat)
    requires Enclosed(inside, depth) && outer >= 1
    ensures StreamLexemes(text, inside + after, outer + depth, start) == StreamLexemes(text, after, outer, start)
  {
    hide Slice, Tidy;
    if inside == [] {
      assert inside + after == after;
    } else {
      var rest := inside[1..] + after;
      assert (inside + after)[1..] == rest && (inside + after)[0] == inside[0];
      var closed := StreamLexemes(text, rest, outer + depth - 1, start);
      assert [] + closed == closed;
      match inside[0].kind
      case FStringStart => InsideAddsNothing(text, inside[1..], after, depth + 1, outer, start);
      case FStringEnd => InsideAddsNothing(text, inside[1..], after, depth - 1, outer, start);
      case _ => InsideAddsNothing(text, inside[1..], after, depth, outer, start);
    }
  }

  /** A whole f-string, whatever is nested inside it, reads as the one string token of its extent. */
  lemma WholeFString(text: string, first: Token, inside: seq<Token>, last: Token, after: seq<Token>)
    requires first.kind == FStringStart && last.kind == FStringEnd && Enclosed(inside, 0)
    ensures StreamLexemes(text, [first] + (inside + ([last] + after)), 0, 0)
      == StreamLexemes(text, [Token(StringToken, first.start, last.end)] + after, 0, 0)
  {
    hide Slice;
    var tail := [last] + after;
    assert ([first] + (inside + tail))[1..] == inside + tail;
    InsideAddsNothing(text, inside, tail, 0, 1, first.start);
    assert tail[1..] == after;
    StartIsForgotten(text, after, first.start, 0);
    assert ([Token(StringToken, first.start, last.end)] + after)[1..] == after;
  }

  /** A stream in which every f-string is complete reads apart from what follows it. */
  lemma {:induction false} ReadsApart(text: string, before: seq<Token>, after: seq<Token>, depth: nat, start: nat)
    requires Enclosed(before, depth)
    ensures StreamLexemes(text, before + after, depth, start)
      == StreamLexemes(text, before, depth, start) + StreamLexemes(text, after, 0, 0)
  {
    hide Slice, Tidy;
    if before == [] {
      assert before + after == after;
      StartIsForgotten(text, after, start, 0);
    } else {
      var all, head, rest := before + after, before[0], before[1..];
      assert all[1..] == rest + after && all[0] == head;
      match head.kind
      case FStringStart => ReadsApart(text, rest, after, depth + 1, if depth == 0 then head.start else start);
      case FStringEnd =>
        ReadsApart(text, rest, after, depth - 1, start);
        var own := if depth == 1 then [Lexeme(Literal(true), Slice(text, start, head.end))] else [];
        Assoc(own, StreamLexemes(text, rest, depth - 1, start), StreamLexemes(text, after, 0, 0));
      case _ =>
        ReadsApart(text, rest, after, depth, start);
    }
  }

  /**
   The two shapes agree: in any stream, replacing a whole f-string by the one string token of its
   extent leaves the normal form as it was.
   */
  lemma FStringShapesAgree(
      sc: Scanner, text: string, before: seq<Token>, first: Token, inside: seq<Token>, last: Token, after: seq<Token>)
    requires Enclosed(before, 0) && Enclosed(inside, 0) && first.kind == FStringStart && last.kind == FStringEnd
    ensures StreamText(sc, text, before + ([first] + (inside + ([last] + after))))
      == StreamText(sc, text, before + ([Token(StringToken, first.start, last.end)] + after))
  {
    hide Enclosed, StreamLexemes, Render;
    var split, whole := [first] + (inside + ([last] + after)), [Token(StringToken, first.start, last.end)] + after;
    WholeFString(text, first, inside, last, after);
    ReadsApart(text, before, split, 0, 0);
    ReadsApart(text, before, whole, 0, 0);
    SameLexemesSameText(sc, text, before + split, before + whole);
  }

  lemma SameLexemesSameText(sc: Scanner, text: string, xs: seq<Token>, ys: seq<Token>)
    requires StreamLexemes(text, xs, 0, 0) == StreamLexemes(text, ys, 0, 0)
    ensures StreamText(sc, text, xs) == StreamText(sc, text, ys)
  {
    hide StreamLexemes, Render;
    var ls := StreamLexemes(text, xs, 0, 0);
    assert seq(|ls|, i requires 0 <= i < |ls| => Render(sc, ls[i]))
      == seq(|ls|, i requires 0 <= i < |ls| => Render(sc, ls[i]));
  }
}
