/**
 Laws of the lexer in FragmentScanner: lexemes tile the text, and a lexeme does not depend on what
 follows it beyond its own lookahead.
 */
module FragmentLexing {
  import opened Wrappers
  import opened Text
  import opened FragmentScanner

  lemma NextKind(sc: Scanner, s: string)
    requires s != ""
    ensures var l := sc.NextLexeme(s);
      l.raw[0] == s[0] && (l.kind == Space <==> IsSpace(s[0])) && (l.kind == Space ==> |l.raw| == 1)
  {}

  /** The lexemes cover the text without gap or overlap; whitespace is exactly what is skipped. */
  lemma {:induction false} LexemesTile(sc: Scanner, s: string)
    ensures Concat(Raw(sc.Lexemes(s))) == s
    ensures forall l <- sc.Lexemes(s) :: l.raw != "" && (l.kind == Space <==> IsSpace(l.raw[0]))
    ensures forall l <- sc.Lexemes(s) :: l.kind == Space ==> |l.raw| == 1
    decreases |s|
  {
    if s != "" {
      NextKind(sc, s);
      hide Scanner.NextLexeme, IsSpace;
      var l := sc.NextLexeme(s);
      var rest := s[|l.raw|..];
      LexemesTile(sc, rest);
      assert l.raw + rest == s;
      RawCons(l, sc.Lexemes(rest));
    }
  }

  lemma RawCons(l: Lexeme, ls: seq<Lexeme>)
    ensures Concat(Raw([l] + ls)) == l.raw + Concat(Raw(ls))
  {
    assert Raw([l] + ls)[1..] == Raw(ls);
  }

  /** `z` is `y` cut short: after a common part it stops, or goes on with whitespace. */
  ghost predicate CutShort(y: string, x: string, z: string) {
    x <= y && x <= z && (|z| > |x| ==> IsSpace(z[|x|]))
  }

  lemma PrefixInCut(raw: string, y: string, x: string, z: string, op: string)
    requires CutShort(y, x, z) && Visible(op) && op <= raw + z
    ensures op <= raw + y
  {
    var k := |raw| + |x|;
    assert |op| <= k by {
      assert k < |raw + z| ==> IsSpace((raw + z)[k]);
    }
    forall i | 0 <= i < |op| ensures op[i] == (raw + y)[i] {
      assert op[i] == (raw + z)[i];
    }
  }

  lemma {:induction false} FirstOperatorCut(raw: string, y: string, x: string, z: string, ops: seq<string>)
    requires CutShort(y, x, z) && forall op <- ops :: Visible(op)
    requires FirstOperator(raw + y, ops).Some? ==> FirstOperator(raw + y, ops).value <= raw
    ensures FirstOperator(raw + z, ops) == FirstOperator(raw + y, ops)
  {
    if ops != [] {
      assert ops[0] in ops;
      if ops[0] <= raw + z {
        PrefixInCut(raw, y, x, z, ops[0]);
      }
      if ops[0] <= raw + y {
        assert ops[0] <= raw;
      } else {
        assert forall op <- ops[1..] :: op in ops;
        FirstOperatorCut(raw, y, x, z, ops[1..]);
      }
    }
  }

  lemma {:induction false} WordRunCut(sc: Scanner, raw: string, y: string, x: string, z: string, dots: bool)
    requires sc.Valid() && CutShort(y, x, z)
    requires sc.WordRun(raw + y, dots) == |raw|
    ensures sc.WordRun(raw + z, dots) == |raw|
  {
    if raw == "" {
      assert raw + y == y && raw + z == z;
    } else {
      assert (raw + y)[1..] == raw[1..] + y && (raw + z)[1..] == raw[1..] + z;
      WordRunCut(sc, raw[1..], y, x, z, dots);
    }
  }

  lemma {:induction false} CloseAfterCut(t: string, y: string, z: string, delimiter: string)
    requires delimiter != "" && CloseAfter(t + y, delimiter).Some? && CloseAfter(t + y, delimiter).value <= |t|
    ensures CloseAfter(t + z, delimiter) == CloseAfter(t + y, delimiter)
    decreases |t|
  {
    assert t != "" && (t + y)[0] == t[0] == (t + z)[0];
    if t[0] != '\\' && delimiter <= t + y {
      assert delimiter <= t;
    } else {
      var k := if t[0] == '\\' then 2 else 1;
      assert t[0] != '\\' && delimiter <= t + z ==> delimiter <= t;
      DropInto(t, y, k);
      DropInto(t, z, k);
      CloseAfterCut(t[k..], y, z, delimiter);
    }
  }

  lemma DropInto(t: string, y: string, k: nat)
    requires k <= |t|
    ensures (t + y)[k..] == t[k..] + y
  {}

  lemma {:induction false} PrefixRunWithin(raw: string, y: string, z: string)
    requires PrefixRun(raw + y) < |raw|
    ensures PrefixRun(raw + z) == PrefixRun(raw + y)
  {
    if PrefixRun(raw + y) > 0 {
      assert (raw + y)[1..] == raw[1..] + y && (raw + z)[1..] == raw[1..] + z;
      PrefixRunWithin(raw[1..], y, z);
    }
  }

  lemma {:induction false} PrefixRunWhole(raw: string, z: string)
    requires forall c <- raw :: IsPrefixLetter(c)
    requires z != "" ==> !IsPrefixLetter(z[0])
    ensures PrefixRun(raw + z) == |raw|
  {
    if raw == "" {
      assert raw + z == z;
    } else {
      assert (raw + z)[1..] == raw[1..] + z;
      PrefixRunWhole(raw[1..], z);
    }
  }

  lemma DelimiterCut(t: string, y: string, x: string, z: string)
    requires CutShort(y, x, z) && t != "" && IsQuote(t[0])
    requires 2 * |Delimiter(t + y)| <= |t|
    ensures Delimiter(t + z) == Delimiter(t + y)
  {
    var triple := [t[0], t[0], t[0]];
    if triple <= t + z {
      PrefixInCut(t, y, x, z, triple);
    }
    if triple <= t + y {
      assert triple <= t;
    }
  }

  lemma QuotedCut(t: string, y: string, x: string, z: string)
    requires CutShort(y, x, z) && t != "" && IsQuote(t[0])
    requires Quoted(t + y) == Span(|t|, true)
    ensures Quoted(t + z) == Span(|t|, true)
  {
    var d := Delimiter(t + y);
    DelimiterCut(t, y, x, z);
    DropInto(t, y, |d|);
    DropInto(t, z, |d|);
    CloseAfterCut(t[|d|..], y, z, d);
  }

  lemma LiteralPrefix(s: string)
    requires LiteralSpan(s).Some?
    ensures PrefixLength(s) == PrefixRun(s) < |s| && IsQuote(s[PrefixRun(s)])
  {
    assert PrefixLength(s) == 0 ==> !IsPrefixLetter(s[0]);
  }

  lemma ClosedLiteralCut(raw: string, y: string, x: string, z: string)
    requires CutShort(y, x, z)
    requires LiteralSpan(raw + y) == Some(Span(|raw|, true))
    ensures LiteralSpan(raw + z) == Some(Span(|raw|, true))
  {
    hide Quoted, IsQuote, CutShort;
    LiteralPrefix(raw + y);
    var p := PrefixRun(raw + y);
    PrefixRunWithin(raw, y, z);
    DropInto(raw, y, p);
    DropInto(raw, z, p);
    assert (raw + y)[p] == raw[p] == (raw + z)[p] == raw[p..][0];
    QuotedCut(raw[p..], y, x, z);
  }

  lemma NoLiteralCut(sc: Scanner, raw: string, y: string, x: string, z: string)
    requires sc.Valid() && CutShort(y, x, z) && raw != ""
    requires LiteralSpan(raw + y).None? && sc.PlainLexeme(raw + y).raw == raw
    ensures LiteralSpan(raw + z).None?
  {
    var p := PrefixRun(raw + y);
    if p < |raw| {
      PrefixRunWithin(raw, y, z);
      assert (raw + y)[p] == raw[p] == (raw + z)[p];
      assert (raw + y)[0] == raw[0] == (raw + z)[0];
    } else {
      forall c | c in raw ensures IsPrefixLetter(c) {
        var i :| 0 <= i < |raw| && raw[i] == c;
        assert (raw + y)[i] == c;
      }
      // Only a word can be all prefix letters, and a word stops before the next letter.
      PrefixWordStops(sc, raw, y);
      PrefixRunWhole(raw, y);
      PrefixWordNoLiteral(raw, y, x, z);
    }
  }

  lemma PrefixWordNoLiteral(raw: string, y: string, x: string, z: string)
    requires CutShort(y, x, z) && raw != "" && (forall c <- raw :: IsPrefixLetter(c))
    requires y != "" ==> !IsPrefixLetter(y[0])
    requires PrefixRun(raw + y) == |raw| && LiteralSpan(raw + y).None?
    ensures LiteralSpan(raw + z).None?
  {
    assert z != "" ==> if x == "" then IsSpace(z[0]) else z[0] == y[0];
    PrefixRunWhole(raw, z);
    assert raw[0] in raw;
    assert y != "" ==> (raw + y)[|raw|] == y[0];
    assert z != "" ==> (raw + z)[|raw|] == z[0];
    assert (raw + z)[0] == raw[0];
  }

  lemma PrefixWordStops(sc: Scanner, raw: string, y: string)
    requires sc.Valid() && raw != "" && (forall c <- raw :: IsPrefixLetter(c))
    requires sc.PlainLexeme(raw + y).raw == raw
    ensures y != "" ==> !IsPrefixLetter(y[0])
  {
    assert raw[0] in raw && (raw + y)[0] == raw[0];
    if FirstOperator(raw + y, OPERATORS).Some? {
      OperatorsAreVisible(FirstOperator(raw + y, OPERATORS).value);
    } else {
      assert sc.alpha(raw[0]);
      DropInto(raw, y, 1);
      assert y != "" ==> (raw[1..] + y)[|raw| - 1] == y[0];
    }
  }

  lemma AllOperatorsVisible()
    ensures forall op <- OPERATORS :: Visible(op)
  {
    forall op | op in OPERATORS ensures Visible(op) {
      OperatorsAreVisible(op);
    }
  }

  lemma OperatorCut(sc: Scanner, raw: string, y: string, x: string, z: string)
    requires CutShort(y, x, z) && raw != "" && sc.PlainLexeme(raw + y).raw == raw
    ensures FirstOperator(raw + z, OPERATORS) == FirstOperator(raw + y, OPERATORS)
  {
    hide Visible, IsSpace, Scanner.WordRun;
    AllOperatorsVisible();
    FirstOperatorCut(raw, y, x, z, OPERATORS);
  }

  lemma PlainCut(sc: Scanner, raw: string, y: string, x: string, z: string)
    requires sc.Valid() && CutShort(y, x, z) && raw != ""
    requires sc.PlainLexeme(raw + y).raw == raw
    ensures sc.PlainLexeme(raw + z) == sc.PlainLexeme(raw + y)
  {
    OperatorCut(sc, raw, y, x, z);
    hide FirstOperator, IsSpace, Scanner.WordRun;
    assert (raw + y)[0] == raw[0] == (raw + z)[0];
    assert (raw + y)[..1] == raw[..1] == (raw + z)[..1];
    if FirstOperator(raw + y, OPERATORS).None? && (sc.digit(raw[0]) || sc.alpha(raw[0]) || raw[0] == '_') {
      WordCut(sc, raw, y, x, z, sc.digit(raw[0]));
    }
  }

  lemma WordCut(sc: Scanner, raw: string, y: string, x: string, z: string, dots: bool)
    requires sc.Valid() && CutShort(y, x, z) && raw != ""
    requires (raw + y)[..1 + sc.WordRun((raw + y)[1..], dots)] == raw
    ensures (raw + z)[..1 + sc.WordRun((raw + z)[1..], dots)] == raw
  {
    DropInto(raw, y, 1);
    DropInto(raw, z, 1);
    assert 1 + sc.WordRun(raw[1..] + y, dots) == |raw|;
    WordRunCut(sc, raw[1..], y, x, z, dots);
  }

  lemma {:induction false} LineLengthWhole(raw: string, z: string)
    requires '\n' !in raw && (z != "" ==> z[0] == '\n')
    ensures LineLength(raw + z) == |raw|
  {
    if raw == "" {
      assert raw + z == z;
    } else {
      assert (raw + z)[1..] == raw[1..] + z;
      assert (raw + z)[0] == raw[0] && raw[0] in raw;
      LineLengthWhole(raw[1..], z);
    }
  }

  /**
   A lexeme keeps its kind and extent when the text after it is cut short by whitespace or by the
   end, unless it is an unterminated literal or a comment that the cut would lengthen.
   */
  lemma LexemeStable(sc: Scanner, raw: string, y: string, x: string, z: string)
    requires sc.Valid() && CutShort(y, x, z) && raw != ""
    requires sc.NextLexeme(raw + y).raw == raw
    requires var kind := sc.NextLexeme(raw + y).kind;
      kind != Literal(false) && (kind == CommentText && x == "" ==> z == "")
    ensures sc.NextLexeme(raw + z) == sc.NextLexeme(raw + y)
  {
    var s, s' := raw + y, raw + z;
    assert s[0] == s'[0] == raw[0];
    if IsSpace(s[0]) {
      assert s[..1] == raw[..1] == s'[..1];
    } else if s[0] == '#' {
      assert raw == s[..LineLength(s)];
      assert y != "" ==> s[|raw|] == y[0];
      LineLengthWhole(raw, z);
      assert s'[..|raw|] == raw;
    } else if LiteralSpan(s).Some? {
      ClosedLiteralCut(raw, y, x, z);
      assert s'[..|raw|] == raw == s[..|raw|];
    } else {
      NoLiteralCut(sc, raw, y, x, z);
      PlainCut(sc, raw, y, x, z);
    }
  }
}
