/**
 What the lexer and the f-string reader recognise (scripts/check_duplicate_code_ratchet.py), told from
 the texts themselves: the next lexeme, the whitespace of a comment, and the parts of an f-string.
 */
module FragmentShapes {
  import opened Wrappers
  import opened Text
  import opened FragmentScanner
  import opened FragmentLiterals
  import opened FragmentNormaliser

  // ----- the next lexeme -----

  ghost predicate IsOperator(op: string) {
    exists i :: 0 <= i < |OPERATORS| && OPERATORS[i] == op
  }

  lemma {:induction false} FirstIsLongest(s: string, operators: seq<string>)
    requires forall i, j :: 0 <= i < j < |operators| ==> |operators[i]| >= |operators[j]|
    ensures FirstOperator(s, operators).None? <==> forall i :: 0 <= i < |operators| ==> !(operators[i] <= s)
    ensures FirstOperator(s, operators).Some? ==>
      forall i :: 0 <= i < |operators| && operators[i] <= s ==> |operators[i]| <= |FirstOperator(s, operators).value|
  {
    if operators != [] {
      FirstIsLongest(s, operators[1..]);
      forall i | 0 < i < |operators| ensures operators[i] == operators[1..][i - 1] {}
    }
  }

  lemma LongestComeFirst()
    ensures forall i, j :: 0 <= i < j < |OPERATORS| ==> |OPERATORS[i]| >= |OPERATORS[j]|
  {
    assert forall i :: 0 <= i < 5 ==> |OPERATORS[i]| == 3;
    assert forall i :: 5 <= i < 24 ==> |OPERATORS[i]| == 2;
  }

  /** The operator is the longest that stands here. */
  ghost predicate LongestOperator(s: string, op: string) {
    IsOperator(op) && op <= s && forall other :: IsOperator(other) && other <= s ==> |other| <= |op|
  }

  lemma OperatorExactly(s: string)
    ensures FirstOperator(s, OPERATORS).Some? ==> LongestOperator(s, FirstOperator(s, OPERATORS).value)
    ensures FirstOperator(s, OPERATORS).None? ==> forall op :: IsOperator(op) ==> !(op <= s)
  {
    hide FirstOperator, OPERATORS;
    LongestComeFirst();
    FirstIsLongest(s, OPERATORS);
  }

  /** `raw` is the longest run of word characters at the head of `s`. */
  ghost predicate LongestWord(sc: Scanner, s: string, raw: string, dots: bool) {
    && raw <= s && (forall i :: 0 < i < |raw| ==> sc.alnum(raw[i]) || raw[i] == '_' || (dots && raw[i] == '.'))
    && (|raw| < |s| ==> var c := s[|raw|]; !(sc.alnum(c) || c == '_' || (dots && c == '.')))
  }

  /** What a lexeme that is no space, comment or literal looks like. */
  ghost predicate IsPlain(sc: Scanner, s: string, raw: string) {
    if IsOperator(raw) then LongestOperator(s, raw)
    else
      && (forall op :: IsOperator(op) ==> !(op <= s))
      && raw != "" && raw <= s
      && if sc.digit(s[0]) then LongestWord(sc, s, raw, true)
         else if sc.alpha(s[0]) || s[0] == '_' then LongestWord(sc, s, raw, false)
         else |raw| == 1
  }

  lemma PlainIsPlain(sc: Scanner, s: string)
    requires s != ""
    ensures IsPlain(sc, s, sc.PlainLexeme(s).raw)
  {
    hide FirstOperator, OPERATORS, LongestOperator;
    OperatorExactly(s);
    if FirstOperator(s, OPERATORS).Some? {
      assert IsOperator(FirstOperator(s, OPERATORS).value) by { AnOperator(FirstOperator(s, OPERATORS).value); }
    } else {
      var raw := sc.PlainLexeme(s).raw;
      assert !IsOperator(raw);
      forall i | 0 < i < |raw| ensures raw[i] == s[1..][i - 1] {}
      assert |raw| < |s| ==> s[|raw|] == s[1..][|raw| - 1];
    }
  }

  lemma AnOperator(op: string)
    requires op in OPERATORS
    ensures IsOperator(op)
  {}

  /** A text is read as space, comment, literal or something plain, in this order; each ends where it must. */
  lemma NextExactly(sc: Scanner, s: string)
    requires s != ""
    ensures var l := sc.NextLexeme(s);
      if IsSpace(s[0]) then l == Lexeme(Space, s[..1])
      else if s[0] == '#' then
        l.kind == CommentText && '\n' !in l.raw && (|l.raw| < |s| ==> s[|l.raw|] == '\n')
      else if StartsLiteral(s) then l.kind.Literal? && LiteralExtent(s, |l.raw|, l.kind.closed)
      else l.kind == Plain && IsPlain(sc, s, l.raw)
  {
    hide IsPlain, Scanner.PlainLexeme, LiteralExtent, StartsLiteral, LiteralSpan, IsSpace;
    LengthExactly(s);
    if LiteralSpan(s).Some? {
      ExtentOf(s);
    }
    PlainIsPlain(sc, s);
  }

  // ----- the whitespace of a comment -----

  lemma {:induction false} SqueezeVisible(v: string, t: string)
    requires Visible(v)
    ensures Squeeze(v + t) == v + Squeeze(t)
  {
    hide IsSpace;
    if v == "" {
      assert v + t == t;
    } else {
      assert (v + t)[1..] == v[1..] + t;
      SqueezeVisible(v[1..], t);
      assert [v[0]] + (v[1..] + Squeeze(t)) == v + Squeeze(t);
    }
  }

  /** Visible text stays, and a run of whitespace becomes one space. */
  lemma SqueezeRun(v: string, w: string, t: string)
    requires Visible(v) && AllSpace(w) && w != "" && (t != "" ==> !IsSpace(t[0]))
    ensures Squeeze(v + (w + t)) == v + " " + Squeeze(t) && Squeeze(v) == v
  {
    hide Squeeze, IsSpace, AllSpace, Visible;
    SqueezeVisible(v, w + t);
    GapSqueezed(w, t);
    Assoc(v, " ", Squeeze(t));
    SqueezeVisible(v, "");
    assert v + "" == v && Squeeze("") == "" by { NothingToSqueeze(); }
  }

  lemma NothingToSqueeze()
    ensures Squeeze("") == ""
  {}

  lemma GapSqueezed(w: string, t: string)
    requires AllSpace(w) && w != "" && (t != "" ==> !IsSpace(t[0]))
    ensures Squeeze(w + t) == " " + Squeeze(t)
  {
    assert IsSpace(w[0]);
    hide IsSpace;
    assert (w + t)[1..] == w[1..] + t && (w + t)[0] == w[0];
    LStripDrops(w[1..], t);
    assert LStrip(t) == t;
  }

  // ----- the shape of a literal -----

  ghost predicate MarksFString(prefix: string) {
    IsPrefix(prefix) && exists i :: 0 <= i < |prefix| && (prefix[i] == 'f' || prefix[i] == 'F')
  }

  lemma PrefixEnds(prefix: string, t: string)
    requires IsPrefix(prefix) && t != "" && !IsPrefixLetter(t[0])
    ensures PrefixRun(prefix + t) == |prefix| && (prefix + t)[..|prefix|] == prefix && (prefix + t)[|prefix|..] == t
  {
    PrefixIs(prefix + t, |prefix|);
  }

  lemma MarkedExactly(prefix: string)
    requires IsPrefix(prefix)
    ensures 'f' in prefix || 'F' in prefix <==> MarksFString(prefix)
  {}

  /** Without an `f` among its prefix letters a literal is kept as it is. */
  lemma OtherLiteralsStay(sc: Scanner, prefix: string, t: string)
    requires IsPrefix(prefix) && t != "" && !IsPrefixLetter(t[0]) && !MarksFString(prefix)
    ensures NormaliseLiteral(sc, prefix + t) == prefix + t
  {
    PrefixEnds(prefix, t);
    MarkedExactly(prefix);
    hide NormaliseBody;
  }

  lemma EndingOf(a: string, d: string)
    ensures EndsWith(a + d, d) && (a + d)[..|a + d| - |d|] == a && (a + d)[|a|..] == d
  {}

  /** An f-string in three quotes: only what stands between them is looked at. */
  lemma TripleFString(sc: Scanner, prefix: string, q: char, body: string)
    requires MarksFString(prefix) && IsQuote(q)
    ensures var d := [q, q, q];
      NormaliseLiteral(sc, prefix + (d + (body + d))) == prefix + d + NormaliseBody(sc, body) + d
  {
    var d := [q, q, q];
    var t := d + (body + d);
    PrefixEnds(prefix, t);
    MarkedExactly(prefix);
    assert Delimiter(t) == d by { assert t[0] == q && d <= t; }
    ShapeOf(prefix, d, body);
    hide NormaliseBody;
  }

  /** An f-string in single quotes. */
  lemma SingleFString(sc: Scanner, prefix: string, q: char, body: string)
    requires MarksFString(prefix) && IsQuote(q) && (body != "" ==> body[0] != q)
    ensures NormaliseLiteral(sc, prefix + ([q] + (body + [q]))) == prefix + [q] + NormaliseBody(sc, body) + [q]
  {
    var t := [q] + (body + [q]);
    PrefixEnds(prefix, t);
    MarkedExactly(prefix);
    assert Delimiter(t) == [q] by {
      assert |t| > 2 ==> t[1] == body[0];
    }
    ShapeOf(prefix, [q], body);
    hide NormaliseBody;
  }

  lemma ShapeOf(prefix: string, d: string, body: string)
    requires MarksFString(prefix) && d != "" && IsQuote(d[0])
    requires Delimiter(d + (body + d)) == d
    ensures Shape(prefix + (d + (body + d))) == FString(prefix + d, body, d)
  {
    var t := d + (body + d);
    var literal := prefix + t;
    PrefixEnds(prefix, t);
    MarkedExactly(prefix);
    hide PrefixRun, Delimiter, MarksFString, IsPrefix, IsQuote, EndsWith;
    Pieces(prefix, d, body);
    assert EndsWith(literal, d);
  }

  lemma Pieces(prefix: string, d: string, body: string)
    ensures var literal := prefix + (d + (body + d));
      && EndsWith(literal, d) && literal[..|prefix| + |d|] == prefix + d
      && Slice(literal, |prefix| + |d|, |literal| - |d|) == body && literal[|literal| - |d|..] == d
  {
    var front := prefix + d;
    Assoc(prefix, d, body + d);
    Assoc(front, body, d);
    EndingOf(front + body, d);
    hide EndsWith;
    assert (front + (body + d))[..|front|] == front;
    assert (front + body + d)[|front|..|front + body|] == body;
  }

  // ----- the parts of a body -----

  /** Doubled braces, and any character but an opening brace, are taken as they are. */
  lemma VerbatimParts(c: char, rest: string)
    ensures Parts("{{" + rest) == [Verbatim("{{")] + Parts(rest)
    ensures Parts("}}" + rest) == [Verbatim("}}")] + Parts(rest)
    ensures c != '{' && !(c == '}' && rest != "" && rest[0] == '}') ==>
      Parts([c] + rest) == [Verbatim([c])] + Parts(rest)
  {
    assert ("{{" + rest)[2..] == rest && ("{{" + rest)[..2] == "{{";
    assert ("}}" + rest)[2..] == rest && ("}}" + rest)[..2] == "}}";
    var s := [c] + rest;
    assert s[1..] == rest && s[..1] == [c];
    if c != '{' && !(c == '}' && rest != "" && rest[0] == '}') {
      assert !("{{" <= s) by { assert "{{"[0] == '{'; }
      assert !("}}" <= s) by { assert "}}"[0] == '}' == "}}"[1]; }
    }
  }

  /** The text closes every brace it opens, and only those, and holds no quotes. */
  ghost predicate ClosesBraces(e: string, depth: nat) {
    if e == "" then depth == 0
    else
      && !IsQuote(e[0])
      && if e[0] == '{' then ClosesBraces(e[1..], depth + 1)
         else if e[0] == '}' then depth > 0 && ClosesBraces(e[1..], depth - 1)
         else ClosesBraces(e[1..], depth)
  }

  lemma {:induction false} NoQuotesInside(e: string, depth: nat)
    requires ClosesBraces(e, depth)
    ensures forall i :: 0 <= i < |e| ==> !IsQuote(e[i])
  {
    hide IsQuote;
    if e != "" {
      NoQuotesInside(e[1..], if e[0] == '{' then depth + 1 else if e[0] == '}' then depth - 1 else depth);
      assert e == [e[0]] + e[1..];
    }
  }

  lemma NoLiteralBeforeBrace(e: string, rest: string)
    requires forall i :: 0 <= i < |e| ==> !IsQuote(e[i])
    ensures LiteralSpan(e + ("}" + rest)).None?
  {
    var s := e + ("}" + rest);
    assert s[|e|] == '}' && !IsPrefixLetter('}') && !IsQuote('}');
    assert forall i :: 0 <= i < |e| ==> s[i] == e[i];
    assert PrefixRun(s) <= |e|;
  }

  /** A field ends at the brace that closes it; braces inside are matched. */
  lemma {:induction false} FieldEndsAtItsBrace(e: string, rest: string, depth: nat)
    requires ClosesBraces(e, depth)
    ensures FieldEnd(e + ("}" + rest), depth) == Some(|e|)
  {
    var s := e + ("}" + rest);
    NoQuotesInside(e, depth);
    NoLiteralBeforeBrace(e, rest);
    hide LiteralSpan, IsQuote;
    if e != "" {
      assert s[1..] == e[1..] + ("}" + rest) && s[0] == e[0];
      FieldEndsAtItsBrace(e[1..], rest, if e[0] == '{' then depth + 1 else if e[0] == '}' then depth - 1 else depth);
    } else {
      assert s == "}" + rest;
    }
  }

  /** A field is what stands between an opening brace and the one that closes it. */
  lemma FieldParts(e: string, rest: string)
    requires ClosesBraces(e, 0) && (e != "" ==> e[0] != '{')
    ensures Parts("{" + (e + ("}" + rest))) == [Field(e)] + Parts(rest)
  {
    var tail := e + ("}" + rest);
    FieldEndsAtItsBrace(e, rest, 0);
    hide FieldEnd, ClosesBraces, FirstPart, Parts;
    assert tail[0] == (if e == "" then '}' else e[0]);
    FieldComesFirst(tail, |e|);
    PartsStep("{" + tail);
    assert tail[..|e|] == e;
    assert ("{" + tail)[|e| + 2..] == tail[|e| + 1..] == rest;
  }

  lemma FieldComesFirst(tail: string, n: nat)
    requires tail != "" && tail[0] != '{' && FieldEnd(tail, 0) == Some(n)
    ensures n < |tail| && FirstPart("{" + tail) == (Field(tail[..n]), n + 2)
  {
    var s := "{" + tail;
    hide FieldEnd;
    assert s[1..] == tail && s[1] == tail[0];
    NotDoubledBrace(s);
    assert s[1..1 + n] == tail[..n];
  }

  lemma NotDoubledBrace(s: string)
    requires s != "" && s[0] == '{' && (|s| > 1 ==> s[1] != '{')
    ensures !("{{" <= s) && !("}}" <= s)
  {
    assert "{{"[1] == '{' && "}}"[0] == '}';
  }

  lemma PartsStep(s: string)
    requires s != ""
    ensures Parts(s) == [FirstPart(s).0] + Parts(s[FirstPart(s).1..])
  {
    hide FirstPart;
  }

  /** A brace that nothing closes takes the rest of the body as it is. */
  lemma OpenFieldParts(tail: string)
    requires FieldEnd(tail, 0).None? && (tail != "" ==> tail[0] != '{')
    ensures Parts("{" + tail) == [Verbatim("{" + tail)]
  {
    var s := "{" + tail;
    hide FieldEnd;
    assert s[1..] == tail && s[0] == '{';
    assert |s| > 1 ==> s[1] == tail[0];
    NotDoubledBrace(s);
    assert FirstPart(s) == (Verbatim(s), |s|);
    assert s[|s|..] == "";
    assert Parts("") == [];
  }
}
