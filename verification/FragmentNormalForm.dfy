/**
 What the lexical normal form says about a text without f-strings and unterminated literals: when it
 is its own normal form, and when the lexemes can be read back from it. Comments decide both.
 */
module FragmentNormalForm {
  import opened Text
  import opened FragmentScanner
  import opened FragmentSqueeze
  import opened FragmentLexing
  import opened FragmentNormaliser
  import opened FragmentLayout

  // ----- ordinary lexemes -----

  predicate Ordinary(l: Lexeme) {
    l.kind == Plain || (l.kind == Literal(true) && Shape(l.raw).Whole?)
  }

  /** The lexeme occurs as such in some text. */
  ghost predicate Genuine(sc: Scanner, l: Lexeme) {
    l.raw != "" && exists y :: sc.NextLexeme(l.raw + y) == l
  }

  lemma {:induction false} LexemesAreGenuine(sc: Scanner, s: string)
    ensures forall l <- sc.Lexemes(s) :: Genuine(sc, l)
    decreases |s|
  {
    if s != "" {
      var l := sc.NextLexeme(s);
      assert s == l.raw + s[|l.raw|..];
      LexemesAreGenuine(sc, s[|l.raw|..]);
    }
  }

  lemma GenuineStands(sc: Scanner, l: Lexeme, z: string)
    requires sc.Valid() && Genuine(sc, l) && Ordinary(l) && (z != "" ==> IsSpace(z[0]))
    ensures sc.NextLexeme(l.raw + z) == l
  {
    hide Scanner.NextLexeme;
    var y :| sc.NextLexeme(l.raw + y) == l;
    LexemeStable(sc, l.raw, y, "", z);
  }

  lemma {:induction false} CloseEndsVisible(s: string, delimiter: string)
    requires delimiter != "" && !IsSpace(delimiter[|delimiter| - 1]) && CloseAfter(s, delimiter).Some?
    ensures !IsSpace(s[CloseAfter(s, delimiter).value - 1])
    decreases |s|
  {
    if !(s[0] != '\\' && delimiter <= s) {
      CloseEndsVisible(s[if s[0] == '\\' && |s| >= 2 then 2 else 1..], delimiter);
    }
  }

  lemma LiteralEndsVisible(s: string)
    requires LiteralSpan(s).Some? && LiteralSpan(s).value.closed
    ensures !IsSpace(s[LiteralSpan(s).value.length - 1])
  {
    hide Quoted, IsSpace, IsQuote;
    LiteralPrefix(s);
    var p := PrefixRun(s);
    QuotedEndsVisible(s[p..]);
    assert s[p..][Quoted(s[p..]).length - 1] == s[LiteralSpan(s).value.length - 1];
  }

  lemma QuotedEndsVisible(t: string)
    requires t != "" && IsQuote(t[0]) && Quoted(t).closed
    ensures !IsSpace(t[Quoted(t).length - 1])
  {
    var d := Delimiter(t);
    CloseEndsVisible(t[|d|..], d);
    assert t[|d|..][CloseAfter(t[|d|..], d).value - 1] == t[Quoted(t).length - 1];
  }

  lemma PlainEndsVisible(sc: Scanner, s: string)
    requires sc.Valid() && s != "" && !IsSpace(s[0])
    ensures !IsSpace(s[|sc.PlainLexeme(s).raw| - 1])
  {
    var raw := sc.PlainLexeme(s).raw;
    if FirstOperator(s, OPERATORS).Some? {
      OperatorsAreVisible(raw);
      assert raw[|raw| - 1] == s[|raw| - 1];
    } else if |raw| > 1 {
      assert s[1..][|raw| - 2] == s[|raw| - 1];
    }
  }

  lemma NotSpaceKind(sc: Scanner, s: string)
    requires s != "" && sc.NextLexeme(s).kind != Space
    ensures !IsSpace(s[0])
  {}

  lemma KindOf(sc: Scanner, s: string)
    requires s != ""
    ensures var l := sc.NextLexeme(s);
      && (l.kind == Plain ==> l == sc.PlainLexeme(s))
      && (l.kind == Literal(true) ==>
            LiteralSpan(s).Some? && LiteralSpan(s).value.closed && |l.raw| == LiteralSpan(s).value.length)
  {
    hide LiteralSpan, IsSpace;
  }

  lemma OrdinaryIsVisible(sc: Scanner, l: Lexeme)
    requires sc.Valid() && Genuine(sc, l) && Ordinary(l)
    ensures l.raw != "" && !IsSpace(l.raw[0]) && !IsSpace(l.raw[|l.raw| - 1])
  {
    hide Scanner.NextLexeme, Scanner.PlainLexeme, LiteralSpan, IsSpace, Shape;
    var y :| sc.NextLexeme(l.raw + y) == l;
    var s := l.raw + y;
    NotSpaceKind(sc, s);
    KindOf(sc, s);
    assert s[0] == l.raw[0] && s[|l.raw| - 1] == l.raw[|l.raw| - 1];
    if l.kind == Literal(true) {
      LiteralEndsVisible(s);
    } else {
      PlainEndsVisible(sc, s);
    }
  }

  // ----- what is kept of a tame text -----

  /** Neither an f-string nor an unterminated literal. */
  predicate Tame(l: Lexeme) {
    l.kind == CommentText || Ordinary(l)
  }

  ghost predicate TameText(sc: Scanner, s: string) {
    var ls := Kept(sc.Lexemes(s));
    forall i :: 0 <= i < |ls| ==> Tame(ls[i])
  }

  /** What a kept lexeme of a tame text looks like. */
  ghost predicate Sound(sc: Scanner, l: Lexeme) {
    && VisibleEnds(l.raw)
    && (l.kind == CommentText ==> l.raw[0] == '#' && '\n' !in l.raw && IsSqueezed(l.raw))
    && (l.kind == Plain ==> IsSqueezed(l.raw))
    && (l.kind == CommentText || (Ordinary(l) && Genuine(sc, l)))
  }

  ghost predicate AllSound(sc: Scanner, ls: seq<Lexeme>) {
    forall i :: 0 <= i < |ls| ==> Sound(sc, ls[i])
  }

  lemma PlainIsVisible(sc: Scanner, s: string)
    requires sc.Valid() && s != "" && !IsSpace(s[0])
    ensures Visible(sc.PlainLexeme(s).raw)
  {
    var raw := sc.PlainLexeme(s).raw;
    hide IsSpace;
    if FirstOperator(s, OPERATORS).Some? {
      OperatorsAreVisible(raw);
    } else {
      assert !IsSpace('_') && !IsSpace('.') by { UnderscoreIsVisible(); }
      forall i | 0 <= i < |raw| ensures !IsSpace(raw[i]) {
        assert raw[i] == s[i] && (i > 0 ==> s[i] == s[1..][i - 1]);
      }
    }
  }

  lemma GenuineComment(sc: Scanner, l: Lexeme)
    requires Genuine(sc, l) && l.kind == CommentText
    ensures l.raw != "" && l.raw[0] == '#'
  {
    var y :| sc.NextLexeme(l.raw + y) == l;
    assert (l.raw + y)[0] == l.raw[0];
  }

  lemma GenuinePlain(sc: Scanner, l: Lexeme)
    requires sc.Valid() && Genuine(sc, l) && l.kind == Plain
    ensures Visible(l.raw)
  {
    hide LiteralSpan, FirstOperator, IsSpace;
    var y :| sc.NextLexeme(l.raw + y) == l;
    NotSpaceKind(sc, l.raw + y);
    PlainIsVisible(sc, l.raw + y);
  }

  lemma TidyIsSound(sc: Scanner, m: Lexeme)
    requires sc.Valid() && Genuine(sc, m) && m.kind != Space && Tame(Tidy(m))
    ensures Sound(sc, Tidy(m))
  {
    hide Genuine, Shape, IsSqueezed, VisibleEnds, Squeeze, Strip;
    if m.kind == CommentText {
      GenuineComment(sc, m);
      TidyCommentIsSqueezed(m.raw);
    } else {
      OrdinaryIsVisible(sc, m);
      assert VisibleEnds(m.raw) by { EndsVisible(m.raw); }
      if m.kind == Plain {
        GenuinePlain(sc, m);
        VisibleIsSqueezed(m.raw);
      }
    }
  }

  lemma EndsVisible(s: string)
    requires s != "" && !IsSpace(s[0]) && !IsSpace(s[|s| - 1])
    ensures VisibleEnds(s)
  {}

  lemma TameAreSound(sc: Scanner, s: string)
    requires sc.Valid() && TameText(sc, s)
    ensures AllSound(sc, Kept(sc.Lexemes(s)))
  {
    hide Sound, Tame, Genuine;
    LexemesAreGenuine(sc, s);
    KeptFrom(sc.Lexemes(s));
    var ls := Kept(sc.Lexemes(s));
    forall i | 0 <= i < |ls| ensures Sound(sc, ls[i]) {
      assert ls[i] in ls;
      var m :| m in sc.Lexemes(s) && ls[i] == Tidy(m);
      TidyIsSound(sc, m);
    }
  }

  // ----- lexemes one space apart -----

  /** The lexemes, each followed by a space, and then `t`. */
  function Lead(ls: seq<Lexeme>, t: string): string {
    if ls == [] then t else ls[0].raw + (" " + Lead(ls[1..], t))
  }

  lemma {:induction false} LeadPrefix(ls: seq<Lexeme>, t: string, u: string)
    ensures Lead(ls, t) <= Lead(ls, u) <==> t <= u
  {
    if ls != [] {
      LeadPrefix(ls[1..], t, u);
      CommonHead(ls[0].raw + " ", Lead(ls[1..], t), Lead(ls[1..], u));
      assert Lead(ls, t) == ls[0].raw + " " + Lead(ls[1..], t);
      assert Lead(ls, u) == ls[0].raw + " " + Lead(ls[1..], u);
    }
  }

  lemma CommonHead(p: string, t: string, u: string)
    ensures p + t <= p + u <==> t <= u
  {
    if p + t <= p + u {
      assert (p + t)[|p|..] == t && (p + u)[|p|..] == u;
      assert (p + u)[..|p + t|] == p + t;
      assert u[..|t|] == t;
    }
  }

  lemma RawCons(l: Lexeme, ls: seq<Lexeme>)
    ensures Raw([l] + ls) == [l.raw] + Raw(ls)
  {}

  lemma {:induction false} LeadJoin(a: seq<Lexeme>, parts: seq<string>)
    requires parts != []
    ensures Join(" ", Raw(a) + parts) == Lead(a, Join(" ", parts))
  {
    if a == [] {
      assert Raw(a) + parts == parts;
    } else {
      LeadJoin(a[1..], parts);
      assert [a[0]] + a[1..] == a;
      RawCons(a[0], a[1..]);
      assert Raw(a) + parts == [a[0].raw] + (Raw(a[1..]) + parts);
      JoinCons(a[0].raw, Raw(a[1..]) + parts);
    }
  }

  lemma {:induction false} LeadEnds(sc: Scanner, a: seq<Lexeme>, t: string)
    requires AllSound(sc, a) && t != "" && !IsSpace(t[0])
    ensures var j := Lead(a, t); j != "" && !IsSpace(j[0]) && (VisibleEnds(t) ==> VisibleEnds(j))
  {
    hide IsSqueezed, Genuine, Ordinary, IsSpace;
    if a != [] {
      LeadEnds(sc, a[1..], t);
      assert Sound(sc, a[0]);
      var j := Lead(a, t);
      assert j[0] == a[0].raw[0] && j[|j| - 1] == Lead(a[1..], t)[|Lead(a[1..], t)| - 1];
    }
  }

  lemma RelexOne(sc: Scanner, l: Lexeme, t: string)
    requires sc.Valid() && Sound(sc, l) && l.kind != CommentText
    ensures Kept(sc.Lexemes(l.raw + (" " + t))) == [l] + Kept(sc.Lexemes(t))
  {
    hide Scanner.NextLexeme, Genuine, Ordinary, IsSqueezed, Tidy;
    var z := " " + t;
    assert z[0] == ' ' && l.raw != "";
    UnderscoreIsVisible();
    hide IsSpace;
    GenuineStands(sc, l, z);
    LexemesStep(sc, l, z);
    OrdinaryIsTidy(l);
    LeadingSpaceIsSkipped(sc, " ", t);
  }

  /** Lexing lexemes that stand one space apart, and then `t`, gives them and the lexemes of `t`. */
  lemma {:induction false} RelexLead(sc: Scanner, a: seq<Lexeme>, t: string)
    requires sc.Valid() && AllSound(sc, a) && forall i :: 0 <= i < |a| ==> a[i].kind != CommentText
    ensures Kept(sc.Lexemes(Lead(a, t))) == a + Kept(sc.Lexemes(t))
  {
    hide Scanner.Lexemes, Kept, Sound;
    if a == [] {
      assert a + Kept(sc.Lexemes(t)) == Kept(sc.Lexemes(t));
    } else {
      RelexLead(sc, a[1..], t);
      RelexOne(sc, a[0], Lead(a[1..], t));
      assert [a[0]] + (a[1..] + Kept(sc.Lexemes(t))) == a + Kept(sc.Lexemes(t));
    }
  }

  lemma OrdinaryIsTidy(l: Lexeme)
    requires Ordinary(l)
    ensures l.kind != Space && Tidy(l) == l
  {}

  // ----- the normal form as lexemes one space apart -----

  lemma {:induction false} NonEmptyOfVisible(parts: seq<string>)
    requires forall i :: 0 <= i < |parts| ==> parts[i] != ""
    ensures NonEmpty(parts) == parts
  {
    if parts != [] {
      NonEmptyOfVisible(parts[1..]);
    }
  }

  lemma {:induction false} NonEmptyConcat(a: seq<string>, b: seq<string>)
    ensures NonEmpty(a + b) == NonEmpty(a) + NonEmpty(b)
  {
    if a == [] {
      assert a + b == b;
    } else {
      assert (a + b)[1..] == a[1..] + b;
      NonEmptyConcat(a[1..], b);
    }
  }

  lemma SoundRendersAsIs(sc: Scanner, l: Lexeme)
    requires Sound(sc, l)
    ensures Render(sc, l) == l.raw && l.raw != ""
  {
    hide IsSqueezed, Genuine;
  }

  lemma RendersAsIs(sc: Scanner, ls: seq<Lexeme>)
    requires AllSound(sc, ls)
    ensures RenderedAll(sc, ls) == Raw(ls) && NonEmpty(Raw(ls)) == Raw(ls)
  {
    hide Render, Sound;
    forall i | 0 <= i < |ls| ensures Render(sc, ls[i]) == ls[i].raw && ls[i].raw != "" {
      assert Sound(sc, ls[i]);
      SoundRendersAsIs(sc, ls[i]);
    }
    NonEmptyOfVisible(Raw(ls));
  }

  lemma {:induction false} JoinEnds(sc: Scanner, ls: seq<Lexeme>)
    requires AllSound(sc, ls) && ls != []
    ensures VisibleEnds(Join(" ", Raw(ls))) && Join(" ", Raw(ls))[0] == ls[0].raw[0]
  {
    hide IsSqueezed, Genuine, Ordinary, IsSpace;
    assert Sound(sc, ls[0]);
    assert [ls[0]] + ls[1..] == ls;
    RawCons(ls[0], ls[1..]);
    JoinCons(ls[0].raw, Raw(ls[1..]));
    if |ls| > 1 {
      JoinEnds(sc, ls[1..]);
      var j := Join(" ", Raw(ls));
      assert j[|j| - 1] == Join(" ", Raw(ls[1..]))[|Join(" ", Raw(ls[1..]))| - 1];
    }
  }

  lemma NothingJoined()
    ensures Raw([]) == [] && Join(" ", []) == "" && Strip("") == ""
  {}

  lemma TameNormalForm(sc: Scanner, s: string)
    requires sc.Valid() && TameText(sc, s)
    ensures LexicalText(sc, s) == Join(" ", Raw(Kept(sc.Lexemes(s))))
    ensures AllSound(sc, Kept(sc.Lexemes(s)))
  {
    hide LexicalText, AllSound, Render, Kept, Scanner.Lexemes, TameText, Strip, Join, IsSpace;
    var ls := Kept(sc.Lexemes(s));
    TameAreSound(sc, s);
    LexicalTextIsRendered(sc, s);
    RendersAsIs(sc, ls);
    if ls != [] {
      JoinEnds(sc, ls);
      StripVisible(Join(" ", Raw(ls)));
    } else {
      NothingJoined();
    }
  }

  lemma {:induction false} JoinSqueezed(sc: Scanner, ls: seq<Lexeme>)
    requires AllSound(sc, ls) && ls != []
    ensures IsSqueezed(Join(" ", Raw(ls))) <==> forall i :: 0 <= i < |ls| ==> IsSqueezed(ls[i].raw)
  {
    hide IsSqueezed, Genuine, Ordinary, IsSpace;
    assert Sound(sc, ls[0]);
    assert [ls[0]] + ls[1..] == ls;
    RawCons(ls[0], ls[1..]);
    JoinCons(ls[0].raw, Raw(ls[1..]));
    if |ls| > 1 {
      var rest := Join(" ", Raw(ls[1..]));
      JoinSqueezed(sc, ls[1..]);
      JoinEnds(sc, ls[1..]);
      assert ls[0].raw + (" " + rest) == ls[0].raw + " " + rest;
      SqueezedApart(ls[0].raw, rest);
      assert forall i :: 0 <= i < |ls| ==> i == 0 || ls[i] == ls[1..][i - 1];
      assert forall i :: 0 <= i < |ls[1..]| ==> ls[1..][i] == ls[i + 1];
    }
  }

  // ----- the first comment and what follows it -----

  /** The place of the first comment, or the number of lexemes. */
  function CommentAt(ls: seq<Lexeme>): (n: nat)
    ensures n <= |ls| && (n < |ls| ==> ls[n].kind == CommentText)
    ensures forall i :: 0 <= i < n ==> ls[i].kind != CommentText
  {
    if ls == [] || ls[0].kind == CommentText then 0 else 1 + CommentAt(ls[1..])
  }

  /** Every literal after the first comment holds no whitespace but single spaces. */
  ghost predicate Settled(ls: seq<Lexeme>) {
    forall i :: CommentAt(ls) < i < |ls| && ls[i].kind.Literal? ==> Squeeze(ls[i].raw) == ls[i].raw
  }

  lemma SettledIsSqueezed(sc: Scanner, ls: seq<Lexeme>)
    requires AllSound(sc, ls) && CommentAt(ls) < |ls|
    ensures Settled(ls) <==> IsSqueezed(Join(" ", Raw(ls[CommentAt(ls)..])))
  {
    hide IsSqueezed, Squeeze, Genuine, Ordinary, VisibleEnds;
    var n := CommentAt(ls);
    var tail := ls[n..];
    assert forall i :: 0 <= i < |tail| ==> tail[i] == ls[n + i];
    assert AllSound(sc, tail);
    JoinSqueezed(sc, tail);
    forall i | 0 <= i < |ls| ensures Squeeze(ls[i].raw) == ls[i].raw <==> IsSqueezed(ls[i].raw) {
      SqueezeFixed(ls[i].raw);
    }
    forall i | 0 <= i < |tail| ensures IsSqueezed(tail[i].raw) || (0 < i && tail[i].kind.Literal?) {
      assert Sound(sc, ls[n + i]);
      OrdinaryKind(tail[i]);
    }
    if Settled(ls) {
      forall i | 0 <= i < |tail| ensures IsSqueezed(tail[i].raw) {
        assert tail[i] == ls[n + i];
      }
    }
    if forall i :: 0 <= i < |tail| ==> IsSqueezed(tail[i].raw) {
      forall i | n < i < |ls| && ls[i].kind.Literal? ensures Squeeze(ls[i].raw) == ls[i].raw {
        assert tail[i - n] == ls[i];
      }
    }
  }

  lemma OrdinaryKind(l: Lexeme)
    ensures Ordinary(l) ==> l.kind == Plain || l.kind.Literal?
  {}

  // ----- lexing a text that starts with a comment -----

  lemma CommentHead(sc: Scanner, t: string)
    requires t != "" && t[0] == '#'
    ensures var k := LineLength(t);
      Kept(sc.Lexemes(t)) == [Lexeme(CommentText, TidyComment(t[..k]))] + Kept(sc.Lexemes(t[k..])) && k > 0
  {
    assert !IsSpace('#') by { UnderscoreIsVisible(); }
    hide LiteralSpan, Scanner.PlainLexeme, IsSpace;
    var l := sc.NextLexeme(t);
    assert l == Lexeme(CommentText, t[..LineLength(t)]);
  }

  /** The rendered pieces of the lines after a comment: not empty, and starting visibly. */
  ghost function Later(sc: Scanner, t: string): seq<string> {
    NonEmpty(RenderedAll(sc, Kept(sc.Lexemes(t))))
  }

  lemma RenderStarts(sc: Scanner, m: Lexeme)
    requires m.kind != Space && m.raw != "" && !IsSpace(m.raw[0])
    ensures var r := Render(sc, Tidy(m)); r != "" ==> !IsSpace(r[0])
  {
    hide IsSpace, NormaliseBody, Squeeze;
    if m.kind.Literal? {
      LiteralStarts(sc, m.raw);
    }
  }

  lemma LiteralStarts(sc: Scanner, literal: string)
    requires literal != ""
    ensures NormaliseLiteral(sc, literal) != "" && NormaliseLiteral(sc, literal)[0] == literal[0]
  {
    hide NormaliseBody;
  }

  lemma {:induction false} NonEmptyMembers(parts: seq<string>)
    ensures forall p :: p in NonEmpty(parts) ==> p in parts && p != ""
  {
    if parts != [] {
      NonEmptyMembers(parts[1..]);
    }
  }

  lemma KeptRenderStarts(sc: Scanner, t: string, l: Lexeme)
    requires l in Kept(sc.Lexemes(t))
    ensures var r := Render(sc, l); r != "" ==> !IsSpace(r[0])
  {
    hide Render, Scanner.NextLexeme, IsSpace;
    LexemesTile(sc, t);
    KeptFrom(sc.Lexemes(t));
    var m :| m in sc.Lexemes(t) && l == Tidy(m);
    RenderStarts(sc, m);
  }

  lemma LaterStarts(sc: Scanner, t: string)
    requires Later(sc, t) != []
    ensures var r := Join(" ", Later(sc, t)); r != "" && !IsSpace(r[0])
  {
    hide Render, Scanner.Lexemes, Kept, IsSpace, Join, NonEmpty;
    var ls := Kept(sc.Lexemes(t));
    var parts := RenderedAll(sc, ls);
    NonEmptyMembers(parts);
    var q := Later(sc, t);
    assert q[0] in q;
    var i :| 0 <= i < |parts| && parts[i] == q[0];
    KeptRenderStarts(sc, t, ls[i]);
    assert [q[0]] + q[1..] == q;
    JoinCons(q[0], q[1..]);
  }

  /** The normal form of lexemes one space apart and then a comment. */
  lemma LexicalTextOfLead(sc: Scanner, a: seq<Lexeme>, t: string)
    requires sc.Valid() && AllSound(sc, a) && (forall i :: 0 <= i < |a| ==> a[i].kind != CommentText)
    requires t != "" && t[0] == '#'
    ensures var k := LineLength(t);
      LexicalText(sc, Lead(a, t)) ==
        Strip(Lead(a, Join(" ", [TidyComment(t[..k])] + Later(sc, t[k..]))))
  {
    hide LexicalText, Render, Sound, Scanner.NextLexeme, TidyComment;
    var k := LineLength(t);
    var c := Lexeme(CommentText, TidyComment(t[..k]));
    var rest := Kept(sc.Lexemes(t[k..]));
    RelexLead(sc, a, t);
    CommentHead(sc, t);
    LexicalTextIsRendered(sc, Lead(a, t));
    TidyCommentIsSqueezed(t[..k]);
    RendersAsIs(sc, a);
    RenderedConcat(sc, a, [c] + rest);
    RenderedAllCons(sc, c, rest);
    assert Render(sc, c) == c.raw by { CommentRenders(sc, c); }
    NonEmptyConcat(Raw(a), [c.raw] + RenderedAll(sc, rest));
    NonEmptyConcat([c.raw], RenderedAll(sc, rest));
    assert NonEmpty([c.raw]) == [c.raw] by { NonEmptyOfVisible([c.raw]); }
    LeadJoin(a, [c.raw] + Later(sc, t[k..]));
  }

  lemma CommentRenders(sc: Scanner, c: Lexeme)
    requires c.kind == CommentText
    ensures Render(sc, c) == c.raw
  {}

  lemma RenderedConcat(sc: Scanner, a: seq<Lexeme>, b: seq<Lexeme>)
    ensures RenderedAll(sc, a + b) == RenderedAll(sc, a) + RenderedAll(sc, b)
  {
    hide Render;
    forall i | 0 <= i < |a| + |b|
      ensures RenderedAll(sc, a + b)[i] == (RenderedAll(sc, a) + RenderedAll(sc, b))[i]
    {
      assert (a + b)[i] == if i < |a| then a[i] else b[i - |a|];
    }
  }

  // ----- a comment on one line -----

  /** With no line end after the comment, it takes in everything that follows. */
  lemma OneLineText(sc: Scanner, a: seq<Lexeme>, t: string)
    requires sc.Valid() && AllSound(sc, a) && (forall i :: 0 <= i < |a| ==> a[i].kind != CommentText)
    requires t != "" && t[0] == '#' && LineLength(t) == |t|
    ensures LexicalText(sc, Lead(a, t)) == Lead(a, TidyComment(t))
  {
    hide LexicalText, Sound, Scanner.NextLexeme, TidyComment, IsSqueezed, Strip, Render;
    var c := TidyComment(t);
    assert t[..|t|] == t && t[|t|..] == "";
    LexicalTextOfLead(sc, a, t);
    assert Later(sc, "") == [] by { assert Kept(sc.Lexemes("")) == []; }
    assert [c] + [] == [c];
    JoinCons(c, []);
    TidyCommentIsSqueezed(t);
    LeadEnds(sc, a, c);
    StripVisible(Lead(a, c));
  }

  // ----- a comment with lines after it -----

  lemma ManyLines(sc: Scanner, a: seq<Lexeme>, t: string)
    requires sc.Valid() && AllSound(sc, a) && (forall i :: 0 <= i < |a| ==> a[i].kind != CommentText)
    requires t != "" && t[0] == '#' && LineLength(t) < |t|
    ensures LexicalText(sc, Lead(a, t)) != Lead(a, t) && !IsSqueezed(t)
  {
    hide LexicalText, Sound, TidyComment, Later, IsSqueezed;
    var k := LineLength(t);
    var x, rest := t[..k], t[k..];
    assert t == x + rest && rest[0] == '\n' && '\n' in t;
    if IsSqueezed(t) {
      SqueezedHasNoNewline(t);
    }
    if Later(sc, rest) != [] {
      LaterStarts(sc, rest);
    }
    LineEndIsLost(x, rest, Later(sc, rest));
    var u := Join(" ", [TidyComment(x)] + Later(sc, rest));
    LexicalTextOfLead(sc, a, t);
    LeadPrefix(a, t, u);
    TidyCommentIsSqueezed(x);
    JoinCons(TidyComment(x), Later(sc, rest));
    LeadEnds(sc, a, u);
    StripIsPrefix(Lead(a, u));
  }

  lemma StripIsPrefix(s: string)
    requires s != "" && !IsSpace(s[0])
    ensures Strip(s) <= s
  {}

  // ----- the two exact conditions -----

  lemma JoinSplits(ls: seq<Lexeme>, n: nat)
    requires n < |ls|
    ensures Join(" ", Raw(ls)) == Lead(ls[..n], Join(" ", Raw(ls[n..])))
  {
    hide Join, Lead;
    assert Raw(ls) == Raw(ls[..n]) + Raw(ls[n..]);
    LeadJoin(ls[..n], Raw(ls[n..]));
  }

  lemma CommentStarts(sc: Scanner, l: Lexeme)
    requires Sound(sc, l) && l.kind == CommentText
    ensures l.raw != "" && l.raw[0] == '#'
  {}

  lemma CommentTail(sc: Scanner, ls: seq<Lexeme>, n: nat)
    requires AllSound(sc, ls) && n < |ls| && ls[n].kind == CommentText
    ensures var t := Join(" ", Raw(ls[n..])); VisibleEnds(t) && t != "" && t[0] == '#'
  {
    hide Sound, Join;
    CommentStarts(sc, ls[n]);
    var tail := ls[n..];
    assert forall i :: 0 <= i < |tail| ==> tail[i] == ls[n + i];
    JoinEnds(sc, tail);
  }

  lemma TailOf(sc: Scanner, ls: seq<Lexeme>) returns (a: seq<Lexeme>, t: string)
    requires AllSound(sc, ls) && CommentAt(ls) < |ls|
    ensures a == ls[..CommentAt(ls)] && t == Join(" ", Raw(ls[CommentAt(ls)..]))
    ensures AllSound(sc, a) && forall i :: 0 <= i < |a| ==> a[i].kind != CommentText
    ensures VisibleEnds(t) && t != "" && t[0] == '#'
    ensures Join(" ", Raw(ls)) == Lead(a, t)
    ensures Settled(ls) <==> IsSqueezed(t)
  {
    hide IsSqueezed, Settled, Sound, Join, Lead, VisibleEnds;
    var n := CommentAt(ls);
    a, t := ls[..n], Join(" ", Raw(ls[n..]));
    SettledIsSqueezed(sc, ls);
    JoinSplits(ls, n);
    CommentTail(sc, ls, n);
  }

  lemma {:induction false} NoComment(sc: Scanner, ls: seq<Lexeme>)
    requires sc.Valid() && AllSound(sc, ls) && CommentAt(ls) == |ls|
    ensures Kept(sc.Lexemes(Join(" ", Raw(ls)))) == ls
  {
    hide Sound, Scanner.NextLexeme, Kept, Lead;
    if ls == [] {
      assert Kept(sc.Lexemes("")) == [] by { NothingKept(sc); }
    } else {
      var n := |ls| - 1;
      assert Raw(ls) == Raw(ls[..n]) + [ls[n].raw] && ls == ls[..n] + [ls[n]];
      LeadJoin(ls[..n], [ls[n].raw]);
      RelexLead(sc, ls[..n], ls[n].raw);
      RelexLast(sc, ls[n]);
    }
  }

  lemma NothingKept(sc: Scanner)
    ensures Kept(sc.Lexemes("")) == []
  {}

  lemma RelexLast(sc: Scanner, l: Lexeme)
    requires sc.Valid() && Sound(sc, l) && l.kind != CommentText
    ensures Kept(sc.Lexemes(l.raw)) == [l]
  {
    hide Scanner.NextLexeme, Genuine, IsSqueezed;
    assert l.raw + "" == l.raw;
    GenuineStands(sc, l, "");
    LexemesStep(sc, l, "");
    OrdinaryIsTidy(l);
    assert Kept(sc.Lexemes("")) == [] && [l] + [] == [l];
  }

  lemma LeadEqual(a: seq<Lexeme>, t: string, u: string)
    ensures Lead(a, t) == Lead(a, u) <==> t == u
  {
    LeadPrefix(a, t, u);
    LeadPrefix(a, u, t);
  }

  lemma LeadFixed(sc: Scanner, a: seq<Lexeme>, t: string)
    requires sc.Valid() && AllSound(sc, a) && (forall i :: 0 <= i < |a| ==> a[i].kind != CommentText)
    requires VisibleEnds(t) && t != "" && t[0] == '#'
    ensures LexicalText(sc, Lead(a, t)) == Lead(a, t) <==> IsSqueezed(t)
  {
    hide LexicalText, TidyComment, IsSqueezed, AllSound, VisibleEnds, Lead;
    if LineLength(t) == |t| {
      TidyFixed(t);
      LeadEqual(a, TidyComment(t), t);
      OneLineText(sc, a, t);
    } else {
      ManyLines(sc, a, t);
    }
  }

  /**
   The lexical normal form of a text without f-strings and unterminated literals is its own normal
   form exactly when every literal after the first comment is free of whitespace to squeeze.
   */
  lemma NormalFormIsFixed(sc: Scanner, s: string)
    requires sc.Valid() && TameText(sc, s)
    ensures LexicalText(sc, LexicalText(sc, s)) == LexicalText(sc, s) <==> Settled(Kept(sc.Lexemes(s)))
  {
    hide LexicalText, IsSqueezed, AllSound, VisibleEnds, TameText, Kept, Join, Lead, Scanner.Lexemes;
    var ls := Kept(sc.Lexemes(s));
    TameNormalForm(sc, s);
    if CommentAt(ls) == |ls| {
      NoComment(sc, ls);
      SameKeptSameText(sc, LexicalText(sc, s), s);
    } else {
      hide Settled;
      var a, t := TailOf(sc, ls);
      LeadFixed(sc, a, t);
    }
  }

  // ----- reading the lexemes back -----

  /** Nothing is kept after the first comment. */
  predicate CommentIsLast(ls: seq<Lexeme>) {
    CommentAt(ls) + 1 >= |ls|
  }

  lemma CommentGrows(sc: Scanner, tail: seq<Lexeme>)
    requires AllSound(sc, tail) && |tail| > 1 && tail[0].kind == CommentText
    ensures var t := Join(" ", Raw(tail)); TidyComment(t[..LineLength(t)]) != tail[0].raw
  {
    assert Sound(sc, tail[0]) && AllSound(sc, tail[1..]);
    hide Sound, TidyComment, IsSpace;
    var rest := Join(" ", Raw(tail[1..]));
    JoinEnds(sc, tail[1..]);
    assert [tail[0]] + tail[1..] == tail;
    RawCons(tail[0], tail[1..]);
    JoinCons(tail[0].raw, Raw(tail[1..]));
    CommentLine(sc, tail[0]);
    LongerComment(tail[0].raw, rest);
  }

  lemma CommentLine(sc: Scanner, l: Lexeme)
    requires Sound(sc, l) && l.kind == CommentText
    ensures '\n' !in l.raw
  {}

  /**
   Lexing the normal form of such a text gives its lexemes back exactly when nothing follows the first
   comment.
   */
  lemma NormalFormRereads(sc: Scanner, s: string)
    requires sc.Valid() && TameText(sc, s)
    ensures Kept(sc.Lexemes(LexicalText(sc, s))) == Kept(sc.Lexemes(s)) <==> CommentIsLast(Kept(sc.Lexemes(s)))
  {
    hide LexicalText, IsSqueezed, Sound, VisibleEnds, TameText, Kept, Join, Lead, Settled, Scanner.Lexemes;
    var ls := Kept(sc.Lexemes(s));
    TameNormalForm(sc, s);
    if CommentAt(ls) == |ls| {
      NoComment(sc, ls);
    } else {
      var a, t := TailOf(sc, ls);
      var tail := ls[CommentAt(ls)..];
      assert ls == a + tail;
      RelexLead(sc, a, t);
      assert AllSound(sc, tail) by { assert forall i :: 0 <= i < |tail| ==> tail[i] == ls[CommentAt(ls) + i]; }
      TailRereads(sc, t, tail);
      var again := Kept(sc.Lexemes(t));
      assert a + again == a + tail <==> again == tail by { CommonTail(a, again, tail); }
    }
  }

  lemma CommonTail<T>(a: seq<T>, b: seq<T>, c: seq<T>)
    ensures a + b == a + c <==> b == c
  {
    if a + b == a + c {
      assert b == (a + b)[|a|..] && c == (a + c)[|a|..];
    }
  }

  lemma TailRereads(sc: Scanner, t: string, tail: seq<Lexeme>)
    requires AllSound(sc, tail) && tail != [] && tail[0].kind == CommentText && t == Join(" ", Raw(tail))
    requires t != "" && t[0] == '#'
    ensures Kept(sc.Lexemes(t)) == tail <==> |tail| == 1
  {
    hide Sound, TidyComment, Join, Kept, Scanner.Lexemes;
    CommentHead(sc, t);
    if |tail| > 1 {
      CommentGrows(sc, tail);
      assert Kept(sc.Lexemes(t))[0] == Lexeme(CommentText, TidyComment(t[..LineLength(t)]));
    } else {
      LoneTail(sc, t, tail);
    }
  }

  lemma LoneTail(sc: Scanner, t: string, tail: seq<Lexeme>)
    requires AllSound(sc, tail) && |tail| == 1 && tail[0].kind == CommentText && t == Join(" ", Raw(tail))
    ensures [Lexeme(CommentText, TidyComment(t[..LineLength(t)]))] + Kept(sc.Lexemes(t[LineLength(t)..])) == tail
  {
    hide IsSqueezed, Genuine, Ordinary, TidyComment, IsSpace, VisibleEnds;
    assert Sound(sc, tail[0]);
    assert t == tail[0].raw;
    assert LineLength(t) == |t| && t[..|t|] == t && t[|t|..] == "";
    TidyFixed(t);
    NothingKept(sc);
    assert tail == [Lexeme(CommentText, t)];
  }

  /**
   Two such texts in which nothing follows the first comment have the same normal form exactly when
   they have the same lexemes.
   */
  lemma NormalFormFaithful(sc: Scanner, s: string, t: string)
    requires sc.Valid() && TameText(sc, s) && TameText(sc, t)
    requires CommentIsLast(Kept(sc.Lexemes(s))) && CommentIsLast(Kept(sc.Lexemes(t)))
    ensures LexicalText(sc, s) == LexicalText(sc, t) <==> Kept(sc.Lexemes(s)) == Kept(sc.Lexemes(t))
  {
    hide LexicalText, TameText, Kept, CommentIsLast;
    NormalFormRereads(sc, s);
    NormalFormRereads(sc, t);
    if Kept(sc.Lexemes(s)) == Kept(sc.Lexemes(t)) {
      SameKeptSameText(sc, s, t);
    }
  }
}
