/**
 Where a string literal ends, described without the scan: prefix letters, one or three quotes, and the
 first closing delimiter that no odd run of backslashes escapes.
 */
module FragmentLiterals {
  import opened Wrappers
  import opened FragmentScanner

  // ----- escapes -----

  /** The length of the run of backslashes just before `m`. */
  function Backslashes(s: string, m: nat): nat
    requires m <= |s|
  {
    if m == 0 || s[m - 1] != '\\' then 0 else 1 + Backslashes(s, m - 1)
  }

  predicate Escaped(s: string, m: nat)
    requires m <= |s|
  {
    Backslashes(s, m) % 2 == 1
  }

  /** An unescaped delimiter stands at `m`. */
  predicate ClosesAt(s: string, d: string, m: nat) {
    m + |d| <= |s| && s[m..m + |d|] == d && !Escaped(s, m)
  }

  /** `end` is just past the first unescaped delimiter, or there is none. */
  ghost predicate FirstClose(s: string, d: string, end: Option<nat>) {
    match end
    case None => forall m: nat :: !ClosesAt(s, d, m)
    case Some(n) => n >= |d| && ClosesAt(s, d, n - |d|) && forall m: nat :: m < n - |d| ==> !ClosesAt(s, d, m)
  }

  lemma {:induction false} RunAfterPlain(s: string, m: nat)
    requires s != "" && s[0] != '\\' && m < |s|
    ensures Backslashes(s, m + 1) == Backslashes(s[1..], m)
  {
    if m > 0 && s[m] == '\\' {
      assert s[1..][m - 1] == s[m];
      RunAfterPlain(s, m - 1);
    }
  }

  lemma {:induction false} RunAfterEscape(s: string, m: nat)
    requires |s| >= 2 && s[0] == '\\' && m + 2 <= |s|
    ensures Backslashes(s, m + 2) == Backslashes(s[2..], m) ||
      (s[1] == '\\' && Backslashes(s, m + 2) == 2 + Backslashes(s[2..], m))
  {
    if m == 0 {
      assert Backslashes(s, 1) == 1;
    } else {
      assert s[2..][m - 1] == s[m + 1];
      RunAfterEscape(s, m - 1);
    }
  }

  lemma SliceLater(s: string, k: nat, i: nat, j: nat)
    requires i <= j && j + k <= |s|
    ensures s[k..][i..j] == s[i + k..j + k]
  {}

  lemma ClosesAfterPlain(s: string, d: string, m: nat)
    requires s != "" && s[0] != '\\' && d != ""
    ensures ClosesAt(s, d, m + 1) <==> ClosesAt(s[1..], d, m)
  {
    if m + 1 + |d| <= |s| {
      RunAfterPlain(s, m);
      assert s[m + 1..m + 1 + |d|] == s[1..][m..m + |d|];
    }
  }

  lemma ClosesAfterEscape(s: string, d: string, m: nat)
    requires |s| >= 2 && s[0] == '\\' && d != ""
    ensures ClosesAt(s, d, m + 2) <==> ClosesAt(s[2..], d, m)
  {
    if m + 2 + |d| <= |s| {
      RunAfterEscape(s, m);
      assert s[2..][m..m + |d|] == s[m + 2..m + 2 + |d|] by { SliceLater(s, 2, m, m + |d|); }
    }
  }

  lemma ClosesAtHead(s: string, d: string)
    requires d != "" && d[0] != '\\'
    ensures ClosesAt(s, d, 0) <==> d <= s
    ensures s != "" && s[0] == '\\' ==> !ClosesAt(s, d, 0) && !ClosesAt(s, d, 1)
  {
    if s != "" && s[0] == '\\' {
      assert Backslashes(s, 1) == 1;
    }
    assert |d| <= |s| ==> s[0..|d|] == s[..|d|];
  }

  lemma FirstCloseLater(s: string, d: string, k: nat, r: Option<nat>)
    requires k <= |s| && FirstClose(s[k..], d, r)
    requires forall m: nat :: ClosesAt(s, d, m + k) <==> ClosesAt(s[k..], d, m)
    requires forall m: nat :: m < k ==> !ClosesAt(s, d, m)
    ensures FirstClose(s, d, Plus(k, r))
  {
    hide ClosesAt;
    forall m: nat | ClosesAt(s, d, m) ensures m >= k && ClosesAt(s[k..], d, m - k) {
      assert m >= k;
      assert ClosesAt(s, d, (m - k) + k);
    }
  }

  /** The scan for the closing delimiter stops just past the first unescaped one. */
  lemma {:induction false} CloseExactly(s: string, d: string)
    requires d != "" && d[0] != '\\'
    ensures FirstClose(s, d, CloseAfter(s, d))
    decreases |s|
  {
    hide ClosesAt, FirstClose;
    ClosesAtHead(s, d);
    if s == "" {
      NothingCloses(d);
    } else if s[0] != '\\' && d <= s {
      ClosesFirst(s, d);
    } else {
      var k := if s[0] == '\\' && |s| >= 2 then 2 else 1;
      CloseExactly(s[k..], d);
      if s[0] == '\\' && |s| == 1 {
        LoneBackslash(s, d);
      } else {
        forall m: nat ensures ClosesAt(s, d, m + k) <==> ClosesAt(s[k..], d, m) {
          if k == 2 { ClosesAfterEscape(s, d, m); } else { ClosesAfterPlain(s, d, m); }
        }
        FirstCloseLater(s, d, k, CloseAfter(s[k..], d));
      }
    }
  }

  lemma NothingCloses(d: string)
    requires d != ""
    ensures FirstClose("", d, None)
  {}

  lemma LoneBackslash(s: string, d: string)
    requires |s| == 1 && s[0] == '\\' && d != "" && d[0] != '\\'
    ensures FirstClose(s, d, CloseAfter(s, d))
  {
    assert CloseAfter(s[1..], d) == None;
    forall m: nat ensures !ClosesAt(s, d, m) {
      if m + |d| <= 1 {
        assert s[m..m + |d|][0] == s[0];
      }
    }
  }

  lemma ClosesFirst(s: string, d: string)
    requires ClosesAt(s, d, 0)
    ensures FirstClose(s, d, Some(|d|))
  {
    hide ClosesAt;
  }

  // ----- whole literals -----

  /** Up to three prefix letters, then a quote; three of them make the delimiter where three stand. */
  ghost predicate Opens(s: string, p: nat, d: string) {
    && p <= 3 && p < |s|
    && (forall i :: 0 <= i < p ==> s[i] in {'r', 'R', 'u', 'U', 'b', 'B', 'f', 'F'})
    && s[p] in {'\'', '"'}
    && d == if p + 2 < |s| && s[p + 1] == s[p] && s[p + 2] == s[p] then [s[p], s[p], s[p]] else [s[p]]
  }

  /** The extent of the literal at the head of `s`: to its first unescaped delimiter, or to the end. */
  ghost predicate LiteralExtent(s: string, n: nat, closed: bool) {
    exists p: nat, d :: Opens(s, p, d) && p + |d| <= |s|
      && if closed then n >= p + |d| && FirstClose(s[p + |d|..], d, Some(n - p - |d|))
         else n == |s| && FirstClose(s[p + |d|..], d, None)
  }

  lemma {:induction false} PrefixIs(s: string, p: nat)
    requires p < |s| && !IsPrefixLetter(s[p]) && forall i :: 0 <= i < p ==> IsPrefixLetter(s[i])
    ensures PrefixRun(s) == p
  {
    if p > 0 {
      PrefixIs(s[1..], p - 1);
    }
  }

  lemma OpensIsPrefix(s: string, p: nat, d: string)
    requires Opens(s, p, d)
    ensures p == PrefixLength(s) && IsQuote(s[p]) && d == Delimiter(s[p..]) && p + |d| <= |s|
  {
    PrefixIs(s, p);
    var t := s[p..];
    assert t[0] == s[p] && (|t| > 2 ==> t[1] == s[p + 1] && t[2] == s[p + 2]);
    assert [s[p], s[p], s[p]] <= t <==> |t| > 2 && t[1] == s[p] && t[2] == s[p];
  }

  lemma PrefixOpens(s: string)
    requires PrefixLength(s) < |s| && IsQuote(s[PrefixLength(s)])
    ensures Opens(s, PrefixLength(s), Delimiter(s[PrefixLength(s)..]))
  {
    var p := PrefixLength(s);
    var t := s[p..];
    assert t[0] == s[p] && (|t| > 2 ==> t[1] == s[p + 1] && t[2] == s[p + 2]);
    assert [s[p], s[p], s[p]] <= t <==> |t| > 2 && t[1] == s[p] && t[2] == s[p];
  }

  /** What the specification of the scan says once prefix and delimiter are known. */
  lemma SpanOf(s: string)
    requires PrefixLength(s) < |s| && IsQuote(s[PrefixLength(s)])
    ensures var p := PrefixLength(s);
      var d := Delimiter(s[p..]);
      && p + |d| <= |s| && d[0] != '\\'
      && LiteralSpan(s) == match CloseAfter(s[p + |d|..], d)
           case Some(n) => Some(Span(p + |d| + n, true))
           case None => Some(Span(|s|, false))
  {
    hide CloseAfter, PrefixLength;
    var p := PrefixLength(s);
    var d := Delimiter(s[p..]);
    assert s[p..][|d|..] == s[p + |d|..];
  }

  lemma ExtentOf(s: string)
    requires LiteralSpan(s).Some?
    ensures LiteralExtent(s, LiteralSpan(s).value.length, LiteralSpan(s).value.closed)
  {
    assert PrefixLength(s) < |s| && IsQuote(s[PrefixLength(s)]);
    SpanOf(s);
    PrefixOpens(s);
    hide LiteralSpan, PrefixLength, Opens, FirstClose, CloseAfter, Delimiter;
    var p := PrefixLength(s);
    var d := Delimiter(s[p..]);
    CloseExactly(s[p + |d|..], d);
  }

  lemma FirstCloseIsUnique(s: string, d: string, a: Option<nat>, b: Option<nat>)
    requires FirstClose(s, d, a) && FirstClose(s, d, b)
    ensures a == b
  {
    hide ClosesAt;
    if a.Some? && b.Some? {
      assert ClosesAt(s, d, a.value - |d|) && ClosesAt(s, d, b.value - |d|);
    }
  }

  lemma SpanOfExtent(s: string, n: nat, closed: bool)
    requires LiteralExtent(s, n, closed)
    ensures LiteralSpan(s) == Some(Span(n, closed))
  {
    hide Opens, FirstClose, LiteralSpan, PrefixLength, CloseAfter, Delimiter;
    var p: nat, d :| Opens(s, p, d) && p + |d| <= |s|
      && if closed then n >= p + |d| && FirstClose(s[p + |d|..], d, Some(n - p - |d|))
         else n == |s| && FirstClose(s[p + |d|..], d, None);
    OpensIsPrefix(s, p, d);
    SpanOf(s);
    var tail := s[p + |d|..];
    CloseExactly(tail, d);
    FirstCloseIsUnique(tail, d, CloseAfter(tail, d), if closed then Some(n - p - |d|) else None);
  }

  /** A literal starts exactly where prefix letters and a quote stand, and has exactly that extent. */
  lemma LiteralExactly(s: string)
    ensures LiteralSpan(s).Some? <==> exists p: nat, d :: Opens(s, p, d)
    ensures forall n: nat, closed :: LiteralSpan(s) == Some(Span(n, closed)) <==> LiteralExtent(s, n, closed)
  {
    hide Opens, LiteralExtent, PrefixLength, IsQuote, Quoted;
    if LiteralSpan(s).Some? {
      PrefixOpens(s);
      ExtentOf(s);
    }
    if p: nat, d :| Opens(s, p, d) {
      OpensIsPrefix(s, p, d);
    }
    hide LiteralSpan;
    forall n: nat, closed | LiteralExtent(s, n, closed) ensures LiteralSpan(s) == Some(Span(n, closed)) {
      SpanOfExtent(s, n, closed);
    }
  }

  ghost predicate StartsLiteral(s: string) {
    exists p: nat, d :: Opens(s, p, d)
  }

  ghost predicate EndsLiteral(s: string, n: nat) {
    LiteralExtent(s, n, true) || LiteralExtent(s, n, false)
  }

  lemma LengthExactly(s: string)
    ensures LiteralSpan(s).Some? <==> StartsLiteral(s)
    ensures LiteralSpan(s).Some? ==> EndsLiteral(s, LiteralSpan(s).value.length)
  {
    hide LiteralSpan, LiteralExtent, Opens;
    LiteralExactly(s);
    if LiteralSpan(s).Some? {
      assert LiteralExtent(s, LiteralSpan(s).value.length, LiteralSpan(s).value.closed);
    }
  }

  // ----- the usual shapes -----

  lemma NoBackslashes(s: string, m: nat)
    requires m <= |s| && '\\' !in s[..m]
    ensures !Escaped(s, m)
  {
    assert m > 0 ==> s[..m][m - 1] == s[m - 1];
  }

  /** What a body closed at `m` looks like: no unescaped delimiter starts before `m`. */
  lemma ClosedAt(s: string, p: nat, d: string, m: nat)
    requires Opens(s, p, d) && p + |d| + m <= |s|
    requires var t := s[p + |d|..]; ClosesAt(t, d, m) && forall i: nat :: i < m ==> !ClosesAt(t, d, i)
    ensures LiteralSpan(s) == Some(Span(p + |d| + m + |d|, true))
  {
    hide Opens, ClosesAt, LiteralSpan;
    assert FirstClose(s[p + |d|..], d, Some(m + |d|));
    SpanOfExtent(s, p + |d| + m + |d|, true);
  }

  predicate ThreeAt(s: string, q: char, i: nat) {
    i + 2 < |s| && s[i] == q && s[i + 1] == q && s[i + 2] == q
  }

  lemma TripleBody(q: char, body: string, rest: string)
    requires '\\' !in body && (body != "" ==> body[|body| - 1] != q)
    requires forall i: nat :: !ThreeAt(body, q, i)
    ensures var t := body + ([q, q, q] + rest);
      ClosesAt(t, [q, q, q], |body|) && forall i: nat :: i < |body| ==> !ClosesAt(t, [q, q, q], i)
  {
    var d := [q, q, q];
    var t := body + (d + rest);
    assert forall i :: 0 <= i < |body| ==> t[i] == body[i];
    NoBackslashes(t, |body|) by { assert t[..|body|] == body; }
    assert t[|body|..|body| + 3] == d;
    forall i: nat | i < |body| ensures !ClosesAt(t, d, i) {
      hide Escaped;
      assert !ThreeAt(body, q, i);
      if i + 3 <= |t| {
        var u := t[i..i + 3];
        assert u[0] == t[i] && u[1] == t[i + 1] && u[2] == t[i + 2];
      }
    }
  }

  predicate IsPrefix(s: string) {
    |s| <= 3 && forall i :: 0 <= i < |s| ==> s[i] in {'r', 'R', 'u', 'U', 'b', 'B', 'f', 'F'}
  }

  /** Prefix letters, three quotes, a body without backslash, without three quotes and not ending in one. */
  lemma TripleQuoted(prefix: string, q: char, body: string, rest: string)
    requires IsPrefix(prefix) && q in {'\'', '"'} && '\\' !in body && (body != "" ==> body[|body| - 1] != q)
    requires forall i: nat :: !ThreeAt(body, q, i)
    ensures LiteralSpan(prefix + ([q, q, q] + (body + ([q, q, q] + rest))))
      == Some(Span(|prefix| + 6 + |body|, true))
  {
    hide LiteralSpan, Opens, ClosesAt, ThreeAt, IsPrefix;
    var d := [q, q, q];
    var t := body + (d + rest);
    var s := prefix + (d + t);
    OpeningOf(prefix, q, t);
    TripleBody(q, body, rest);
    TailAfter(prefix, d, t);
    ClosedAt(s, |prefix|, d, |body|);
  }

  lemma TailAfter(prefix: string, d: string, t: string)
    ensures (prefix + (d + t))[|prefix| + |d|..] == t
  {}

  lemma OpeningOf(prefix: string, q: char, t: string)
    requires IsPrefix(prefix) && q in {'\'', '"'}
    ensures Opens(prefix + ([q, q, q] + t), |prefix|, [q, q, q])
    ensures !([q, q] <= t) ==> Opens(prefix + ([q] + t), |prefix|, [q])
  {
    var s := prefix + ([q, q, q] + t);
    assert s[|prefix|] == q && s[|prefix| + 1] == q && s[|prefix| + 2] == q;
    var u := prefix + ([q] + t);
    assert u[|prefix|] == q;
    assert |t| >= 2 ==> u[|prefix| + 1] == t[0] && u[|prefix| + 2] == t[1];
    assert |t| >= 2 && t[0] == q && t[1] == q ==> [q, q] <= t;
  }

  lemma HeadIsNoQuote(body: string, q: char)
    requires forall i :: 0 <= i < |body| && body[i] == q ==> Escaped(body, i)
    ensures body != "" ==> body[0] != q
  {
    assert !Escaped(body, 0);
  }

  lemma NotDoubled(q: char, body: string, tail: string)
    requires if body == "" then tail == "" || |tail| == 1 || tail[0] != q || tail[1] != q else body[0] != q
    ensures !([q, q] <= body + tail)
  {
    var t := body + tail;
    assert body != "" ==> t[0] == body[0];
    assert body == "" ==> t == tail;
  }

  lemma NeverCloses(body: string, q: char)
    requires forall i :: 0 <= i < |body| && body[i] == q ==> Escaped(body, i)
    ensures forall m: nat :: !ClosesAt(body, [q], m)
  {
    hide Escaped;
    forall m: nat ensures !ClosesAt(body, [q], m) {
      if m + 1 <= |body| {
        assert body[m..m + 1] == [body[m]];
      }
    }
  }

  lemma SingleBody(q: char, body: string, rest: string)
    requires q != '\\' && !Escaped(body, |body|)
    requires forall i :: 0 <= i < |body| && body[i] == q ==> Escaped(body, i)
    ensures var t := body + ([q] + rest);
      ClosesAt(t, [q], |body|) && forall i: nat :: i < |body| ==> !ClosesAt(t, [q], i)
  {
    var t := body + ([q] + rest);
    forall m: nat | m <= |body| ensures Escaped(t, m) == Escaped(body, m) {
      SameRun(body, [q] + rest, m);
    }
    hide Escaped;
    assert t[|body|..|body| + 1] == [q];
    forall i: nat | i < |body| ensures !ClosesAt(t, [q], i) {
      assert t[i..i + 1] == [body[i]];
    }
  }

  /** Prefix letters, one quote, and a body in which every quote is escaped and the last character is not open. */
  lemma SingleQuoted(prefix: string, q: char, body: string, rest: string)
    requires IsPrefix(prefix) && q in {'\'', '"'} && !Escaped(body, |body|)
    requires forall i :: 0 <= i < |body| && body[i] == q ==> Escaped(body, i)
    requires body == "" ==> rest == "" || rest[0] != q
    ensures LiteralSpan(prefix + ([q] + (body + ([q] + rest)))) == Some(Span(|prefix| + 2 + |body|, true))
  {
    var t := body + ([q] + rest);
    var s := prefix + ([q] + t);
    hide LiteralSpan, Opens, ClosesAt, IsPrefix, Escaped;
    HeadIsNoQuote(body, q);
    NotDoubled(q, body, [q] + rest);
    OpeningOf(prefix, q, t);
    SingleBody(q, body, rest);
    TailAfter(prefix, [q], t);
    ClosedAt(s, |prefix|, [q], |body|);
  }

  lemma {:induction false} SameRun(a: string, b: string, m: nat)
    requires m <= |a|
    ensures Backslashes(a + b, m) == Backslashes(a, m)
  {
    if m > 0 {
      assert (a + b)[m - 1] == a[m - 1];
      SameRun(a, b, m - 1);
    }
  }

  /** Without a closing delimiter the literal runs to the end of the text. */
  lemma Unterminated(prefix: string, q: char, body: string)
    requires IsPrefix(prefix) && q in {'\'', '"'}
    requires forall i :: 0 <= i < |body| && body[i] == q ==> Escaped(body, i)
    ensures LiteralSpan(prefix + ([q] + body)) == Some(Span(|prefix| + 1 + |body|, false))
  {
    var s := prefix + ([q] + body);
    hide LiteralSpan, Opens, IsPrefix, Escaped, ClosesAt;
    HeadIsNoQuote(body, q);
    NotDoubled(q, body, "");
    assert body + "" == body;
    OpeningOf(prefix, q, body);
    TailAfter(prefix, [q], body);
    NeverCloses(body, q);
    assert FirstClose(s[|prefix| + |[q]|..], [q], None);
    SpanOfExtent(s, |s|, false);
  }

  /** A run of more than three prefix letters starts no literal. */
  lemma LongRunIsNoPrefix(s: string)
    requires |s| >= 4 && forall i :: 0 <= i < 4 ==> s[i] in {'r', 'R', 'u', 'U', 'b', 'B', 'f', 'F'}
    ensures LiteralSpan(s).None?
  {
    hide LiteralSpan;
    LiteralExactly(s);
    assert forall p: nat, d :: !Opens(s, p, d);
  }
}
