/**
 Whitespace in comments: what `FRAGMENT_WHITESPACE.sub(" ", ...)` and `strip` leave of a comment, and
 what a comment becomes once its line end is gone.
 */
module FragmentSqueeze {
  import opened Text
  import opened FragmentScanner

  // ----- squeezed text -----

  /** Whitespace is single spaces. */
  predicate IsSqueezed(s: string) {
    forall i :: 0 <= i < |s| && IsSpace(s[i]) ==> s[i] == ' ' && (i + 1 < |s| ==> !IsSpace(s[i + 1]))
  }

  lemma SqueezedCons(c: char, s: string)
    requires IsSqueezed(s) && (IsSpace(c) ==> c == ' ' && (s != "" ==> !IsSpace(s[0])))
    ensures IsSqueezed([c] + s)
  {
    hide IsSpace;
    var t := [c] + s;
    forall i | 0 <= i < |t| && IsSpace(t[i]) ensures t[i] == ' ' && (i + 1 < |t| ==> !IsSpace(t[i + 1])) {
      if i > 0 {
        assert t[i] == s[i - 1] && (i + 1 < |t| ==> t[i + 1] == s[i]);
      }
    }
  }

  lemma {:induction false} SqueezeSqueezes(s: string)
    ensures IsSqueezed(Squeeze(s))
    ensures s != "" && !IsSpace(s[0]) ==> Squeeze(s) != "" && Squeeze(s)[0] == s[0]
    decreases |s|
  {
    hide IsSqueezed;
    if s == "" {
      assert IsSqueezed("") by { EmptyIsSqueezed(); }
    } else if IsSpace(s[0]) {
      SqueezeSqueezes(LStrip(s[1..]));
      SqueezedCons(' ', Squeeze(LStrip(s[1..])));
    } else {
      SqueezeSqueezes(s[1..]);
      SqueezedCons(s[0], Squeeze(s[1..]));
    }
  }

  lemma EmptyIsSqueezed()
    ensures IsSqueezed("")
  {}

  /** Squeezing changes nothing exactly when there is nothing to squeeze. */
  lemma {:induction false} SqueezeFixed(s: string)
    ensures Squeeze(s) == s <==> IsSqueezed(s)
  {
    SqueezeSqueezes(s);
    if IsSqueezed(s) {
      SqueezedIsKept(s);
    }
  }

  lemma {:induction false} SqueezedIsKept(s: string)
    requires IsSqueezed(s)
    ensures Squeeze(s) == s
  {
    if s != "" {
      hide IsSpace;
      forall i | 0 <= i < |s[1..]| && IsSpace(s[1..][i])
        ensures s[1..][i] == ' ' && (i + 1 < |s[1..]| ==> !IsSpace(s[1..][i + 1]))
      {
        assert s[1..][i] == s[i + 1];
      }
      SqueezedIsKept(s[1..]);
      assert [s[0]] + s[1..] == s;
      assert IsSpace(s[0]) && |s| > 1 ==> !IsSpace(s[1]) && LStrip(s[1..]) == s[1..];
    }
  }

  /** Visible-ended pieces one space apart are squeezed together exactly when each is. */
  lemma SqueezedApart(x: string, y: string)
    requires x != "" && y != "" && !IsSpace(x[|x| - 1]) && !IsSpace(y[0])
    ensures IsSqueezed(x + " " + y) <==> IsSqueezed(x) && IsSqueezed(y)
  {
    var t := x + " " + y;
    assert forall i :: 0 <= i < |x| ==> t[i] == x[i];
    assert forall i :: 0 <= i < |y| ==> t[|x| + 1 + i] == y[i];
    assert t[|x|] == ' ' && t[|x| + 1] == y[0];
    hide IsSpace;
    if IsSqueezed(t) {
      forall i | 0 <= i < |y| && IsSpace(y[i]) ensures y[i] == ' ' && (i + 1 < |y| ==> !IsSpace(y[i + 1])) {
        assert t[|x| + 1 + i] == y[i] && (i + 1 < |y| ==> t[|x| + 1 + (i + 1)] == y[i + 1]);
      }
    }
    if IsSqueezed(x) && IsSqueezed(y) {
      forall i | 0 <= i < |t| && IsSpace(t[i]) ensures t[i] == ' ' && (i + 1 < |t| ==> !IsSpace(t[i + 1])) {
        if i > |x| {
          assert t[i] == y[i - |x| - 1] && (i + 1 < |t| ==> t[i + 1] == y[i - |x|]);
        } else if i < |x| {
          assert i + 1 < |x|;
        }
      }
    }
  }

  predicate VisibleEnds(s: string) {
    s != "" && !IsSpace(s[0]) && !IsSpace(s[|s| - 1])
  }

  lemma VisibleIsSqueezed(s: string)
    requires Visible(s)
    ensures IsSqueezed(s)
  {}

  lemma UnderscoreIsVisible()
    ensures !IsSpace('_') && !IsSpace('.') && IsSpace('\n') && IsSpace(' ') && !IsSpace('#')
  {}

  lemma SqueezedHasNoNewline(s: string)
    requires IsSqueezed(s)
    ensures '\n' !in s
  {}

  /** A comment as it is kept. */
  function TidyComment(raw: string): string {
    Strip(Squeeze(raw))
  }

  lemma TidyCommentIsSqueezed(raw: string)
    requires raw != "" && raw[0] == '#'
    ensures var c := TidyComment(raw); VisibleEnds(c) && c[0] == '#' && IsSqueezed(c) && '\n' !in c
  {
    UnderscoreIsVisible();
    SqueezeSqueezes(raw);
    var q := Squeeze(raw);
    hide IsSpace, Squeeze;
    assert LStrip(q) == q;
    RStripKeepsHead(q);
    SqueezedHasNoNewline(TidyComment(raw));
  }

  // ----- what a comment becomes -----

  lemma JoinCons(p: string, rest: seq<string>)
    ensures Join(" ", [p] + rest) == if rest == [] then p else p + (" " + Join(" ", rest))
  {
    assert ([p] + rest)[1..] == rest;
    Assoc(p, " ", Join(" ", rest));
  }

  /** A comment stays as it is exactly when it is squeezed. */
  lemma TidyFixed(t: string)
    requires VisibleEnds(t) && t[0] == '#'
    ensures TidyComment(t) == t <==> IsSqueezed(t)
  {
    hide IsSqueezed, Strip;
    TidyCommentIsSqueezed(t);
    SqueezeFixed(t);
    StripVisible(t);
  }

  function VisibleCount(s: string): nat {
    if s == "" then 0 else (if IsSpace(s[0]) then 0 else 1) + VisibleCount(s[1..])
  }

  lemma {:induction false} CountConcat(s: string, t: string)
    ensures VisibleCount(s + t) == VisibleCount(s) + VisibleCount(t)
  {
    hide IsSpace;
    if s == "" {
      assert s + t == t;
    } else {
      assert (s + t)[1..] == s[1..] + t;
      CountConcat(s[1..], t);
    }
  }

  lemma {:induction false} CountNothing(s: string)
    ensures VisibleCount(s) == 0 <==> AllSpace(s)
  {
    hide IsSpace;
    if s != "" {
      CountNothing(s[1..]);
      assert [s[0]] + s[1..] == s;
    }
  }

  lemma {:induction false} CountLStrip(s: string)
    ensures VisibleCount(LStrip(s)) == VisibleCount(s)
  {
    if s != "" && IsSpace(s[0]) {
      CountLStrip(s[1..]);
    }
  }

  lemma {:induction false} CountRStrip(s: string)
    ensures VisibleCount(RStrip(s)) == VisibleCount(s)
  {
    if s != "" && IsSpace(s[|s| - 1]) {
      var last := s[|s| - 1..];
      CountRStrip(s[..|s| - 1]);
      assert s == s[..|s| - 1] + last && last[1..] == "";
      CountConcat(s[..|s| - 1], last);
    }
  }

  lemma {:induction false} CountSqueeze(s: string)
    ensures VisibleCount(Squeeze(s)) == VisibleCount(s)
    decreases |s|
  {
    if s != "" {
      if IsSpace(s[0]) {
        CountSqueeze(LStrip(s[1..]));
        CountLStrip(s[1..]);
        assert (" " + Squeeze(LStrip(s[1..])))[1..] == Squeeze(LStrip(s[1..]));
      } else {
        CountSqueeze(s[1..]);
        assert ([s[0]] + Squeeze(s[1..]))[1..] == Squeeze(s[1..]);
      }
    }
  }

  /** Tidying a comment keeps its visible characters, so what it cuts off the end is whitespace. */
  lemma TidyCutsSpace(raw: string)
    ensures VisibleCount(TidyComment(raw)) == VisibleCount(raw)
    ensures TidyComment(raw) <= raw ==> AllSpace(raw[|TidyComment(raw)|..])
  {
    hide Squeeze, Strip, IsSpace;
    var c := TidyComment(raw);
    CountStrip(Squeeze(raw));
    CountSqueeze(raw);
    if c <= raw {
      assert raw == c + raw[|c|..];
      CountConcat(c, raw[|c|..]);
      CountNothing(raw[|c|..]);
    }
  }

  lemma CountStrip(s: string)
    ensures VisibleCount(Strip(s)) == VisibleCount(s)
  {
    CountLStrip(s);
    CountRStrip(LStrip(s));
  }

  lemma TidyIsShorter(x: string)
    ensures |TidyComment(x)| <= |x|
  {}

  lemma HeadsAgree(c: string, u: string, x: string, rest: string)
    requires |c| <= |x|
    ensures x + rest <= c + u ==> c <= x
  {
    if x + rest <= c + u {
      assert forall i :: 0 <= i < |c| ==> (c + u)[i] == c[i] && (x + rest)[i] == x[i];
      assert c == x[..|c|];
    }
  }

  /** A line end stands where the joined pieces have none. */
  lemma LineEndIsLost(x: string, rest: string, later: seq<string>)
    requires rest != "" && rest[0] == '\n'
    requires later != [] ==> Join(" ", later) != "" && !IsSpace(Join(" ", later)[0])
    ensures !(x + rest <= Join(" ", [TidyComment(x)] + later))
  {
    hide IsSpace, TidyComment;
    UnderscoreIsVisible();
    var c, t := TidyComment(x), x + rest;
    JoinCons(c, later);
    TidyIsShorter(x);
    if later == [] {
      assert |t| > |c|;
    } else {
      var u := " " + Join(" ", later);
      HeadsAgree(c, u, x, rest);
      if c <= x {
        TidyCutsSpace(x);
        var w := x[|c|..];
        assert x == c + w;
        if w == "" {
          assert t[|c|] == '\n' && (c + u)[|c|] == ' ';
        } else {
          assert t[|c| + 1] == if |w| > 1 then w[1] else '\n';
          assert IsSpace(t[|c| + 1]) && (c + u)[|c| + 1] == u[1];
        }
      }
    }
  }

  lemma {:induction false} LongLine(t: string, k: nat)
    requires k <= |t| && forall i :: 0 <= i < k ==> t[i] != '\n'
    ensures LineLength(t) >= k
  {
    if k > 0 {
      LongLine(t[1..], k - 1);
    }
  }

  /** A comment that takes in what follows on its line has more to see than before. */
  lemma LongerComment(c: string, rest: string)
    requires '\n' !in c && rest != "" && !IsSpace(rest[0])
    ensures var t := c + (" " + rest); TidyComment(t[..LineLength(t)]) != c
  {
    hide TidyComment, IsSpace;
    UnderscoreIsVisible();
    var t := c + (" " + rest);
    forall i | 0 <= i < |c| + 2 ensures t[i] != '\n' {
      assert t[i] == if i < |c| then c[i] else if i == |c| then ' ' else rest[0];
    }
    LongLine(t, |c| + 2);
    var x := t[..LineLength(t)];
    var more := x[|c| + 1..];
    assert more[0] == rest[0];
    assert x == c + " " + more;
    CountConcat(c + " ", more);
    CountConcat(c, " ");
    TidyCutsSpace(x);
  }
}
