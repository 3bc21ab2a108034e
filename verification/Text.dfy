/** Python string operations the scripts rely on: whitespace, strip, join, split and decimal text. */
module Text {

  /** The characters for which `str.isspace` holds, which are also the matches of `\s`. */
  predicate IsSpace(c: char) {
    var n := c as int;
    9 <= n <= 13 || 28 <= n <= 32 || n == 0x85 || n == 0xA0 || n == 0x1680 || 0x2000 <= n <= 0x200A
    || n == 0x2028 || n == 0x2029 || n == 0x202F || n == 0x205F || n == 0x3000
  }

  predicate AllSpace(s: string) {
    forall i :: 0 <= i < |s| ==> IsSpace(s[i])
  }

  function LStrip(s: string): (r: string)
    ensures |r| <= |s|
    ensures r != "" ==> !IsSpace(r[0])
  {
    if s != "" && IsSpace(s[0]) then LStrip(s[1..]) else s
  }

  function RStrip(s: string): (r: string)
    ensures r <= s
    ensures r != "" ==> !IsSpace(r[|r| - 1])
  {
    if s != "" && IsSpace(s[|s| - 1]) then RStrip(s[..|s| - 1]) else s
  }

  /** `str.strip()` */
  function Strip(s: string): string {
    RStrip(LStrip(s))
  }

  lemma {:induction false} LStripAllSpace(s: string)
    ensures LStrip(s) == "" <==> AllSpace(s)
  {
    if s != "" && IsSpace(s[0]) {
      LStripAllSpace(s[1..]);
      assert s == [s[0]] + s[1..];
    }
  }

  /** A text strips to nothing exactly when it holds only whitespace. */
  lemma StripAllSpace(s: string)
    ensures Strip(s) == "" <==> AllSpace(s)
  {
    LStripAllSpace(s);
    if LStrip(s) != "" {
      RStripKeepsHead(LStrip(s));
    }
  }

  lemma {:induction false} RStripKeepsHead(s: string)
    requires s != "" && !IsSpace(s[0])
    ensures RStrip(s) != "" && RStrip(s)[0] == s[0]
  {
    hide IsSpace;
    if IsSpace(s[|s| - 1]) {
      RStripKeepsHead(s[..|s| - 1]);
    }
  }

  lemma {:induction false} LStripSplits(s: string) returns (before: string)
    ensures AllSpace(before) && s == before + LStrip(s)
  {
    if s != "" && IsSpace(s[0]) {
      var rest := LStripSplits(s[1..]);
      before := [s[0]] + rest;
      assert s == [s[0]] + s[1..];
    } else {
      before := "";
    }
  }

  lemma {:induction false} RStripSplits(s: string) returns (after: string)
    ensures AllSpace(after) && s == RStrip(s) + after
  {
    if s != "" && IsSpace(s[|s| - 1]) {
      var rest := RStripSplits(s[..|s| - 1]);
      after := rest + [s[|s| - 1]];
      assert s == s[..|s| - 1] + [s[|s| - 1]];
    } else {
      after := "";
    }
  }

  ghost predicate IsStripped(r: string) {
    r != "" ==> !IsSpace(r[0]) && !IsSpace(r[|r| - 1])
  }

  /** The text is `r` between two runs of whitespace. */
  ghost predicate Surrounds(before: string, r: string, after: string, s: string) {
    s == before + r + after && AllSpace(before) && AllSpace(after)
  }

  lemma {:induction false} LStripDrops(before: string, s: string)
    requires AllSpace(before)
    ensures LStrip(before + s) == LStrip(s)
  {
    if before == "" {
      assert before + s == s;
    } else {
      assert (before + s)[1..] == before[1..] + s;
      LStripDrops(before[1..], s);
    }
  }

  lemma {:induction false} RStripDrops(s: string, after: string)
    requires AllSpace(after)
    ensures RStrip(s + after) == RStrip(s)
  {
    if after == "" {
      assert s + after == s;
    } else {
      assert (s + after)[..|s + after| - 1] == s + after[..|after| - 1];
      RStripDrops(s, after[..|after| - 1]);
    }
  }

  /** Stripping takes off the whitespace at both ends, and nothing else. */
  lemma StripExactly(s: string, r: string)
    ensures Strip(s) == r <==> IsStripped(r) && exists before, after :: Surrounds(before, r, after, s)
  {
    hide IsSpace;
    var before := LStripSplits(s);
    var after := RStripSplits(LStrip(s));
    assert Surrounds(before, Strip(s), after, s);
    if Strip(s) != "" {
      assert Strip(s)[0] == LStrip(s)[0];
    }
    if front, back :| Surrounds(front, r, back, s) && IsStripped(r) {
      Assoc(front, r, back);
      LStripDrops(front, r + back);
      StrippedHead(r, back);
    }
  }

  lemma StrippedHead(r: string, back: string)
    requires IsStripped(r) && AllSpace(back)
    ensures Strip(r + back) == r
  {
    if r == "" {
      assert r + back == back;
      LStripAllSpace(back);
    } else {
      assert (r + back)[0] == r[0];
      RStripDrops(r, back);
    }
  }

  /** Stripping a text that starts and ends with visible characters changes nothing. */
  lemma StripVisible(s: string)
    requires s != "" ==> !IsSpace(s[0]) && !IsSpace(s[|s| - 1])
    ensures Strip(s) == s
  {}

  /** `sep.join(parts)` */
  function Join(sep: string, parts: seq<string>): string {
    if parts == [] then ""
    else if |parts| == 1 then parts[0]
    else parts[0] + sep + Join(sep, parts[1..])
  }

  lemma Assoc<T>(a: seq<T>, b: seq<T>, c: seq<T>)
    ensures (a + b) + c == a + (b + c)
  {}

  lemma SliceOfSuffix<T>(s: seq<T>, i: nat, j: nat)
    requires i <= j <= |s|
    ensures s[i..j] == s[i..][..j - i] && s[i..][j - i..] == s[j..]
  {}

  function Concat(parts: seq<string>): string {
    if parts == [] then "" else parts[0] + Concat(parts[1..])
  }

  /** `text.split(sep)`: the fields between separators; never empty. */
  function Split(text: string, sep: char): (fields: seq<string>)
    ensures |fields| >= 1
  {
    if text == "" then [""]
    else
      var rest := Split(text[1..], sep);
      if text[0] == sep then [""] + rest
      else [[text[0]] + rest[0]] + rest[1..]
  }

  lemma {:induction false} SplitHead(field: string, text: string, sep: char)
    requires sep !in field
    ensures Split(field + [sep] + text, sep) == [field] + Split(text, sep)
  {
    var whole := field + [sep] + text;
    if field == "" {
      assert whole[1..] == text;
    } else {
      assert whole[1..] == field[1..] + [sep] + text;
      SplitHead(field[1..], text, sep);
      assert whole[0] == field[0] && field[0] in field;
      assert [field[0]] + field[1..] == field;
    }
  }

  lemma {:induction false} SplitSingle(field: string, sep: char)
    requires sep !in field
    ensures Split(field, sep) == [field]
  {
    if field != "" {
      SplitSingle(field[1..], sep);
      assert [field[0]] + field[1..] == field;
    }
  }

  /** Splitting on the separator recovers every joined field, when no field holds the separator. */
  lemma {:induction false} SplitJoin(fields: seq<string>, sep: char)
    requires fields != [] && forall f <- fields :: sep !in f
    ensures Split(Join([sep], fields), sep) == fields
  {
    if |fields| == 1 {
      SplitSingle(fields[0], sep);
    } else {
      SplitHead(fields[0], Join([sep], fields[1..]), sep);
      SplitJoin(fields[1..], sep);
    }
  }

  predicate IsDigit(c: char) {
    '0' <= c <= '9'
  }

  predicate AllDigits(s: string) {
    forall i :: 0 <= i < |s| ==> IsDigit(s[i])
  }

  function Digit(d: nat): (c: char)
    requires d < 10
    ensures IsDigit(c) && c as int - '0' as int == d
  {
    ('0' as int + d) as char
  }

  function DigitValue(c: char): (d: nat)
    requires IsDigit(c)
    ensures d < 10 && Digit(d) == c
  {
    c as int - '0' as int
  }

  /** `str(n)` for a non-negative integer. */
  function NatText(n: nat): (s: string)
    ensures s != "" && AllDigits(s)
    ensures s[0] == '0' ==> n == 0 && s == "0"
  {
    if n < 10 then [Digit(n)] else NatText(n / 10) + [Digit(n % 10)]
  }

  /** `str(n)` and `json.dumps(n)` for an integer. */
  function IntText(n: int): string {
    if n < 0 then "-" + NatText(-n) else NatText(n)
  }

  /** The value of a run of decimal digits, most significant first. */
  function NatValue(s: string): nat
    requires AllDigits(s)
  {
    if s == "" then 0 else
      NatValue(s[..|s| - 1]) * 10 + DigitValue(s[|s| - 1])
  }

  /** Reading a number's own text gives the number back. */
  lemma {:induction false} NatTextValue(n: nat)
    ensures NatValue(NatText(n)) == n
  {
    var s := NatText(n);
    if n >= 10 {
      NatTextValue(n / 10);
      assert s[..|s| - 1] == NatText(n / 10);
      assert s[|s| - 1] == Digit(n % 10);
    } else {
      assert s[..0] == "";
      assert s[0] == Digit(n);
    }
  }

  lemma NatTextInjective(m: nat, n: nat)
    requires NatText(m) == NatText(n)
    ensures m == n
  {
    NatTextValue(m);
    NatTextValue(n);
  }

  // ----- padding -----

  function Repeat(c: char, k: nat): (r: string)
    ensures |r| == k && forall i :: 0 <= i < k ==> r[i] == c
  {
    seq(k, _ => c)
  }

  /** `s.rjust(width, "0")` */
  function RJust(s: string, width: nat): (r: string)
    ensures |r| == if |s| < width then width else |s|
  {
    if |s| >= width then s else Repeat('0', width - |s|) + s
  }

  lemma {:induction false} LeadingZeros(k: nat, s: string)
    requires AllDigits(s)
    ensures AllDigits(Repeat('0', k) + s) && NatValue(Repeat('0', k) + s) == NatValue(s)
    decreases |s| + k
  {
    var zeros := Repeat('0', k);
    var t := zeros + s;
    if s != "" {
      assert t[..|t| - 1] == zeros + s[..|s| - 1];
      LeadingZeros(k, s[..|s| - 1]);
    } else if k > 0 {
      assert t[..|t| - 1] == Repeat('0', k - 1) + "";
      LeadingZeros(k - 1, "");
    } else {
      assert t == "";
    }
  }

  /** Padding keeps the digits and the value. */
  lemma RJustDigits(s: string, width: nat)
    requires AllDigits(s)
    ensures AllDigits(RJust(s, width)) && NatValue(RJust(s, width)) == NatValue(s)
  {
    hide NatValue;
    if |s| < width {
      LeadingZeros(width - |s|, s);
    }
  }
}
