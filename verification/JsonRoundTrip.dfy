/** Reading what `_encode_json` printed gives the same document back, up to the form of its numbers. */
module JsonRoundTrip {
  import opened Wrappers
  import opened Text
  import opened Sorting
  import opened Json
  import opened JsonText

  /** A document as it comes back: a decimal printed without a point is read as an integer. */
  function Reread(v: Json): Json {
    match v
    case Dec(d) =>
      if d.exponent < 0 then v
      else
        var m := d.coefficient * Pow10(d.exponent);
        Int(if d.negative then -m else m)
    case Arr(items) => Arr(seq(|items|, i requires 0 <= i < |items| => Reread(items[i])))
    case Obj(members) =>
      Obj(seq(|members|, i requires 0 <= i < |members| => Member(members[i].key, Reread(members[i].value))))
    case _ => v
  }

  // ----- numbers -----

  lemma {:induction false} DigitRunWhole(digits: string, rest: string)
    requires AllDigits(digits) && (rest != "" ==> !IsDigit(rest[0]))
    ensures DigitRun(digits + rest) == |digits|
  {
    if digits == "" {
      assert digits + rest == rest;
    } else {
      assert (digits + rest)[1..] == digits[1..] + rest;
      assert (digits + rest)[0] == digits[0];
      DigitRunWhole(digits[1..], rest);
    }
  }

  lemma {:induction false} TrailingZeros(s: string, k: nat)
    requires AllDigits(s)
    ensures AllDigits(s + Repeat('0', k)) && NatValue(s + Repeat('0', k)) == NatValue(s) * Pow10(k)
  {
    var t := s + Repeat('0', k);
    if k == 0 {
      assert t == s;
    } else {
      assert t[..|t| - 1] == s + Repeat('0', k - 1);
      TrailingZeros(s, k - 1);
      assert NatValue(t) == NatValue(t[..|t| - 1]) * 10;
      TimesTen(NatValue(s), Pow10(k - 1));
    }
  }

  lemma TimesTen(a: int, b: int)
    ensures a * b * 10 == a * (10 * b)
  {}

  /** What may follow a number without being taken for a part of it. */
  predicate Ends(rest: string) {
    rest != "" ==> rest[0] == '\n' || rest[0] == ','
  }

  lemma NothingAfter(negative: bool, digits: string, rest: string)
    requires AllDigits(digits) && Ends(rest)
    ensures ReadFraction(rest) == Some(("", rest))
    ensures var n := NatValue(digits);
      ReadMagnitude(negative, digits, "", rest) == Some((Int(if negative then 0 - n else n), rest))
  {
    hide NatValue;
    assert digits + "" == digits;
  }

  lemma WholeNumber(negative: bool, digits: string, rest: string)
    requires digits != "" && AllDigits(digits) && (|digits| > 1 ==> digits[0] != '0') && Ends(rest)
    ensures var n := NatValue(digits);
      ReadUnsigned(negative, digits + rest) == Some((Int(if negative then 0 - n else n), rest))
  {
    DigitRunWhole(digits, rest);
    NothingAfter(negative, digits, rest);
    hide NatValue, DigitRun, IsDigit, ReadFraction, ReadMagnitude;
    var t := digits + rest;
    assert t[..|digits|] == digits && t[|digits|..] == rest && t[0] == digits[0];
  }

  lemma PointNumber(negative: bool, whole: string, fraction: string, rest: string)
    requires whole != "" && AllDigits(whole) && (|whole| > 1 ==> whole[0] != '0')
    requires fraction != "" && AllDigits(fraction) && Ends(rest) && AllDigits(whole + fraction)
    ensures ReadUnsigned(negative, whole + ("." + (fraction + rest)))
      == Some((Dec(Decimal(negative, NatValue(whole + fraction), -|fraction|)), rest))
  {
    var tail := "." + (fraction + rest);
    DigitRunWhole(whole, tail);
    ReadPoint(fraction, rest);
    hide NatValue, DigitRun, IsDigit, ReadFraction;
    var t := whole + tail;
    assert t[..|whole|] == whole && t[|whole|..] == tail && t[0] == whole[0];
  }

  lemma ReadPoint(fraction: string, rest: string)
    requires fraction != "" && AllDigits(fraction) && Ends(rest)
    ensures ReadFraction("." + (fraction + rest)) == Some((fraction, rest))
  {
    DigitRunWhole(fraction, rest);
    var t := fraction + rest;
    assert ("." + t)[1..] == t;
    assert t[..|fraction|] == fraction && t[|fraction|..] == rest;
  }

  /** A sign before the digits is read as one. */
  lemma Signed(negative: bool, t: string)
    requires t != "" && t[0] != '-'
    ensures ReadNumber((if negative then "-" else "") + t) == ReadUnsigned(negative, t)
  {
    hide ReadUnsigned;
    assert ("-" + t)[1..] == t && "" + t == t;
  }

  lemma PaddedValue(n: nat, k: nat)
    ensures NatValue(Padded(n, k)) == n
  {
    NatTextValue(n);
    RJustDigits(NatText(n), k + 1);
  }

  lemma PaddedHead(n: nat, k: nat)
    ensures var p := Padded(n, k); |p| - k > 1 ==> p[0] != '0'
  {
    hide NatValue;
  }

  lemma ReadDecimal(d: Decimal, rest: string)
    requires Ends(rest)
    ensures ReadNumber(DecimalText(d) + rest) == Some((Reread(Dec(d)), rest))
  {
    var sign := if d.negative then "-" else "";
    hide ReadNumber, ReadUnsigned;
    if d.exponent < 0 {
      ReadFractional(d, rest);
    } else {
      var digits := if d.coefficient == 0 then "0" else NatText(d.coefficient) + Repeat('0', d.exponent);
      WholeDigits(d);
      WholeNumber(d.negative, digits, rest);
      Signed(d.negative, digits + rest);
      Assoc(sign, digits, rest);
    }
  }

  lemma WholeDigits(d: Decimal)
    requires d.exponent >= 0
    ensures var digits := if d.coefficient == 0 then "0" else NatText(d.coefficient) + Repeat('0', d.exponent);
      && AllDigits(digits) && (|digits| > 1 ==> digits[0] != '0')
      && NatValue(digits) == d.coefficient * Pow10(d.exponent)
  {
    NatTextValue(d.coefficient);
    if d.coefficient == 0 {
      assert NatText(0) == "0";
    } else {
      TrailingZeros(NatText(d.coefficient), d.exponent);
    }
  }

  lemma ReadFractional(d: Decimal, rest: string)
    requires Ends(rest) && d.exponent < 0
    ensures ReadNumber(DecimalText(d) + rest) == Some((Dec(d), rest))
  {
    hide ReadNumber, ReadUnsigned, Padded, NatValue, IsDigit, Ends;
    var sign := if d.negative then "-" else "";
    var k := -d.exponent;
    var p := Padded(d.coefficient, k);
    var point := |p| - k;
    PaddedValue(d.coefficient, k);
    PaddedHead(d.coefficient, k);
    var whole, fraction := p[..point], p[point..];
    assert whole + fraction == p && AllDigits(whole) && AllDigits(fraction);
    PointNumber(d.negative, whole, fraction, rest);
    FirstDigit(whole, "." + (fraction + rest));
    Signed(d.negative, whole + ("." + (fraction + rest)));
    PointText(sign, whole, fraction, rest);
  }

  lemma FirstDigit(digits: string, rest: string)
    requires digits != "" && AllDigits(digits)
    ensures (digits + rest)[0] != '-'
  {
    assert IsDigit(digits[0]);
  }

  lemma DecimalStarts(d: Decimal)
    ensures DecimalText(d) != "" && (DecimalText(d)[0] == '-' || IsDigit(DecimalText(d)[0]))
  {
    hide Padded, NatText;
    if d.exponent < 0 {
      assert IsDigit(Padded(d.coefficient, -d.exponent)[0]);
    } else {
      assert IsDigit(NatText(d.coefficient)[0]);
    }
  }

  lemma PointText(sign: string, whole: string, fraction: string, rest: string)
    ensures sign + (whole + "." + fraction) + rest == sign + (whole + ("." + (fraction + rest)))
  {
    Assoc(whole, ".", fraction);
    Assoc(sign, whole + "." + fraction, rest);
    Assoc(whole, "." + fraction, rest);
    Assoc(".", fraction, rest);
  }

  // ----- strings -----

  lemma ReadHexDigits(n: nat, t: string)
    requires n < 0x1_0000
    ensures ReadHex4(Hex4(n) + t) == Some(n)
    ensures (Hex4(n) + t)[4..] == t
  {
    HexRoundTrip(n / 4096);
    HexRoundTrip(n / 256 % 16);
    HexRoundTrip(n / 16 % 16);
    HexRoundTrip(n % 16);
    HexSum(n);
  }

  lemma HexRoundTrip(d: nat)
    requires d < 16
    ensures HexValue(HexDigit(d)) == Some(d)
  {}

  lemma HexSum(n: nat)
    requires n < 0x1_0000
    ensures n / 4096 < 16 && n == n / 4096 * 4096 + n / 256 % 16 * 256 + n / 16 % 16 * 16 + n % 16
  {
    assert n / 4096 == n / 256 / 16;
    assert n / 256 == n / 16 / 16;
  }

  lemma ReadUnitEscape(x: string)
    ensures ReadChar("\\u" + x) == ReadUnit(x)
  {
    hide ReadUnit;
    assert ("\\u" + x)[2..] == x;
  }

  lemma ReadShortEscape(c: char, t: string)
    requires c as int < 32 || c == '"' || c == '\\'
    requires |EscapeChar(c)| == 2
    ensures ReadChar(EscapeChar(c) + t) == Some((c, t))
  {
    hide ReadUnit;
    assert (EscapeChar(c) + t)[2..] == t;
  }

  /** An escaped character is read back as itself. */
  lemma ReadEscaped(c: char, t: string)
    ensures ReadChar(EscapeChar(c) + t) == Some((c, t))
    ensures EscapeChar(c)[0] != '"'
  {
    hide ReadUnit, Hex4;
    var n := c as int;
    if 32 <= n < 127 && c != '"' && c != '\\' {
      assert ([c] + t)[1..] == t;
    } else if |EscapeChar(c)| == 2 {
      ReadShortEscape(c, t);
    } else if n < 0x1_0000 {
      ReadOneUnit(n, t);
      Assoc("\\u", Hex4(n), t);
      ReadUnitEscape(Hex4(n) + t);
    } else {
      var m := n - 0x1_0000;
      var high, low := Hex4(0xD800 + m / 1024), Hex4(0xDC00 + m % 1024);
      ReadSurrogates(n, t);
      ReadUnitEscape(high + ("\\u" + low + t));
      EscapePair(high, low, t);
    }
  }

  lemma EscapePair(high: string, low: string, t: string)
    ensures "\\u" + high + "\\u" + low + t == "\\u" + (high + ("\\u" + low + t))
  {
    Assoc("\\u" + high, "\\u", low);
    Assoc("\\u" + high, "\\u" + low, t);
    Assoc("\\u", high, "\\u" + low + t);
  }

  lemma ReadOneUnit(n: int, t: string)
    requires 0 <= n < 0xD800 || 0xE000 <= n < 0x1_0000
    ensures ReadUnit(Hex4(n) + t) == Some((n as char, t))
  {
    ReadHexDigits(n, t);
    hide Hex4;
  }

  lemma SurrogateSum(n: int)
    requires 0x1_0000 <= n < 0x11_0000
    ensures var m := n - 0x1_0000;
      && 0xD800 <= 0xD800 + m / 1024 <= 0xDBFF && 0xDC00 <= 0xDC00 + m % 1024 <= 0xDFFF
      && 0x1_0000 + m / 1024 * 1024 + m % 1024 == n
  {}

  lemma ReadSurrogates(n: int, t: string)
    requires 0x1_0000 <= n < 0x11_0000
    ensures var m := n - 0x1_0000;
      ReadUnit(Hex4(0xD800 + m / 1024) + ("\\u" + Hex4(0xDC00 + m % 1024) + t)) == Some((n as char, t))
  {
    SurrogateSum(n);
    var m := n - 0x1_0000;
    var high, low := 0xD800 + m / 1024, 0xDC00 + m % 1024;
    ReadHexDigits(high, "\\u" + Hex4(low) + t);
    ReadHexDigits(low, t);
    ReadPair(Hex4(high), high, Hex4(low), low, t);
  }

  lemma ReadPair(highText: string, high: nat, lowText: string, low: nat, t: string)
    requires |highText| == |lowText| == 4 && 0xD800 <= high <= 0xDBFF && 0xDC00 <= low <= 0xDFFF
    requires ReadHex4(highText + ("\\u" + lowText + t)) == Some(high) && ReadHex4(lowText + t) == Some(low)
    ensures ReadUnit(highText + ("\\u" + lowText + t))
      == Some(((0x1_0000 + (high - 0xD800) * 1024 + (low - 0xDC00)) as char, t))
  {
    hide ReadHex4;
    UnitTail(highText, lowText, t);
  }

  lemma UnitTail(high: string, low: string, t: string)
    requires |high| == 4 && |low| == 4
    ensures var s := high + ("\\u" + low + t);
      |s| >= 10 && s[4] == '\\' && s[5] == 'u' && s[6..] == low + t && s[10..] == t
  {
    Assoc("\\u", low, t);
    Assoc(high, "\\u", low + t);
    var s := (high + "\\u") + (low + t);
    assert s[6..] == low + t;
    assert s[10..] == (low + t)[4..] == t;
  }

  lemma {:induction false} ReadEscapedBody(s: string, rest: string)
    ensures ReadBody(Escaped(s) + "\"" + rest) == Some((s, rest))
  {
    if s == "" {
      assert "" + "\"" + rest == "\"" + rest;
      assert ("\"" + rest)[1..] == rest;
    } else {
      var head, tail := EscapeChar(s[0]), Escaped(s[1..]) + "\"" + rest;
      Assoc(head, Escaped(s[1..]), "\"");
      Assoc(head, Escaped(s[1..]) + "\"", rest);
      assert Escaped(s) + "\"" + rest == head + tail;
      ReadEscaped(s[0], tail);
      assert (head + tail)[0] == head[0];
      ReadEscapedBody(s[1..], rest);
      assert [s[0]] + s[1..] == s;
    }
  }

  lemma ReadQuoted(s: string, rest: string)
    ensures var q := Quote(s) + rest;
      q[0] == '"' && ReadBody(q[1..]) == Some((s, rest))
  {
    Assoc("\"", Escaped(s), "\"");
    Assoc("\"", Escaped(s) + "\"", rest);
    assert (Quote(s) + rest)[1..] == Escaped(s) + "\"" + rest;
    ReadEscapedBody(s, rest);
  }

  // ----- documents -----

  lemma {:induction false} SkipIndent(k: nat, t: string)
    requires t != "" && !IsBlank(t[0])
    ensures SkipBlanks(Repeat(' ', k) + t) == t
  {
    if k == 0 {
      assert Repeat(' ', 0) + t == t;
    } else {
      assert (Repeat(' ', k) + t)[1..] == Repeat(' ', k - 1) + t;
      SkipIndent(k - 1, t);
    }
  }

  lemma SkipLine(k: nat, t: string)
    requires t != "" && !IsBlank(t[0])
    ensures SkipBlanks("\n" + (Repeat(' ', k) + t)) == t
  {
    SkipIndent(k, t);
    assert ("\n" + (Repeat(' ', k) + t))[1..] == Repeat(' ', k) + t;
  }

  /** What an encoded value starts with: never a blank, a comma or a closing bracket. */
  predicate Starts(s: string) {
    s != "" && (s[0] in "[{\"ntf-" || IsDigit(s[0]))
  }

  lemma EncodeStarts(v: Json, indent: nat)
    ensures Starts(Encode(v, indent))
  {
    match v
    case Int(n) => assert IsDigit(NatText(if n < 0 then -n else n)[0]);
    case Dec(d) => DecimalStarts(d);
    case Arr(items) =>
    case Obj(members) =>
    case _ =>
  }

  lemma ReadInt(n: int, rest: string)
    requires Ends(rest)
    ensures Read(IntText(n) + rest) == Some((Int(n), rest))
  {
    hide Read, ReadNumber, ReadUnsigned, NatText, NatValue, Ends;
    var m := if n < 0 then -n else n;
    NatTextValue(m);
    WholeNumber(n < 0, NatText(m), rest);
    Signed(n < 0, NatText(m) + rest);
    Assoc(if n < 0 then "-" else "", NatText(m), rest);
    assert "" + NatText(m) == NatText(m);
    NumberIsRead(IntText(n) + rest);
  }

  lemma NumberIsRead(s: string)
    requires s != "" && (s[0] == '-' || IsDigit(s[0]))
    ensures Read(s) == ReadNumber(s)
  {
    hide ReadNumber, ReadItems, ReadMembers, ReadBody;
  }

  lemma ReadScalar(v: Json, indent: nat, rest: string)
    requires !v.Arr? && !v.Obj? && Ends(rest)
    ensures Read(Encode(v, indent) + rest) == Some((Reread(v), rest))
  {
    hide ReadNumber, ReadBody, ReadItems, ReadMembers;
    var s := Encode(v, indent) + rest;
    match v
    case Null => assert s[4..] == rest;
    case Bool(b) => assert s[if b then 4 else 5..] == rest;
    case Int(n) => ReadInt(n, rest);
    case Dec(d) =>
      ReadDecimal(d, rest);
      DecimalStarts(d);
      assert s[0] == DecimalText(d)[0];
      NumberIsRead(s);
    case Str(t) => ReadQuoted(t, rest);
  }

  lemma ReadEmpty(open: char, close: char, rest: string)
    requires (open == '[' && close == ']') || (open == '{' && close == '}')
    ensures Read([open, close] + rest) == Some((if open == '[' then Arr([]) else Obj([]), rest))
  {
    hide ReadItems, ReadMembers;
    var s := [open, close] + rest;
    assert s[1..] == [close] + rest;
    assert SkipBlanks(s[1..]) == s[1..];
    assert ([close] + rest)[1..] == rest;
  }

  /** A bracketed text of several lines, seen from inside its brackets. */
  lemma OpenBracket(open: string, body: string, indent: nat, close: string, rest: string)
    requires |open| == 2 && open[1] == '\n'
    ensures var s := open + body + "\n" + Repeat(' ', indent) + close + rest;
      s[0] == open[0] && s[1..] == "\n" + (body + ("\n" + (Repeat(' ', indent) + (close + rest))))
  {
    var pad := Repeat(' ', indent);
    Assoc(open + body + "\n" + pad, close, rest);
    Assoc(open + body + "\n", pad, close + rest);
    Assoc(open + body, "\n", pad + (close + rest));
    Assoc(open, body, "\n" + (pad + (close + rest)));
    var tail := body + ("\n" + (pad + (close + rest)));
    assert (open + tail)[1..] == "\n" + tail;
  }

  /** Reading an encoded value gives its re-read form and leaves what follows it. */
  lemma {:induction false} ReadEncode(v: Json, indent: nat, rest: string)
    requires WellFormed(v) && Ends(rest)
    ensures Read(Encode(v, indent) + rest) == Some((Reread(v), rest))
    decreases v, 0
  {
    match v
    case Arr(items) =>
      if items == [] {
        ReadEmpty('[', ']', rest);
        assert "[]" == ['[', ']'] && Reread(v) == Arr([]);
      } else {
        ReadArray(items, indent, rest);
      }
    case Obj(members) =>
      if members == [] {
        ReadEmpty('{', '}', rest);
        assert "{}" == ['{', '}'] && Reread(v) == Obj([]);
      } else {
        ReadObject(members, indent, rest);
      }
    case _ => ReadScalar(v, indent, rest);
  }

  lemma {:induction false} ReadArray(items: seq<Json>, indent: nat, rest: string)
    requires items != [] && WellFormed(Arr(items))
    ensures Read(Encode(Arr(items), indent) + rest) == Some((Reread(Arr(items)), rest))
    decreases items, 1
  {
    hide Read, ReadItems, SkipBlanks, EncodeItems;
    var tail := "]" + rest;
    ReadEncodedItems(items, indent + 2, indent, [], rest);
    var body := EncodeItems(items, indent + 2) + ("\n" + (Repeat(' ', indent) + tail));
    OpenBracket("[\n", EncodeItems(items, indent + 2), indent, "]", rest);
    ItemsStart(items, indent + 2, "\n" + (Repeat(' ', indent) + tail));
    assert [] + RereadItems(items) == RereadItems(items);
    ReadBracket(Encode(Arr(items), indent) + rest, body);
  }

  lemma ReadBracket(s: string, body: string)
    requires |s| > 1 && s[0] == '[' && s[1..] == "\n" + body
    requires Starts(SkipBlanks(body))
    ensures Read(s) == ReadItems(SkipBlanks(body), [])
  {
    hide ReadItems;
    assert ("\n" + body)[1..] == body;
  }

  function RereadItems(items: seq<Json>): seq<Json> {
    seq(|items|, i requires 0 <= i < |items| => Reread(items[i]))
  }

  /** The first line of the items, past its indentation. */
  lemma ItemsStart(items: seq<Json>, indent: nat, tail: string)
    requires items != []
    ensures var more := if |items| == 1 then "" else ",\n" + EncodeItems(items[1..], indent);
      SkipBlanks(EncodeItems(items, indent) + tail) == Encode(items[0], indent) + (more + tail)
    ensures Starts(SkipBlanks(EncodeItems(items, indent) + tail))
  {
    hide SkipBlanks;
    var more := if |items| == 1 then "" else ",\n" + EncodeItems(items[1..], indent);
    var first := Encode(items[0], indent);
    EncodeStarts(items[0], indent);
    hide Encode;
    Assoc(Repeat(' ', indent), first, more);
    Assoc(Repeat(' ', indent), first + more, tail);
    Assoc(first, more, tail);
    assert (first + (more + tail))[0] == first[0];
    SkipIndent(indent, first + (more + tail));
  }

  lemma {:induction false} ReadEncodedItems(
      items: seq<Json>, indent: nat, outer: nat, seen: seq<Json>, rest: string)
    requires items != [] && WellFormed(Arr(items))
    ensures var tail := "\n" + (Repeat(' ', outer) + ("]" + rest));
      ReadItems(SkipBlanks(EncodeItems(items, indent) + tail), seen)
        == Some((Arr(seen + RereadItems(items)), rest))
    decreases items, 0
  {
    hide Encode, EncodeItems, Read, ReadItems, SkipBlanks;
    var tail := "\n" + (Repeat(' ', outer) + ("]" + rest));
    ItemsStart(items, indent, tail);
    var more := if |items| == 1 then "" else ",\n" + EncodeItems(items[1..], indent);
    ReadEncode(items[0], indent, more + tail);
    if |items| == 1 {
      assert more + tail == tail;
      SkipLine(outer, "]" + rest);
      assert ("]" + rest)[1..] == rest;
      assert RereadItems(items) == [Reread(items[0])];
      LastItem(SkipBlanks(EncodeItems(items, indent) + tail), seen, Reread(items[0]), tail, rest);
    } else {
      var next := EncodeItems(items[1..], indent) + tail;
      ReadEncodedItems(items[1..], indent, outer, seen + [Reread(items[0])], rest);
      Assoc(",\n", EncodeItems(items[1..], indent), tail);
      NextItem(SkipBlanks(EncodeItems(items, indent) + tail), seen, Reread(items[0]), next);
      assert RereadItems(items) == [Reread(items[0])] + RereadItems(items[1..]);
      Assoc(seen, [Reread(items[0])], RereadItems(items[1..]));
    }
  }

  lemma LastItem(s: string, seen: seq<Json>, v: Json, tail: string, rest: string)
    requires Read(s) == Some((v, tail)) && SkipBlanks(tail) == "]" + rest
    ensures ReadItems(s, seen) == Some((Arr(seen + [v]), rest))
  {
    hide Read, SkipBlanks;
    assert ("]" + rest)[1..] == rest;
  }

  lemma NextItem(s: string, seen: seq<Json>, v: Json, next: string)
    requires Read(s) == Some((v, ",\n" + next))
    ensures ReadItems(s, seen) == ReadItems(SkipBlanks(next), seen + [v])
  {
    hide Read;
    var t := ",\n" + next;
    assert SkipBlanks(t) == t;
    assert t[1..] == "\n" + next && ("\n" + next)[1..] == next;
    assert SkipBlanks(t[1..]) == SkipBlanks(next);
  }

  // ----- objects -----

  function RereadMembers(members: seq<Member>): seq<Member> {
    seq(|members|, i requires 0 <= i < |members| => Member(members[i].key, Reread(members[i].value)))
  }

  lemma {:induction false} PutNew(seen: seq<Member>, key: string, v: Json)
    requires key !in Keys(seen)
    ensures Put(seen, key, v) == seen + [Member(key, v)]
  {
    if seen != [] {
      assert Keys(seen)[0] == seen[0].key;
      assert Keys(seen[1..]) == Keys(seen)[1..];
      PutNew(seen[1..], key, v);
    }
  }

  lemma {:induction false} ReadObject(members: seq<Member>, indent: nat, rest: string)
    requires members != [] && WellFormed(Obj(members))
    ensures Read(Encode(Obj(members), indent) + rest) == Some((Reread(Obj(members)), rest))
    decreases members, 1
  {
    hide Read, ReadMembers, SkipBlanks, EncodeMembers;
    var tail := "}" + rest;
    assert Keys([]) + Keys(members) == Keys(members);
    ReadEncodedMembers(members, indent + 2, indent, [], rest);
    var body := EncodeMembers(members, indent + 2) + ("\n" + (Repeat(' ', indent) + tail));
    OpenBracket("{\n", EncodeMembers(members, indent + 2), indent, "}", rest);
    MembersStart(members, indent + 2, "\n" + (Repeat(' ', indent) + tail));
    assert [] + RereadMembers(members) == RereadMembers(members);
    ReadBrace(Encode(Obj(members), indent) + rest, body);
  }

  lemma ReadBrace(s: string, body: string)
    requires |s| > 1 && s[0] == '{' && s[1..] == "\n" + body
    requires Starts(SkipBlanks(body))
    ensures Read(s) == ReadMembers(SkipBlanks(body), [])
  {
    hide ReadMembers;
    assert ("\n" + body)[1..] == body;
  }

  /** The first member's line, past its indentation. */
  lemma MembersStart(members: seq<Member>, indent: nat, tail: string)
    requires members != []
    ensures var more := if |members| == 1 then "" else ",\n" + EncodeMembers(members[1..], indent);
      SkipBlanks(EncodeMembers(members, indent) + tail)
        == Quote(members[0].key) + (": " + (Encode(members[0].value, indent) + (more + tail)))
    ensures Starts(SkipBlanks(EncodeMembers(members, indent) + tail))
  {
    hide SkipBlanks, Encode;
    var more := if |members| == 1 then "" else ",\n" + EncodeMembers(members[1..], indent);
    var name, value := Quote(members[0].key), Encode(members[0].value, indent);
    Assoc(Repeat(' ', indent), name + ": " + value, more);
    Assoc(Repeat(' ', indent), name + ": " + value + more, tail);
    Assoc(name + ": " + value, more, tail);
    Assoc(name + ": ", value, more + tail);
    Assoc(name, ": ", value + (more + tail));
    assert (name + (": " + (value + (more + tail))))[0] == name[0] == '"';
    SkipIndent(indent, name + (": " + (value + (more + tail))));
  }

  lemma {:induction false} ReadEncodedMembers(
      members: seq<Member>, indent: nat, outer: nat, seen: seq<Member>, rest: string)
    requires members != [] && WellFormed(Obj(members)) && Distinct(Keys(seen) + Keys(members))
    ensures var tail := "\n" + (Repeat(' ', outer) + ("}" + rest));
      ReadMembers(SkipBlanks(EncodeMembers(members, indent) + tail), seen)
        == Some((Obj(seen + RereadMembers(members)), rest))
    decreases members, 0
  {
    hide Encode, EncodeMembers, Quote, Read, ReadMembers, SkipBlanks, ReadsMember;
    var tail := "\n" + (Repeat(' ', outer) + ("}" + rest));
    var m := members[0];
    var own := Member(m.key, Reread(m.value));
    MembersStart(members, indent, tail);
    var more := if |members| == 1 then "" else ",\n" + EncodeMembers(members[1..], indent);
    ReadEncode(m.value, indent, more + tail);
    NewKey(seen, members);
    PutNew(seen, m.key, Reread(m.value));
    var s := SkipBlanks(EncodeMembers(members, indent) + tail);
    if |members| == 1 {
      assert more + tail == tail;
      SkipLine(outer, "}" + rest);
      assert RereadMembers(members) == [own];
      ReadName(m.key, m.value, indent, tail);
      LastMember(s, seen, own, tail, rest);
    } else {
      var next := EncodeMembers(members[1..], indent) + tail;
      MoreKeys(seen, members, own);
      ReadEncodedMembers(members[1..], indent, outer, seen + [own], rest);
      Assoc(",\n", EncodeMembers(members[1..], indent), tail);
      ReadName(m.key, m.value, indent, more + tail);
      NextMember(s, seen, own, next);
      assert RereadMembers(members) == [own] + RereadMembers(members[1..]);
      Assoc(seen, [own], RereadMembers(members[1..]));
    }
  }

  lemma NewKey(seen: seq<Member>, members: seq<Member>)
    requires members != [] && Distinct(Keys(seen) + Keys(members))
    ensures members[0].key !in Keys(seen)
  {
    var all := Keys(seen) + Keys(members);
    assert all[|seen|] == members[0].key;
    forall i | 0 <= i < |seen| ensures Keys(seen)[i] != members[0].key {
      assert all[i] == Keys(seen)[i];
    }
  }

  lemma MoreKeys(seen: seq<Member>, members: seq<Member>, own: Member)
    requires |members| > 1 && Distinct(Keys(seen) + Keys(members)) && own.key == members[0].key
    requires WellFormed(Obj(members))
    ensures Distinct(Keys(seen + [own]) + Keys(members[1..])) && WellFormed(Obj(members[1..]))
  {
    assert Keys(seen + [own]) + Keys(members[1..]) == Keys(seen) + Keys(members);
    forall i, j | 0 <= i < j < |members| - 1 ensures Keys(members[1..])[i] != Keys(members[1..])[j] {
      assert Keys(members)[i + 1] != Keys(members)[j + 1];
    }
  }

  /** What reading a member's line comes to: its name, then its value. */
  ghost predicate ReadsMember(s: string, own: Member, tail: string) {
    && s != "" && s[0] == '"' && ReadBody(s[1..]).Some?
    && var (key, rest) := ReadBody(s[1..]).value;
       var t := SkipBlanks(rest);
       && key == own.key && t != "" && t[0] == ':'
       && Read(SkipBlanks(t[1..])) == Some((own.value, tail))
  }

  lemma ReadName(key: string, v: Json, indent: nat, tail: string)
    requires Read(Encode(v, indent) + tail) == Some((Reread(v), tail))
    ensures ReadsMember(Quote(key) + (": " + (Encode(v, indent) + tail)), Member(key, Reread(v)), tail)
  {
    var value := Encode(v, indent) + tail;
    EncodeStarts(v, indent);
    assert value[0] == Encode(v, indent)[0];
    ReadQuoted(key, ": " + value);
    hide Read, ReadBody, Encode, Quote;
    Colon(value);
    hide SkipBlanks;
  }

  lemma Colon(value: string)
    requires value != "" && !IsBlank(value[0])
    ensures var t := ": " + value; SkipBlanks(t) == t && SkipBlanks(t[1..]) == value
  {
    var t := ": " + value;
    assert t[1..] == " " + value && (" " + value)[1..] == value;
  }

  lemma LastMember(s: string, seen: seq<Member>, own: Member, tail: string, rest: string)
    requires ReadsMember(s, own, tail) && SkipBlanks(tail) == "}" + rest
    requires Put(seen, own.key, own.value) == seen + [own]
    ensures ReadMembers(s, seen) == Some((Obj(seen + [own]), rest))
  {
    hide Read, ReadBody, SkipBlanks;
    assert ("}" + rest)[1..] == rest;
  }

  lemma NextMember(s: string, seen: seq<Member>, own: Member, next: string)
    requires ReadsMember(s, own, ",\n" + next)
    requires Put(seen, own.key, own.value) == seen + [own]
    ensures ReadMembers(s, seen) == ReadMembers(SkipBlanks(next), seen + [own])
  {
    hide Read, ReadBody;
    var t := ",\n" + next;
    assert SkipBlanks(t) == t;
    assert t[1..] == "\n" + next && ("\n" + next)[1..] == next;
    assert SkipBlanks(t[1..]) == SkipBlanks(next);
  }

  // ----- the whole file -----

  /** `_write_json` followed by `json.loads`: the document comes back, with its numbers re-read. */
  lemma RoundTrip(v: Json)
    requires WellFormed(v)
    ensures ReadDocument(Encode(v, 0) + "\n") == Some(Reread(v))
  {
    assert SkipBlanks("\n") == "";
    EncodeStarts(v, 0);
    ReadEncode(v, 0, "\n");
    hide Read, Encode;
    assert (Encode(v, 0) + "\n")[0] == Encode(v, 0)[0];
  }

  lemma RereadValue(d: Decimal)
    ensures NumberOf(Reread(Dec(d))) == NumberOf(Dec(d))
  {
    hide Pow10;
    if d.exponent >= 0 {
      var c, p := d.coefficient, Pow10(d.exponent);
      ProductAsReal(c, p);
      assert (-(c * p)) as real == -((c * p) as real);
    }
  }

  lemma {:induction false} ProductAsReal(a: nat, b: nat)
    ensures (a * b) as real == a as real * b as real
  {
    if b > 0 {
      ProductAsReal(a, b - 1);
      assert a * b == a * (b - 1) + a;
    }
  }

  lemma RereadKeepsKeys(members: seq<Member>)
    ensures Keys(RereadMembers(members)) == Keys(members)
  {}

  lemma {:induction false} LookupAt(members: seq<Member>, i: nat)
    requires i < |members| && Distinct(Keys(members))
    ensures Lookup(members, members[i].key) == Some(members[i].value)
  {
    if i > 0 {
      assert Keys(members)[0] != Keys(members)[i];
      assert Keys(members[1..]) == Keys(members)[1..];
      LookupAt(members[1..], i - 1);
    }
  }

  /** Re-reading changes no document in Python's eyes: every number keeps its value. */
  lemma {:induction false} RereadIsEqual(v: Json)
    requires WellFormed(v)
    ensures PyEqual(v, Reread(v)) && WellFormed(Reread(v))
    decreases v
  {
    match v
    case Dec(d) => RereadValue(d);
    case Arr(items) =>
      forall i | 0 <= i < |items|
        ensures PyEqual(items[i], Reread(items[i])) && WellFormed(Reread(items[i]))
      {
        RereadIsEqual(items[i]);
      }
    case Obj(members) =>
      var again := RereadMembers(members);
      RereadKeepsKeys(members);
      forall i | 0 <= i < |members|
        ensures Lookup(again, members[i].key) == Some(Reread(members[i].value))
        ensures PyEqual(members[i].value, Reread(members[i].value)) && WellFormed(Reread(members[i].value))
      {
        LookupAt(again, i);
        var m := members[i];
        RereadIsEqual(m.value);
      }
      assert Reread(v) == Obj(again);
    case _ =>
  }
}
