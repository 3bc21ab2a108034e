/**
 The text `_encode_json` writes (scripts/check_duplicate_code_ratchet.py): one item a line, two spaces a
 level, ASCII only, and numbers with all their digits and never an exponent.
 */
module JsonPrinting {
  import opened Text
  import opened Json
  import opened JsonText
  import opened JsonRoundTrip

  // ----- lists and objects -----

  ghost function ItemLines(items: seq<Json>, indent: nat): seq<string> {
    seq(|items|, i requires 0 <= i < |items| => Repeat(' ', indent) + Encode(items[i], indent))
  }

  ghost function MemberLines(members: seq<Member>, indent: nat): seq<string> {
    seq(|members|, i requires 0 <= i < |members| =>
      Repeat(' ', indent) + (Quote(members[i].key) + ": " + Encode(members[i].value, indent)))
  }

  lemma JoinStep(sep: string, first: string, rest: seq<string>)
    ensures Join(sep, [first] + rest) == if rest == [] then first else first + sep + Join(sep, rest)
  {
    assert ([first] + rest)[1..] == rest;
  }

  lemma {:induction false} ItemsAreLines(items: seq<Json>, indent: nat)
    requires items != []
    ensures EncodeItems(items, indent) == Join(",\n", ItemLines(items, indent))
  {
    hide Encode, Join, Repeat;
    var first, rest := Repeat(' ', indent) + Encode(items[0], indent), items[1..];
    assert ItemLines(items, indent) == [first] + ItemLines(rest, indent);
    JoinStep(",\n", first, ItemLines(rest, indent));
    if rest != [] {
      ItemsAreLines(rest, indent);
      Assoc(first, ",\n", EncodeItems(rest, indent));
    }
  }

  lemma {:induction false} MembersAreLines(members: seq<Member>, indent: nat)
    requires members != []
    ensures EncodeMembers(members, indent) == Join(",\n", MemberLines(members, indent))
  {
    hide Encode, Join, Repeat, Quote;
    var first := Repeat(' ', indent) + EncodeMember(members[0], indent);
    var rest := members[1..];
    assert MemberLines(members, indent) == [first] + MemberLines(rest, indent);
    JoinStep(",\n", first, MemberLines(rest, indent));
    if rest != [] {
      MembersAreLines(rest, indent);
      Assoc(first, ",\n", EncodeMembers(rest, indent));
    }
  }

  /** A list or object that is not empty: its items a line each, one level further in, between the brackets. */
  lemma BlocksAreLines(items: seq<Json>, members: seq<Member>, indent: nat)
    ensures items != [] ==>
      Encode(Arr(items), indent)
        == "[\n" + Join(",\n", ItemLines(items, indent + 2)) + "\n" + Repeat(' ', indent) + "]"
    ensures members != [] ==>
      Encode(Obj(members), indent)
        == "{\n" + Join(",\n", MemberLines(members, indent + 2)) + "\n" + Repeat(' ', indent) + "}"
    ensures Encode(Arr([]), indent) == "[]" && Encode(Obj([]), indent) == "{}"
  {
    hide Join, Repeat, ItemLines, MemberLines;
    if items != [] {
      ItemsAreLines(items, indent + 2);
    }
    if members != [] {
      MembersAreLines(members, indent + 2);
    }
  }

  // ----- characters -----

  /** Printable ASCII, or a line end. */
  predicate Plain(s: string) {
    forall i :: 0 <= i < |s| ==> ' ' <= s[i] <= '~' || s[i] == '\n'
  }

  lemma PlainParts(a: string, b: string)
    requires Plain(a) && Plain(b)
    ensures Plain(a + b)
  {}

  lemma DigitsArePlain(s: string)
    requires AllDigits(s)
    ensures Plain(s)
  {
    forall i | 0 <= i < |s| ensures ' ' <= s[i] <= '~' {
      assert IsDigit(s[i]);
    }
  }

  lemma HexIsPlain(n: nat)
    requires n < 0x1_0000
    ensures Plain(Hex4(n))
  {
    forall d: nat | d < 16 ensures ' ' <= HexDigit(d) <= '~' {
      if d < 10 {
        assert IsDigit(Digit(d));
      }
    }
  }

  lemma EscapedCharIsPlain(c: char)
    ensures Plain(EscapeChar(c))
  {
    var n := c as int;
    hide Hex4;
    if n < 0x1_0000 {
      HexIsPlain(n);
      PlainParts("\\u", Hex4(n));
    } else {
      var m := n - 0x1_0000;
      HexIsPlain(0xD800 + m / 1024);
      HexIsPlain(0xDC00 + m % 1024);
      PlainParts("\\u", Hex4(0xD800 + m / 1024));
      PlainParts("\\u" + Hex4(0xD800 + m / 1024), "\\u");
      PlainParts("\\u" + Hex4(0xD800 + m / 1024) + "\\u", Hex4(0xDC00 + m % 1024));
    }
  }

  lemma {:induction false} QuotedIsPlain(s: string)
    ensures Plain(Escaped(s)) && Plain(Quote(s))
  {
    hide EscapeChar, Plain;
    if s == "" {
      assert Plain("") by { NothingIsPlain(); }
    } else {
      EscapedCharIsPlain(s[0]);
      QuotedIsPlain(s[1..]);
      PlainParts(EscapeChar(s[0]), Escaped(s[1..]));
    }
    QuoteIsPlain();
    PlainParts("\"", Escaped(s));
    PlainParts("\"" + Escaped(s), "\"");
  }

  lemma NothingIsPlain()
    ensures Plain("")
  {}

  lemma QuoteIsPlain()
    ensures Plain("\"")
  {}

  lemma PunctuationIsPlain(k: nat)
    ensures Plain("[\n") && Plain("{\n") && Plain("\n") && Plain(",\n") && Plain(": ") && Plain("]") && Plain("}")
    ensures Plain("[]") && Plain("{}") && Plain("null") && Plain("true") && Plain("false") && Plain(Repeat(' ', k))
  {}

  lemma NumberIsPlain(n: int, d: Decimal)
    ensures Plain(IntText(n)) && Plain(DecimalText(d))
  {
    DigitsArePlain(NatText(if n < 0 then -n else n));
    PlainParts("-", NatText(if n < 0 then -n else n));
    DecimalIsPlain(d);
  }

  lemma DecimalIsPlain(d: Decimal)
    ensures Plain(DecimalText(d))
  {
    hide NatText, Padded;
    var sign := if d.negative then "-" else "";
    assert Plain(sign);
    DigitsArePlain(NatText(d.coefficient));
    if d.exponent < 0 {
      var digits := Padded(d.coefficient, -d.exponent);
      DigitsArePlain(digits);
      assert Plain(digits[..|digits| + d.exponent] + "." + digits[|digits| + d.exponent..]);
    }
  }

  lemma {:induction false} JoinIsPlain(sep: string, parts: seq<string>)
    requires Plain(sep) && forall i :: 0 <= i < |parts| ==> Plain(parts[i])
    ensures Plain(Join(sep, parts))
  {
    hide Plain;
    if parts == [] {
      assert Plain("") by { NothingIsPlain(); }
    } else if |parts| > 1 {
      JoinIsPlain(sep, parts[1..]);
      PlainParts(parts[0], sep);
      PlainParts(parts[0] + sep, Join(sep, parts[1..]));
    }
  }

  /** Whatever is encoded, the text is printable ASCII and line ends. */
  lemma {:induction false} EncodedIsPlain(v: Json, indent: nat)
    ensures Plain(Encode(v, indent))
    decreases v
  {
    hide Plain, Encode, DecimalText, IntText, Quote;
    PunctuationIsPlain(indent);
    match v
    case Null => assert Encode(v, indent) == "null" by { Scalars(v, indent); }
    case Bool(b) => assert Encode(v, indent) == (if b then "true" else "false") by { Scalars(v, indent); }
    case Int(n) => Scalars(v, indent); NumberIsPlain(n, Decimal(false, 0, 0));
    case Dec(d) => Scalars(v, indent); NumberIsPlain(0, d);
    case Str(s) => Scalars(v, indent); QuotedIsPlain(s);
    case Arr(items) =>
      var lines := ItemLines(items, indent + 2);
      forall i | 0 <= i < |items| ensures Plain(lines[i]) {
        EncodedIsPlain(items[i], indent + 2);
        PunctuationIsPlain(indent + 2);
        PlainParts(Repeat(' ', indent + 2), Encode(items[i], indent + 2));
      }
      BlockIsPlain("[\n", lines, indent, "]");
      BlocksAreLines(items, [], indent);
    case Obj(members) =>
      var lines := MemberLines(members, indent + 2);
      forall i | 0 <= i < |members| ensures Plain(lines[i]) {
        EncodedIsPlain(members[i].value, indent + 2);
        MemberIsPlain(members[i].key, Encode(members[i].value, indent + 2), indent + 2);
      }
      BlockIsPlain("{\n", lines, indent, "}");
      BlocksAreLines([], members, indent);
  }

  lemma Scalars(v: Json, indent: nat)
    ensures v.Null? ==> Encode(v, indent) == "null"
    ensures v.Bool? ==> Encode(v, indent) == if v.b then "true" else "false"
    ensures v.Int? ==> Encode(v, indent) == IntText(v.n)
    ensures v.Dec? ==> Encode(v, indent) == DecimalText(v.d)
    ensures v.Str? ==> Encode(v, indent) == Quote(v.s)
  {}

  lemma MemberIsPlain(key: string, value: string, indent: nat)
    requires Plain(value)
    ensures Plain(Repeat(' ', indent) + (Quote(key) + ": " + value))
  {
    hide Plain;
    PunctuationIsPlain(indent);
    QuotedIsPlain(key);
    PlainParts(Quote(key), ": ");
    PlainParts(Quote(key) + ": ", value);
    PlainParts(Repeat(' ', indent), Quote(key) + ": " + value);
  }

  lemma BlockIsPlain(open: string, lines: seq<string>, indent: nat, close: string)
    requires Plain(open) && Plain(close) && forall i :: 0 <= i < |lines| ==> Plain(lines[i])
    ensures Plain(open + Join(",\n", lines) + "\n" + Repeat(' ', indent) + close)
  {
    hide Plain;
    PunctuationIsPlain(indent);
    JoinIsPlain(",\n", lines);
    var body := open + Join(",\n", lines);
    PlainParts(open, Join(",\n", lines));
    PlainParts(body, "\n");
    PlainParts(body + "\n", Repeat(' ', indent));
    PlainParts(body + "\n" + Repeat(' ', indent), close);
  }

  // ----- numbers -----

  /** Digits without a zero to spare in front. */
  predicate Numeral(s: string) {
    s != "" && AllDigits(s) && (s[0] == '0' ==> |s| == 1)
  }

  /** A numeral, and a fraction of `places` digits after a point unless there are none. */
  ghost predicate Written(text: string, negative: bool, digits: nat, places: nat) {
    exists whole, fraction :: WrittenAs(text, negative, digits, places, whole, fraction)
  }

  ghost predicate WrittenAs(text: string, negative: bool, digits: nat, places: nat, whole: string, fraction: string) {
    && Numeral(whole) && AllDigits(fraction) && |fraction| == places && NatValue(whole + fraction) == digits
    && text == (if negative then "-" else "") + whole + (if places == 0 then "" else "." + fraction)
  }

  /** Every digit of a decimal is written, as many after the point as its exponent says, and no exponent. */
  lemma DecimalIsWritten(d: Decimal)
    ensures Written(DecimalText(d), d.negative,
      if d.exponent < 0 then d.coefficient else d.coefficient * Pow10(d.exponent),
      if d.exponent < 0 then -d.exponent else 0)
  {
    hide NatText, NatValue, Padded;
    var sign := if d.negative then "-" else "";
    if d.exponent < 0 {
      var digits := Padded(d.coefficient, -d.exponent);
      var point := |digits| + d.exponent;
      PaddedValue(d.coefficient, -d.exponent);
      PaddedHead(d.coefficient, -d.exponent);
      assert digits[..point] + digits[point..] == digits;
      assert Numeral(digits[..point]);
      Assoc(sign, digits[..point] + ".", digits[point..]);
      Assoc(sign, digits[..point], ".");
      Assoc(sign + digits[..point], ".", digits[point..]);
      assert WrittenAs(DecimalText(d), d.negative, d.coefficient, -d.exponent, digits[..point], digits[point..]);
    } else {
      var digits := if d.coefficient == 0 then "0" else NatText(d.coefficient) + Repeat('0', d.exponent);
      WholeDigits(d);
      assert digits + "" == digits && sign + digits + "" == sign + digits;
      assert Numeral(digits);
      assert WrittenAs(DecimalText(d), d.negative, d.coefficient * Pow10(d.exponent), 0, digits, "");
    }
  }
}
