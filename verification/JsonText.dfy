/**
 `_encode_json` of scripts/check_duplicate_code_ratchet.py (copied in
 scripts/check_quality_baseline_ratchet.py), and a reader for the JSON grammar of RFC 8259,
 sections 3 to 7, with `parse_float=Decimal`.
 */
module JsonText {
  import opened Wrappers
  import opened Text
  import opened Json

  // ----- the printer -----

  /** `format(value, "f")`: never an exponent, and every significant digit. */
  function DecimalText(d: Decimal): string {
    (if d.negative then "-" else "") +
    if d.exponent >= 0 then
      (if d.coefficient == 0 then "0" else NatText(d.coefficient) + Repeat('0', d.exponent))
    else
      var digits := Padded(d.coefficient, -d.exponent);
      var point := |digits| + d.exponent;
      digits[..point] + "." + digits[point..]
  }

  /** The digits of `n`, with zeros in front so that more than `k` of them stand. */
  function Padded(n: nat, k: nat): (r: string)
    ensures |r| > k && AllDigits(r)
  {
    RJustDigits(NatText(n), k + 1);
    RJust(NatText(n), k + 1)
  }

  function HexDigit(d: nat): char
    requires d < 16
  {
    if d < 10 then Digit(d) else ('a' as int + d - 10) as char
  }

  function Hex4(n: nat): (r: string)
    requires n < 0x1_0000
    ensures |r| == 4
  {
    [HexDigit(n / 4096), HexDigit(n / 256 % 16), HexDigit(n / 16 % 16), HexDigit(n % 16)]
  }

  /** `json.dumps` of one character: ASCII stays, everything else becomes `\u` escapes. */
  function EscapeChar(c: char): string {
    var n := c as int;
    if c == '"' then "\\\""
    else if c == '\\' then "\\\\"
    else if n == 8 then "\\b"
    else if n == 9 then "\\t"
    else if n == 10 then "\\n"
    else if n == 12 then "\\f"
    else if n == 13 then "\\r"
    else if 32 <= n < 127 then [c]
    else if n < 0x1_0000 then "\\u" + Hex4(n)
    else
      var m := n - 0x1_0000;
      "\\u" + Hex4(0xD800 + m / 1024) + "\\u" + Hex4(0xDC00 + m % 1024)
  }

  function Escaped(s: string): string {
    if s == "" then "" else EscapeChar(s[0]) + Escaped(s[1..])
  }

  function Quote(s: string): string {
    "\"" + Escaped(s) + "\""
  }

  function Encode(v: Json, indent: nat): string
    decreases v, 0
  {
    match v
    case Null => "null"
    case Bool(b) => if b then "true" else "false"
    case Int(n) => IntText(n)
    case Dec(d) => DecimalText(d)
    case Str(s) => Quote(s)
    case Arr(items) =>
      if items == [] then "[]"
      else "[\n" + EncodeItems(items, indent + 2) + "\n" + Repeat(' ', indent) + "]"
    case Obj(members) =>
      if members == [] then "{}"
      else "{\n" + EncodeMembers(members, indent + 2) + "\n" + Repeat(' ', indent) + "}"
  }

  /** `",\n".join(prefix + item for item in items)` */
  function EncodeItems(items: seq<Json>, indent: nat): string
    requires items != []
    decreases items
  {
    Repeat(' ', indent) + Encode(items[0], indent) +
    if |items| == 1 then "" else ",\n" + EncodeItems(items[1..], indent)
  }

  function EncodeMembers(members: seq<Member>, indent: nat): string
    requires members != []
    decreases members
  {
    Repeat(' ', indent) + EncodeMember(members[0], indent) +
    if |members| == 1 then "" else ",\n" + EncodeMembers(members[1..], indent)
  }

  function EncodeMember(m: Member, indent: nat): string
    decreases m
  {
    Quote(m.key) + ": " + Encode(m.value, indent)
  }

  // ----- the reader -----

  predicate IsBlank(c: char) {
    c == ' ' || c == '\t' || c == '\n' || c == '\r'
  }

  function SkipBlanks(s: string): (r: string)
    ensures |r| <= |s|
    ensures r != "" ==> !IsBlank(r[0])
  {
    if s != "" && IsBlank(s[0]) then SkipBlanks(s[1..]) else s
  }

  function DigitRun(s: string): (n: nat)
    ensures n <= |s| && AllDigits(s[..n])
    ensures n < |s| ==> !IsDigit(s[n])
  {
    if s != "" && IsDigit(s[0]) then
      var n := DigitRun(s[1..]);
      assert s[..1 + n] == [s[0]] + s[1..][..n];
      1 + n
    else 0
  }

  /** The digits after a decimal point, if there is one. */
  function ReadFraction(s: string): (r: Option<(string, string)>)
    ensures r.Some? ==> AllDigits(r.value.0) && |r.value.1| <= |s|
  {
    if s == "" || s[0] != '.' then Some(("", s))
    else
      var k := DigitRun(s[1..]);
      if k == 0 then None else Some((s[1..][..k], s[1..][k..]))
  }

  /** Section 6: a sign, an integer part without leading zeros, then a fraction and an exponent. */
  function ReadNumber(s: string): (r: Option<(Json, string)>)
    ensures r.Some? ==> |r.value.1| < |s|
  {
    if s != "" && s[0] == '-' then ReadUnsigned(true, s[1..]) else ReadUnsigned(false, s)
  }

  function ReadUnsigned(negative: bool, s: string): (r: Option<(Json, string)>)
    ensures r.Some? ==> |r.value.1| < |s|
  {
    var n := DigitRun(s);
    if n == 0 || (n > 1 && s[0] == '0') then None
    else match ReadFraction(s[n..])
      case None => None
      case Some((fraction, rest)) => ReadMagnitude(negative, s[..n], fraction, rest)
  }

  function ReadMagnitude(negative: bool, whole: string, fraction: string, s: string): (r: Option<(Json, string)>)
    requires AllDigits(whole) && AllDigits(fraction)
    ensures r.Some? ==> |r.value.1| <= |s|
  {
    var coefficient := NatValue(whole + fraction);
    if s != "" && (s[0] == 'e' || s[0] == 'E') then
      match ReadExponent(s[1..])
      case None => None
      case Some((e, rest)) => Some((Dec(Decimal(negative, coefficient, e - |fraction|)), rest))
    else if fraction == "" then Some((Int(if negative then 0 - coefficient else coefficient), s))
    else Some((Dec(Decimal(negative, coefficient, -|fraction|)), s))
  }

  function ReadExponent(s: string): (r: Option<(int, string)>)
    ensures r.Some? ==> |r.value.1| < |s|
  {
    var signed := s != "" && (s[0] == '-' || s[0] == '+');
    var t := if signed then s[1..] else s;
    var n := DigitRun(t);
    if n == 0 then None
    else Some((if signed && s[0] == '-' then 0 - NatValue(t[..n]) else NatValue(t[..n]), t[n..]))
  }

  function HexValue(c: char): Option<nat> {
    if '0' <= c <= '9' then Some(c as int - '0' as int)
    else if 'a' <= c <= 'f' then Some(c as int - 'a' as int + 10)
    else if 'A' <= c <= 'F' then Some(c as int - 'A' as int + 10)
    else None
  }

  function ReadHex4(s: string): (r: Option<nat>)
    ensures r.Some? ==> |s| >= 4 && r.value < 0x1_0000
  {
    if |s| < 4 then None
    else match (HexValue(s[0]), HexValue(s[1]), HexValue(s[2]), HexValue(s[3]))
      case (Some(a), Some(b), Some(c), Some(d)) =>
        if a < 16 && b < 16 && c < 16 && d < 16 then Some(a * 4096 + b * 256 + c * 16 + d) else None
      case _ => None
  }

  /** One character of a string body (section 7), and what follows it. */
  function ReadChar(s: string): (r: Option<(char, string)>)
    ensures r.Some? ==> |r.value.1| < |s|
  {
    if s == "" || s[0] == '"' || (s[0] as int) < 32 then None
    else if s[0] != '\\' then Some((s[0], s[1..]))
    else if |s| < 2 then None
    else match s[1]
      case '"' => Some(('"', s[2..]))
      case '\\' => Some(('\\', s[2..]))
      case '/' => Some(('/', s[2..]))
      case 'b' => Some((8 as char, s[2..]))
      case 'f' => Some((12 as char, s[2..]))
      case 'n' => Some(('\n', s[2..]))
      case 'r' => Some(('\r', s[2..]))
      case 't' => Some(('\t', s[2..]))
      case 'u' => ReadUnit(s[2..])
      case _ => None
  }

  /** A `\u` escape; a high surrogate needs a low one after it, and no surrogate stands alone. */
  function ReadUnit(s: string): (r: Option<(char, string)>)
    ensures r.Some? ==> |r.value.1| <= |s|
  {
    match ReadHex4(s)
    case None => None
    case Some(n) =>
      if n < 0xD800 || n > 0xDFFF then Some((n as char, s[4..]))
      else if n > 0xDBFF || |s| < 6 || s[4] != '\\' || s[5] != 'u' then None
      else match ReadHex4(s[6..])
        case None => None
        case Some(m) =>
          if m < 0xDC00 || m > 0xDFFF then None
          else Some(((0x1_0000 + (n - 0xD800) * 1024 + (m - 0xDC00)) as char, s[10..]))
  }

  /** The rest of a string, up to and past its closing quotation mark. */
  function ReadBody(s: string): (r: Option<(string, string)>)
    ensures r.Some? ==> |r.value.1| < |s|
    decreases |s|
  {
    if s != "" && s[0] == '"' then Some(("", s[1..]))
    else match ReadChar(s)
      case None => None
      case Some((c, rest)) =>
        match ReadBody(rest)
        case None => None
        case Some((body, rest')) => Some(([c] + body, rest'))
  }

  /** Inserting into a dictionary: the last value given for a key is the one that counts. */
  function Put(members: seq<Member>, key: string, v: Json): seq<Member> {
    if members == [] then [Member(key, v)]
    else if members[0].key == key then [Member(key, v)] + members[1..]
    else [members[0]] + Put(members[1..], key, v)
  }

  /** Section 3: one value at the head of the text, and what follows it. */
  function Read(s: string): (r: Option<(Json, string)>)
    ensures r.Some? ==> |r.value.1| < |s|
    decreases |s|, 1
  {
    if s == "" then None
    else match s[0]
      case '[' =>
        var t := SkipBlanks(s[1..]);
        if t != "" && t[0] == ']' then Some((Arr([]), t[1..])) else ReadItems(t, [])
      case '{' =>
        var t := SkipBlanks(s[1..]);
        if t != "" && t[0] == '}' then Some((Obj([]), t[1..])) else ReadMembers(t, [])
      case '"' =>
        (match ReadBody(s[1..])
         case None => None
         case Some((body, rest)) => Some((Str(body), rest)))
      case _ =>
        if "null" <= s then Some((Null, s[4..]))
        else if "true" <= s then Some((Bool(true), s[4..]))
        else if "false" <= s then Some((Bool(false), s[5..]))
        else ReadNumber(s)
  }

  /** Section 5: the values of an array, from one of its values on. */
  function ReadItems(s: string, seen: seq<Json>): (r: Option<(Json, string)>)
    ensures r.Some? ==> |r.value.1| <= |s|
    decreases |s|, 2
  {
    match Read(s)
    case None => None
    case Some((v, rest)) =>
      var t := SkipBlanks(rest);
      if t == "" then None
      else if t[0] == ']' then Some((Arr(seen + [v]), t[1..]))
      else if t[0] == ',' then ReadItems(SkipBlanks(t[1..]), seen + [v])
      else None
  }

  /** Section 4: the members of an object, from one of its names on. */
  function ReadMembers(s: string, seen: seq<Member>): (r: Option<(Json, string)>)
    ensures r.Some? ==> |r.value.1| <= |s|
    decreases |s|, 2
  {
    if s == "" || s[0] != '"' then None
    else match ReadBody(s[1..])
      case None => None
      case Some((key, rest)) =>
        var t := SkipBlanks(rest);
        if t == "" || t[0] != ':' then None
        else match Read(SkipBlanks(t[1..]))
          case None => None
          case Some((v, rest')) =>
            var u := SkipBlanks(rest');
            if u == "" then None
            else if u[0] == '}' then Some((Obj(Put(seen, key, v)), u[1..]))
            else if u[0] == ',' then ReadMembers(SkipBlanks(u[1..]), Put(seen, key, v))
            else None
  }

  /** A whole document: one value, with nothing but blanks around it. */
  function ReadDocument(text: string): Option<Json> {
    match Read(SkipBlanks(text))
    case None => None
    case Some((v, rest)) => if SkipBlanks(rest) == "" then Some(v) else None
  }
}
