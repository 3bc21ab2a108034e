/**
 The hand-written lexer of scripts/check_duplicate_code_ratchet.py: how a fragment is cut into
 lexemes, and how each kind of lexeme is rendered in the fragment's normal form.

 Every function here works on the text that is still unread, so a position in the scripts'
 loops is a suffix here.
 */
module FragmentScanner {
  import opened Wrappers
  import opened Text

  const OPERATORS: seq<string> := [
    "**=", "//=", ">>=", "<<=", "...", "**", "//", ">>", "<<", "+=", "-=", "*=", "/=", "%=", "&=",
    "|=", "^=", "@=", ":=", "->", "==", "!=", "<=", ">="
  ]

  datatype LexemeKind = Space | CommentText | Literal(closed: bool) | Plain

  datatype Lexeme = Lexeme(kind: LexemeKind, raw: string)

  // ----- string literals -----

  predicate IsPrefixLetter(c: char) {
    c == 'r' || c == 'R' || c == 'u' || c == 'U' || c == 'b' || c == 'B' || c == 'f' || c == 'F'
  }

  predicate IsQuote(c: char) {
    c == '\'' || c == '"'
  }

  function PrefixRun(s: string): (n: nat)
    ensures n <= |s|
    ensures n < |s| ==> !IsPrefixLetter(s[n])
    ensures forall i :: 0 <= i < n ==> IsPrefixLetter(s[i])
  {
    if s != "" && IsPrefixLetter(s[0]) then 1 + PrefixRun(s[1..]) else 0
  }

  /** A run of more than three prefix letters is a name, not a string prefix. */
  function PrefixLength(s: string): (n: nat)
    ensures n <= |s|
  {
    if PrefixRun(s) > 3 then 0 else PrefixRun(s)
  }

  /** Three of the first character if they stand there, one otherwise. */
  function Delimiter(s: string): (d: string)
    requires s != ""
    ensures 1 <= |d| <= |s| && d <= s
  {
    if [s[0], s[0], s[0]] <= s then [s[0], s[0], s[0]] else [s[0]]
  }

  /** The offset just after the first unescaped delimiter, if there is one. */
  function CloseAfter(s: string, delimiter: string): (n: Option<nat>)
    requires delimiter != ""
    ensures n.Some? ==> |delimiter| <= n.value <= |s|
    decreases |s|
  {
    if s == "" then None
    else if s[0] != '\\' && delimiter <= s then Some(|delimiter|)
    else
      var k := if s[0] == '\\' && |s| >= 2 then 2 else 1;
      Plus(k, CloseAfter(s[k..], delimiter))
  }

  datatype Span = Span(length: nat, closed: bool)

  /** The extent of a literal without its prefix; an unterminated one runs to the end of the text. */
  function Quoted(s: string): (r: Span)
    requires s != "" && IsQuote(s[0])
    ensures 1 <= r.length <= |s| && (!r.closed ==> r.length == |s|)
  {
    var d := Delimiter(s);
    match CloseAfter(s[|d|..], d)
    case Some(n) => Span(|d| + n, true)
    case None => Span(|s|, false)
  }

  /** The string literal that starts here, if one does. */
  function LiteralSpan(s: string): (r: Option<Span>)
    ensures r.Some? ==> 1 <= r.value.length <= |s| && (!r.value.closed ==> r.value.length == |s|)
  {
    var p := PrefixLength(s);
    if p >= |s| || !IsQuote(s[p]) then None
    else
      var q := Quoted(s[p..]);
      Some(Span(p + q.length, q.closed))
  }

  // ----- comments and operators -----

  function LineLength(s: string): (n: nat)
    ensures n <= |s| && '\n' !in s[..n] && (n < |s| ==> s[n] == '\n')
  {
    if s == "" || s[0] == '\n' then 0 else 1 + LineLength(s[1..])
  }

  /** `FRAGMENT_WHITESPACE.sub(" ", text)`: every run of whitespace becomes one space. */
  function Squeeze(s: string): (r: string)
    ensures |r| <= |s|
    decreases |s|
  {
    if s == "" then ""
    else if IsSpace(s[0]) then " " + Squeeze(LStrip(s[1..]))
    else [s[0]] + Squeeze(s[1..])
  }

  function FirstOperator(s: string, operators: seq<string>): (r: Option<string>)
    ensures r.Some? ==> r.value in operators && r.value <= s
  {
    if operators == [] then None
    else if operators[0] <= s then Some(operators[0])
    else FirstOperator(s, operators[1..])
  }

  predicate Visible(s: string) {
    forall i :: 0 <= i < |s| ==> !IsSpace(s[i])
  }

  lemma OperatorsAreVisible(op: string)
    requires op in OPERATORS
    ensures op != "" && Visible(op) && !IsPrefixLetter(op[0])
  {
    hide Visible, IsPrefixLetter;
    var i :| 0 <= i < |OPERATORS| && OPERATORS[i] == op;
    if i < 8 {
      LongOperatorIsVisible(i);
    } else if i < 16 {
      AssignmentIsVisible(i);
    } else {
      ComparisonIsVisible(i);
    }
  }

  lemma LongOperatorIsVisible(i: nat)
    requires i < 8
    ensures var op := OPERATORS[i]; op != "" && Visible(op) && !IsPrefixLetter(op[0])
  {}

  lemma AssignmentIsVisible(i: nat)
    requires 8 <= i < 16
    ensures var op := OPERATORS[i]; op != "" && Visible(op) && !IsPrefixLetter(op[0])
  {}

  lemma ComparisonIsVisible(i: nat)
    requires 16 <= i < 24
    ensures var op := OPERATORS[i]; op != "" && Visible(op) && !IsPrefixLetter(op[0])
  {}

  /**
   Python's character classes. `tokenize` stands for the standard tokenizer, used only by
   FragmentNormaliser: it reports slices of its input, or a structural failure.
   */
  datatype Scanner = Scanner(
    alpha: char -> bool,
    digit: char -> bool,
    alnum: char -> bool,
    tokenize: string -> Tokenization)
  {
    /** What holds of `str.isalpha` and `str.isalnum` for every character. */
    ghost predicate Valid() {
      && (forall c :: alnum(c) ==> !IsSpace(c))
      && (forall c :: alpha(c) ==> alnum(c))
      && (forall c :: IsPrefixLetter(c) ==> alpha(c))
    }

    predicate IsWordChar(c: char, dots: bool) {
      alnum(c) || c == '_' || (dots && c == '.')
    }

    function WordRun(s: string, dots: bool): (n: nat)
      ensures n <= |s|
      ensures n < |s| ==> !IsWordChar(s[n], dots)
      ensures forall i :: 0 <= i < n ==> IsWordChar(s[i], dots)
    {
      if s != "" && IsWordChar(s[0], dots) then 1 + WordRun(s[1..], dots) else 0
    }

    /** The lexeme at the head of a non-empty text. */
    function NextLexeme(s: string): (l: Lexeme)
      requires s != ""
      ensures l.raw != "" && l.raw <= s
    {
      if IsSpace(s[0]) then Lexeme(Space, s[..1])
      else if s[0] == '#' then Lexeme(CommentText, s[..LineLength(s)])
      else match LiteralSpan(s)
        case Some(span) => Lexeme(Literal(span.closed), s[..span.length])
        case None => PlainLexeme(s)
    }

    function PlainLexeme(s: string): (l: Lexeme)
      requires s != ""
      ensures l.kind == Plain && l.raw != "" && l.raw <= s
    {
      match FirstOperator(s, OPERATORS)
      case Some(op) => OperatorsAreVisible(op); Lexeme(Plain, op)
      case None =>
        if digit(s[0]) then Lexeme(Plain, s[..1 + WordRun(s[1..], true)])
        else if alpha(s[0]) || s[0] == '_' then Lexeme(Plain, s[..1 + WordRun(s[1..], false)])
        else Lexeme(Plain, s[..1])
    }

    function Lexemes(s: string): seq<Lexeme>
      decreases |s|
    {
      if s == "" then [] else
        var l := NextLexeme(s);
        [l] + Lexemes(s[|l.raw|..])
    }
  }

  /** A comment is kept with its whitespace squeezed; every other lexeme is kept as it is. */
  function Tidy(l: Lexeme): (r: Lexeme)
    ensures |r.raw| <= |l.raw| && r.kind == l.kind
  {
    if l.kind == CommentText then Lexeme(CommentText, Strip(Squeeze(l.raw))) else l
  }

  /** What the normal form keeps of a run of lexemes: everything but the space between them. */
  function Kept(ls: seq<Lexeme>): seq<Lexeme> {
    if ls == [] then []
    else if ls[0].kind == Space then Kept(ls[1..])
    else [Tidy(ls[0])] + Kept(ls[1..])
  }

  lemma {:induction false} KeptFrom(ls: seq<Lexeme>)
    ensures forall k <- Kept(ls) :: k.kind != Space && exists l <- ls :: k == Tidy(l)
  {
    if ls != [] {
      KeptFrom(ls[1..]);
      assert ls[0] in ls;
      forall k | k in Kept(ls) ensures exists l <- ls :: k == Tidy(l) {
        if k != Tidy(ls[0]) || ls[0].kind == Space {
          var l :| l in ls[1..] && k == Tidy(l);
          assert l in ls;
        }
      }
    }
  }

  /** No lexeme is longer than the text it came from. */
  lemma {:induction false} LexemesFit(sc: Scanner, s: string)
    ensures forall l <- sc.Lexemes(s) :: 0 < |l.raw| <= |s|
    ensures forall k <- Kept(sc.Lexemes(s)) :: |k.raw| <= |s|
    decreases |s|
  {
    if s != "" {
      LexemesFit(sc, s[|sc.NextLexeme(s).raw|..]);
    }
  }

  function Raw(ls: seq<Lexeme>): (r: seq<string>)
    ensures |r| == |ls| && forall i :: 0 <= i < |ls| ==> r[i] == ls[i].raw
  {
    seq(|ls|, i requires 0 <= i < |ls| => ls[i].raw)
  }

  // ----- the standard tokenizer's view -----

  datatype TokenKind =
    | OperatorToken | CommentToken | StringToken | FStringStart | FStringEnd | LayoutToken | ErrorToken | OtherToken

  /** A token and the slice of the text it covers. */
  datatype Token = Token(kind: TokenKind, start: nat, end: nat)

  datatype Tokenization = Tokenization(tokens: seq<Token>, failed: bool)

  /** `text[start:end]`, with Python's clamping of out-of-range bounds. */
  function Slice(text: string, start: nat, end: nat): (r: string)
    ensures |r| <= |text| && (r != "" ==> start + |r| <= |text|)
  {
    var hi := if end < |text| then end else |text|;
    if start < hi then text[start..hi] else ""
  }
}
