/** The language of the push-down parser, by recursion over the text: JSON objects and arrays (section 2 of
    RFC 4627) with the parser's own rule for numbers and a limit on nesting. */
module JsonGrammar {
  import opened JsonParserStep

  datatype Tree =
    | NullTree | TrueTree | FalseTree
    | IntegerTree(text: string) | FloatTree(text: string)
    | StringTree(s: string)
    | ArrayTree(elements: seq<Tree>)
    | ObjectTree(members: seq<TreeMember>)

  datatype TreeMember = TreeMember(name: string, value: Tree)

  datatype Parsed<+T> = Found(value: T, rest: string) | NotFound

  function SkipBlanks(s: string): (r: string)
    ensures |r| <= |s| && (r != "" ==> !BlankChar(r[0]))
  {
    if s != "" && BlankChar(s[0]) then SkipBlanks(s[1..]) else s
  }

  predicate StartsWith(s: string, ch: char) {
    s != "" && s[0] == ch
  }

  // ---- Numbers

  predicate DigitChar(ch: char) {
    '0' <= ch <= '9'
  }

  function Digits(s: string): (n: nat)
    ensures n <= |s| && (n < |s| ==> !DigitChar(s[n]))
    ensures forall i :: 0 <= i < n ==> DigitChar(s[i])
  {
    if s != "" && DigitChar(s[0]) then 1 + Digits(s[1..]) else 0
  }

  /** The length of an optional fraction: a point and any digits, even none. */
  function FractionLength(s: string): (n: nat)
    ensures n <= |s|
  {
    if StartsWith(s, '.') then 1 + Digits(s[1..]) else 0
  }

  predicate StartsExponent(s: string) {
    StartsWith(s, 'e') || StartsWith(s, 'E')
  }

  /** The length of an exponent: a letter, an optional sign and at least one digit; 0 if malformed. */
  function ExponentLength(s: string): (n: nat)
    requires StartsExponent(s)
    ensures n <= |s|
  {
    var sign := if StartsWith(s[1..], '+') || StartsWith(s[1..], '-') then 1 else 0;
    var digits := Digits(s[1 + sign..]);
    if digits == 0 then 0 else 1 + sign + digits
  }

  /** The length of the integer part of a number that starts with a digit. */
  function IntegerLength(s: string): (n: nat)
    requires s != "" && DigitChar(s[0])
    ensures 1 <= n <= |s|
  {
    if s[0] == '0' then 1 else Digits(s)
  }

  function SignLength(s: string): (n: nat)
    ensures n <= |s|
  {
    if StartsWith(s, '-') then 1 else 0
  }

  /** The length of the optional sign and the integer part; 0 if there is no digit. */
  function WholeLength(s: string): (n: nat)
    ensures n <= |s|
  {
    var a := s[SignLength(s)..];
    if a == "" || !DigitChar(a[0]) then 0 else SignLength(s) + IntegerLength(a)
  }

  predicate HasFraction(s: string) {
    StartsWith(s[WholeLength(s)..], '.')
  }

  /** The length of a number up to its exponent; 0 if there is no digit. */
  function MantissaLength(s: string): (n: nat)
    ensures n <= |s|
  {
    if WholeLength(s) == 0 then 0 else WholeLength(s) + FractionLength(s[WholeLength(s)..])
  }

  /** A number: an optional sign; a lone zero or digits; an optional fraction; an optional exponent,
      which may not follow a lone zero directly. */
  function Number(s: string): (r: Parsed<Tree>)
    ensures r.Found? ==> |r.rest| < |s|
  {
    var k := MantissaLength(s);
    if k == 0 then NotFound
    else if StartsExponent(s[k..]) && (HasFraction(s) || !StartsWith(s[SignLength(s)..], '0')) then
      var e := ExponentLength(s[k..]);
      if e == 0 then NotFound else Found(FloatTree(s[..k + e]), s[k + e..])
    else Found(if HasFraction(s) then FloatTree(s[..k]) else IntegerTree(s[..k]), s[k..])
  }

  /** The number rule of section 2.4 of RFC 4627: a fraction has at least one digit, and an exponent may follow any
      mantissa. */
  function RfcNumber(s: string): (r: Parsed<Tree>) {
    var k := WholeLength(s);
    if k == 0 then NotFound
    else
      var a := s[k..];
      var point := StartsWith(a, '.');
      var digits := if point then Digits(a[1..]) else 0;
      if point && digits == 0 then NotFound
      else
        var m := k + if point then 1 + digits else 0;
        if StartsExponent(s[m..]) then
          var e := ExponentLength(s[m..]);
          if e == 0 then NotFound else Found(FloatTree(s[..m + e]), s[m + e..])
        else Found(if point then FloatTree(s[..m]) else IntegerTree(s[..m]), s[m..])
  }

  /** A number is read whose fraction has no digit. */
  predicate EmptyFraction(s: string) {
    Number(s).Found? && HasFraction(s) && FractionLength(s[WholeLength(s)..]) == 1
  }

  /** An exponent directly behind a lone zero. */
  predicate ZeroExponent(s: string) {
    StartsWith(s[SignLength(s)..], '0') && StartsExponent(s[WholeLength(s)..])
  }

  /** The parser's number rule is that of the RFC except for these. */
  lemma NumberIsRfc(s: string)
    ensures Number(s) == RfcNumber(s) <==> !EmptyFraction(s) && !ZeroExponent(s)
  {
    hide Digits, IntegerLength, ExponentLength;
    if ZeroExponent(s) { assert WholeLength(s) > 0 by { LoneZero(s); } }
    hide WholeLength;
  }

  lemma LoneZero(s: string)
    requires StartsWith(s[SignLength(s)..], '0')
    ensures WholeLength(s) == SignLength(s) + 1
  {
  }

  // ---- Strings

  predicate FourHex(s: string) {
    |s| >= 4 && HexChar(s[0]) && HexChar(s[1]) && HexChar(s[2]) && HexChar(s[3])
  }

  const HEX_DIGITS := "0123456789ABCDEF"

  lemma HexDigitReads(d: nat)
    requires d < 0x10
    ensures HexChar(HEX_DIGITS[d]) && HexValue(HEX_DIGITS[d]) == d
  {
  }

  /** A code point of the Basic Multilingual Plane, or beyond it, in UTF-8. */
  function Utf8(uc: nat): string {
    if uc < 0x80 then Encode(uc, 0)
    else if uc < 0x800 then Encode(uc, 1)
    else if uc < 0x10000 then Encode(uc, 2)
    else Encode(uc, 3)
  }

  function Simple(ch: char): bool {
    ch == '"' || ch == '\\' || ch == '/' || ch == 'b' || ch == 'f' || ch == 'n' || ch == 'r' || ch == 't'
  }

  /** The content of a string after its opening quote, unescaped and encoded, and what follows it. */
  function StringBody(s: string): (r: Parsed<string>)
    ensures r.Found? ==> |r.rest| < |s|
    decreases |s|
  {
    if s == "" then NotFound
    else if s[0] == '"' then Found("", s[1..])
    else if s[0] == '\\' then
      if |s| < 2 then NotFound
      else if Simple(s[1]) then Cons(Escaped(s[1]), StringBody(s[2..]))
      else if s[1] == 'u' && FourHex(s[2..]) then
        var uc := CodeUnit(s[2..6]);
        if LowSurrogate(uc) then NotFound
        else if HighSurrogate(uc) then
          if |s| >= 8 && s[6] == '\\' && s[7] == 'u' && FourHex(s[8..]) && LowSurrogate(CodeUnit(s[8..12]))
          then Cons(Utf8(SurrogatePair(uc, CodeUnit(s[8..12]))), StringBody(s[12..]))
          else NotFound
        else Cons(Utf8(uc), StringBody(s[6..]))
      else NotFound
    else if s[0] < ' ' then NotFound
    else Cons([s[0]], StringBody(s[1..]))
  }

  function Cons(head: string, r: Parsed<string>): Parsed<string> {
    match r
    case NotFound => NotFound
    case Found(tail, rest) => Found(head + tail, rest)
  }

  // ---- Values

  function Word(s: string, word: string, t: Tree): (r: Parsed<Tree>)
    ensures r.Found? && word != "" ==> |r.rest| < |s|
  {
    if word <= s then Found(t, s[|word|..]) else NotFound
  }

  /** Whether one more container may open when `open` modes are stacked already. */
  predicate Room(depth: int, open: nat) {
    depth < 0 || open < depth
  }

  function Value(s: string, depth: int, open: nat): (r: Parsed<Tree>)
    ensures r.Found? ==> |r.rest| < |s|
    decreases |s|, 0
  {
    if s == "" then NotFound
    else if s[0] == '{' then
      if Room(depth, open) then
        match Members(s[1..], depth, open + 1, true)
        case NotFound => NotFound
        case Found(ms, rest) => Found(ObjectTree(ms), rest)
      else NotFound
    else if s[0] == '[' then
      if Room(depth, open) then
        match Elements(s[1..], depth, open + 1, true)
        case NotFound => NotFound
        case Found(es, rest) => Found(ArrayTree(es), rest)
      else NotFound
    else if s[0] == '"' then
      match StringBody(s[1..])
      case NotFound => NotFound
      case Found(content, rest) => Found(StringTree(content), rest)
    else if s[0] == 't' then Word(s, "true", TrueTree)
    else if s[0] == 'f' then Word(s, "false", FalseTree)
    else if s[0] == 'n' then Word(s, "null", NullTree)
    else Number(s)
  }

  function Elements(s: string, depth: int, open: nat, first: bool): (r: Parsed<seq<Tree>>)
    ensures r.Found? ==> |r.rest| < |s|
    decreases |s|, 1
  {
    var a := SkipBlanks(s);
    if first && StartsWith(a, ']') then Found([], a[1..]) else
    match Value(a, depth, open)
    case NotFound => NotFound
    case Found(e, rest) =>
      var b := SkipBlanks(rest);
      if StartsWith(b, ']') then Found([e], b[1..])
      else if !StartsWith(b, ',') then NotFound
      else match Elements(b[1..], depth, open, false)
        case NotFound => NotFound
        case Found(es, rest') => Found([e] + es, rest')
  }

  function Members(s: string, depth: int, open: nat, first: bool): (r: Parsed<seq<TreeMember>>)
    ensures r.Found? ==> |r.rest| < |s|
    decreases |s|, 1
  {
    var a := SkipBlanks(s);
    if first && StartsWith(a, '}') then Found([], a[1..])
    else if !StartsWith(a, '"') then NotFound
    else match StringBody(a[1..])
      case NotFound => NotFound
      case Found(name, rest) =>
        var b := SkipBlanks(rest);
        if !StartsWith(b, ':') then NotFound
        else match Value(SkipBlanks(b[1..]), depth, open)
          case NotFound => NotFound
          case Found(v, rest') => MoreMembers(TreeMember(name, v), SkipBlanks(rest'), depth, open)
  }

  /** What follows a member: the closing bracket, or a comma and more members. */
  function MoreMembers(m: TreeMember, s: string, depth: int, open: nat): (r: Parsed<seq<TreeMember>>)
    ensures r.Found? ==> |r.rest| < |s|
    decreases |s|, 1
  {
    if StartsWith(s, '}') then Found([m], s[1..])
    else if !StartsWith(s, ',') then NotFound
    else match Members(s[1..], depth, open, false)
      case NotFound => NotFound
      case Found(ms, rest) => Found([m] + ms, rest)
  }

  datatype Text = Legal(tree: Tree) | NotLegal

  /** A whole text: one object or array, with nothing but blanks around it. */
  function ParseText(s: string, depth: int): Text {
    var a := SkipBlanks(s);
    if !StartsWith(a, '{') && !StartsWith(a, '[') then NotLegal
    else match Value(a, depth, 1)
      case NotFound => NotLegal
      case Found(t, rest) => if SkipBlanks(rest) == "" then Legal(t) else NotLegal
  }

  // ---- The events of a tree, in preorder

  function TreeEvents(t: Tree): seq<ParseEvent>
    decreases t, 0
  {
    match t
    case NullTree => [NullEvent]
    case TrueTree => [TrueEvent]
    case FalseTree => [FalseEvent]
    case IntegerTree(text) => [IntegerText(text)]
    case FloatTree(text) => [FloatText(text)]
    case StringTree(s) => [StringText(s)]
    case ArrayTree(es) => [ArrayStart] + ElementsEvents(es) + [ArrayStop]
    case ObjectTree(ms) => [ObjectStart] + MembersEvents(ms) + [ObjectStop]
  }

  function ElementsEvents(es: seq<Tree>): seq<ParseEvent>
    decreases es, 1
  {
    if es == [] then [] else TreeEvents(es[0]) + ElementsEvents(es[1..])
  }

  function MembersEvents(ms: seq<TreeMember>): seq<ParseEvent>
    decreases ms, 1
  {
    if ms == [] then [] else [KeyText(ms[0].name)] + TreeEvents(ms[0].value) + MembersEvents(ms[1..])
  }

  /** A text with an empty fraction is legal. */
  lemma EmptyFractionIsLegal(depth: int)
    requires Room(depth, 1)
    ensures ParseText("[1.]", depth) == Legal(ArrayTree([FloatTree("1.")])) && RfcNumber("1.]") == NotFound
  {
    var a := "1.]";
    ExampleFraction();
    hide Number, RfcNumber;
    assert "[1.]"[1..] == a && "]"[1..] == "";
    assert Elements(a, depth, 2, true) == Found([FloatTree("1.")], "");
  }

  lemma ExampleFraction()
    ensures Number("1.]") == Found(FloatTree("1."), "]") && RfcNumber("1.]") == NotFound
  {
    var a := "1.]";
    assert a[1..] == ".]" && a[2..] == "]" && ".]"[1..] == "]" && a[0..] == a && a[..2] == "1.";
    assert Digits("]") == 0;
    assert Digits(".]") == 0;
    assert Digits(a) == 1;
    hide Digits;
    assert WholeLength(a) == 1 && FractionLength(".]") == 1;
  }

  /** A text with an exponent behind a lone zero is not. */
  lemma ZeroExponentIsNotLegal(depth: int)
    ensures ParseText("[0e1]", depth) == NotLegal && RfcNumber("0e1]") == Found(FloatTree("0e1"), "]")
  {
    hide Digits, ExponentLength;
    var a := "0e1]";
    assert "[0e1]"[1..] == a && a[1..] == "e1]" && a[3..] == "]" && a[0..] == a;
    LoneZero(a);
    ExampleExponent();
    assert a[..3] == "0e1";
    assert Number(a) == Found(IntegerTree(a[..1]), "e1]");
    assert RfcNumber(a) == Found(FloatTree("0e1"), "]");
    hide Number, RfcNumber;
    assert Elements(a, depth, 2, true) == NotFound;
  }

  lemma ExampleExponent()
    ensures ExponentLength("e1]") == 2
  {
    assert "e1]"[1..] == "1]" && "1]"[1..] == "]" && "e1]"[1 + 0..] == "1]";
    assert Digits("]") == 0;
    assert Digits("1]") == 1;
  }
}
