/** How the JSON reader reads a string, and the scalar scanner of the reader as a whole. */
module JsonStrings {
  import opened JsonEvents
  import opened ReaderSpec
  import opened JsonNumbers
  import S = JsonParserStep
  import G = JsonGrammar

  const INVALID_HEX := ScalarError(8)
  const INVALID_SURROGATE := ScalarError(9)
  const INVALID_ESCAPE := ScalarError(10)
  const MISS_QUOTATION_MARK := ScalarError(11)

  datatype StringResult = StringOk(s: string, next: nat) | StringErr(code: ErrorCode)

  function Prepend(head: string, r: StringResult): StringResult {
    match r
    case StringOk(s, next) => StringOk(head + s, next)
    case StringErr(code) => StringErr(code)
  }

  predicate HexAt(text: string, p: nat) {
    S.HexChar(Peek(text, p))
  }

  predicate FourHexAt(text: string, p: nat)
    ensures FourHexAt(text, p) ==> p + 4 <= |text|
  {
    HexAt(text, p) && HexAt(text, p + 1) && HexAt(text, p + 2) && HexAt(text, p + 3)
  }

  predicate SimpleEscape(e: char) {
    G.Simple(e)
  }

  /** A code point spelled in hexadecimal at `p`, or by a pair of escapes from there on. */
  datatype Escape = Escape(uc: nat, next: nat) | BadEscape(code: ErrorCode)

  function UnicodeEscape(text: string, p: nat): (r: Escape)
    ensures r.Escape? ==> p < r.next <= |text|
  {
    if !FourHexAt(text, p) then BadEscape(INVALID_HEX)
    else
      var hi := S.CodeUnit(text[p..p + 4]);
      if !S.HighSurrogate(hi) then Escape(hi, p + 4)
      else if !(Peek(text, p + 4) == '\\' && Peek(text, p + 5) == 'u') then BadEscape(INVALID_SURROGATE)
      else if !FourHexAt(text, p + 6) then BadEscape(INVALID_HEX)
      else
        var lo := S.CodeUnit(text[p + 6..p + 10]);
        if S.LowSurrogate(lo) then Escape(S.SurrogatePair(hi, lo), p + 10) else BadEscape(INVALID_SURROGATE)
  }

  lemma HexBound(ch: char)
    ensures S.HexValue(ch) < 16
  {
  }

  lemma UnitBound(h: string)
    requires |h| == 4
    ensures S.CodeUnit(h) < 0x10000
  {
    hide S.HexValue;
    HexBound(h[0]);
    HexBound(h[1]);
    HexBound(h[2]);
    HexBound(h[3]);
  }

  /** The content of a string, unescaped, and the position after its closing quote. */
  function StringBody(text: string, p: nat): (r: StringResult)
    requires p <= |text|
    ensures r.StringOk? ==> p < r.next <= |text|
    decreases |text| - p
  {
    var c := Peek(text, p);
    if c == '\\' then
      var e := Peek(text, p + 1);
      if SimpleEscape(e) then Prepend(S.Escaped(e), StringBody(text, p + 2))
      else if e == 'u' then
        match UnicodeEscape(text, p + 2)
        case BadEscape(code) => StringErr(code)
        case Escape(uc, next) => Prepend(G.Utf8(uc), StringBody(text, next))
      else StringErr(INVALID_ESCAPE)
    else if c == '"' then StringOk("", p + 1)
    else if c < ' ' then StringErr(if c == '\0' then MISS_QUOTATION_MARK else INVALID_ESCAPE)
    else Prepend([c], StringBody(text, p + 1))
  }

  lemma PrependTwice(a: string, b: string, r: StringResult)
    ensures Prepend(a, Prepend(b, r)) == Prepend(a + b, r)
    ensures Prepend("", r) == r
  {
    if r.StringOk? { assert a + (b + r.s) == a + b + r.s && "" + r.s == r.s; }
  }

  /** The number spelled by the hexadecimal digits from `p` up to `q`. */
  function HexNumber(text: string, p: nat, q: nat): nat
    requires p <= q <= |text|
  {
    if p == q then 0 else HexNumber(text, p, q - 1) * 16 + S.HexValue(text[q - 1])
  }

  lemma FourHexNumber(text: string, p: nat)
    requires p + 4 <= |text|
    ensures HexNumber(text, p, p + 4) == S.CodeUnit(text[p..p + 4])
  {
    var h := text[p..p + 4];
    assert HexNumber(text, p, p + 1) == S.HexValue(h[0]);
    assert HexNumber(text, p, p + 2) == S.HexValue(h[0]) * 16 + S.HexValue(h[1]);
    assert HexNumber(text, p, p + 3) == (S.HexValue(h[0]) * 16 + S.HexValue(h[1])) * 16 + S.HexValue(h[2]);
  }

  /** Four hexadecimal digits, each shifted in. */
  method ParseHex4(text: string, p: nat) returns (ok: bool, codepoint: nat, next: nat)
    requires p <= |text|
    ensures ok <==> FourHexAt(text, p)
    ensures ok ==> codepoint == S.CodeUnit(text[p..p + 4]) && next == p + 4
  {
    codepoint, next := 0, p;
    var i := 0;
    while i < 4
      invariant i <= 4 && next == p + i <= |text|
      invariant forall j :: p <= j < next ==> HexAt(text, j)
      invariant codepoint == HexNumber(text, p, next)
    {
      var c := Peek(text, next);
      codepoint := codepoint * 16 + c as nat;
      if '0' <= c <= '9' { codepoint := codepoint - '0' as nat; }
      else if 'A' <= c <= 'F' { codepoint := codepoint - ('A' as nat - 10); }
      else if 'a' <= c <= 'f' { codepoint := codepoint - ('a' as nat - 10); }
      else {
        assert !HexAt(text, next);
        return false, 0, next;
      }
      i, next := i + 1, next + 1;
    }
    ok := true;
    assert next == p + 4;
    FourHexNumber(text, p);
  }

  /** A Unicode escape, from behind its letter on. */
  method ParseUnicodeEscape(text: string, p: nat) returns (r: Escape)
    requires p <= |text|
    ensures r == UnicodeEscape(text, p)
  {
    hide S.CodeUnit, FourHexAt;
    var ok, codepoint, next := ParseHex4(text, p);
    if !ok { return BadEscape(INVALID_HEX); }
    if 0xD800 <= codepoint <= 0xDBFF {
      if Peek(text, next) != '\\' || Peek(text, next + 1) != 'u' { return BadEscape(INVALID_SURROGATE); }
      var codepoint2;
      ok, codepoint2, next := ParseHex4(text, next + 2);
      if !ok { return BadEscape(INVALID_HEX); }
      if codepoint2 < 0xDC00 || codepoint2 > 0xDFFF { return BadEscape(INVALID_SURROGATE); }
      codepoint := (codepoint - 0xD800) * 0x400 + (codepoint2 - 0xDC00) + 0x10000;
    }
    return Escape(codepoint, next);
  }

  /** `ParseStringToStream`: the loop appends the unescaped string to what it has put out. */
  method ParseStringToStream(text: string, start: nat) returns (r: StringResult)
    requires start < |text| && text[start] == '"'
    ensures r == StringBody(text, start + 1)
  {
    hide UnicodeEscape, S.Escaped, G.Utf8, SimpleEscape;
    var p, os := start + 1, "";
    PrependTwice("", "", StringBody(text, p));
    while true
      invariant start < p <= |text|
      invariant Prepend(os, StringBody(text, p)) == StringBody(text, start + 1)
      decreases |text| - p
    {
      var c := Peek(text, p);
      if c == '\\' {
        var e := Peek(text, p + 1);
        SimpleIsInside(text, p + 1);
        if SimpleEscape(e) {
          PrependTwice(os, S.Escaped(e), StringBody(text, p + 2));
          os, p := os + S.Escaped(e), p + 2;
        } else if e == 'u' {
          var u := ParseUnicodeEscape(text, p + 2);
          if u.BadEscape? { return StringErr(u.code); }
          PrependTwice(os, G.Utf8(u.uc), StringBody(text, u.next));
          os, p := os + G.Utf8(u.uc), u.next;
        } else {
          return StringErr(INVALID_ESCAPE);
        }
      } else if c == '"' {
        assert os + "" == os;
        return StringOk(os, p + 1);
      } else if c < ' ' {
        return StringErr(if c == '\0' then MISS_QUOTATION_MARK else INVALID_ESCAPE);
      } else {
        PrependTwice(os, [c], StringBody(text, p + 1));
        os, p := os + [c], p + 1;
      }
    }
  }

  lemma SimpleIsInside(text: string, p: nat)
    ensures SimpleEscape(Peek(text, p)) ==> p < |text|
  {
  }

  // ---- The scanner of scalars

  function LiteralLeaf(text: string, p: nat, word: string, ev: Event): (r: LeafResult)
    requires p <= |text|
    ensures r.LeafOk? ==> r.next == p + |word| <= |text|
  {
    if word <= text[p..] then LeafOk(ev, p + |word|) else LeafErr(ValueInvalid)
  }

  function StringLeaf(text: string, p: nat, isKey: bool): (r: LeafResult)
    requires p < |text|
    ensures r.LeafOk? ==> p < r.next <= |text|
  {
    match StringBody(text, p + 1)
    case StringOk(s, next) => LeafOk(if isKey then Key(s) else Str(s), next)
    case StringErr(code) => LeafErr(code)
  }

  /** The scalar that starts at a position, or the name; both readers ask for a name at a quotation mark only. */
  ghost function ScalarLeaf(text: string, big: Overflow, p: nat, isKey: bool): (r: LeafResult)
    ensures p <= |text| && r.LeafOk? ==> p < r.next <= |text|
  {
    if p > |text| then LeafErr(ValueInvalid)
    else if isKey && Peek(text, p) != '"' then LeafErr(ValueInvalid)
    else match Peek(text, p)
      case '"' => StringLeaf(text, p, isKey)
      case 'n' => LiteralLeaf(text, p, "null", Null)
      case 't' => LiteralLeaf(text, p, "true", Bool(true))
      case 'f' => LiteralLeaf(text, p, "false", Bool(false))
      case _ => NumberLeaf(text, p, big)
  }

  /** The reader with its own scanner. */
  ghost function ReaderOf(text: string, comments: bool, trailingCommas: bool, stopWhenDone: bool, big: Overflow,
                          handler: seq<Event> -> bool): Config
  {
    Config(text, comments, trailingCommas, stopWhenDone, (p: nat, isKey: bool) => ScalarLeaf(text, big, p, isKey),
      handler)
  }

  /** The scanner keeps the promises that the equivalence of the two readers rests on. */
  lemma LeafIsWellBehaved(text: string, comments: bool, trailingCommas: bool, stopWhenDone: bool, big: Overflow,
                          handler: seq<Event> -> bool)
    ensures WellBehaved(ReaderOf(text, comments, trailingCommas, stopWhenDone, big, handler))
  {
    hide StringBody, LiteralLeaf, AfterMantissa, DoubleOverflows;
  }
}
