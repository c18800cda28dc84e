/** The escaper of the Lua encoder, and reading its output back. */
module JsonEscapes {
  import opened JsonParserStep
  import opened JsonGrammar
  import opened Utf8Codec

  // ---- One code point, as the escaper decodes it

  datatype Single = Single(uc: nat, length: nat) | NotSingle

  /** The six bits of a continuation byte; -2 if it is not one. */
  function Continuation(s: string, i: nat): int {
    if 0x80 <= Byte(s, i) < 0xC0 then Byte(s, i) % 0x40 else -2
  }

  /** `json_utf8_decode_single`, which looks at no more bytes than are left. */
  function DecodeSingle(s: string): Single {
    var c := Byte(s, 0);
    var c1, c2, c3 := Continuation(s, 1), Continuation(s, 2), Continuation(s, 3);
    if |s| < 1 then NotSingle
    else if c < 0x80 then Single(c, 1)
    else if 0xC0 <= c < 0xE0 then
      if |s| < 2 || c1 < 0 then NotSingle else
      var uc := c % 0x20 * 0x40 + c1;
      if uc >= 128 then Single(uc, 2) else NotSingle
    else if 0xE0 <= c < 0xF0 then
      if |s| < 3 || c1 < 0 || c2 < 0 then NotSingle else
      var uc := c % 0x10 * 0x1000 + c1 * 0x40 + c2;
      if uc >= 2048 && (uc < 55296 || uc > 57343) then Single(uc, 3) else NotSingle
    else if 0xF0 <= c < 0xF8 then
      if |s| < 4 || c1 < 0 || c2 < 0 || c3 < 0 then NotSingle else
      var uc := c % 8 * 0x40000 + c1 * 0x1000 + c2 * 0x40 + c3;
      if 65536 <= uc <= 1114111 then Single(uc, 4) else NotSingle
    else NotSingle
  }

  /** It accepts exactly the sequences of section 4 of RFC 3629, with their code points. */
  lemma SingleIsSequence(s: string)
    ensures DecodeSingle(s)
         == if SequenceLength(s) == 0 then NotSingle else Single(CodePoint(s, SequenceLength(s)), SequenceLength(s))
  {
    if s == "" { return; }
    var c := Byte(s, 0);
    if c < 0xE0 { ShortSingle(s); } else if c < 0xF0 { TripleSingle(s); } else { QuadrupleSingle(s); }
  }

  lemma ShortSingle(s: string)
    requires s != "" && Byte(s, 0) < 0xE0
    ensures DecodeSingle(s)
         == if SequenceLength(s) == 0 then NotSingle else Single(CodePoint(s, SequenceLength(s)), SequenceLength(s))
  {
  }

  lemma TripleSingle(s: string)
    requires s != "" && 0xE0 <= Byte(s, 0) < 0xF0
    ensures DecodeSingle(s)
         == if SequenceLength(s) == 0 then NotSingle else Single(CodePoint(s, SequenceLength(s)), SequenceLength(s))
  {
  }

  lemma QuadrupleSingle(s: string)
    requires s != "" && 0xF0 <= Byte(s, 0)
    ensures DecodeSingle(s)
         == if SequenceLength(s) == 0 then NotSingle else Single(CodePoint(s, SequenceLength(s)), SequenceLength(s))
  {
  }

  // ---- The escaper

  datatype EscapeResult = Escapes(text: string) | UndefinedEscape

  predicate PlainChar(ch: char) {
    var b := ch as int;
    b == 0x20 || b == 0x21 || 0x23 <= b <= 0x2E || 0x30 <= b <= 0x5B || 0x5D <= b < 0x80
  }

  /** The letter after the backslash in the short escapes the escaper knows. */
  function ShortEscape(ch: char): string {
    match ch
    case '\U{0008}' => "b"
    case '\U{000C}' => "f"
    case '\n' => "n"
    case '\r' => "r"
    case '/' => "/"
    case '"' => "\""
    case '\\' => "\\"
    case _ => ""
  }

  function Hex4(u: nat): string
    requires u < 0x10000
  {
    [HEX_DIGITS[u / 0x1000], HEX_DIGITS[u / 0x100 % 0x10], HEX_DIGITS[u / 0x10 % 0x10], HEX_DIGITS[u % 0x10]]
  }

  /** A code point as one escape, or as two halves of sixteen bits, which are not a surrogate pair. */
  function LongEscape(uc: nat): string
    requires uc <= 0x10FFFF
  {
    (if uc / 0x10000 != 0 then "\\u" + Hex4(uc / 0x10000) else "") + "\\u" + Hex4(uc % 0x10000)
  }

  /** The escape at the front of a string that does not begin with a zero, and how many bytes it is for.  For a byte
      that begins no sequence the code takes hexadecimal digits from beyond their table. */
  function FrontEscape(s: string): EscapeResult
    requires s != ""
  {
    if PlainChar(s[0]) then Escapes([s[0]])
    else if ShortEscape(s[0]) != "" then Escapes("\\" + ShortEscape(s[0]))
    else match DecodeSingle(s)
      case NotSingle => UndefinedEscape
      case Single(uc, _) => Escapes(LongEscape(if uc <= 0x10FFFF then uc else 0))
  }

  function FrontLength(s: string): (n: nat)
    requires s != ""
    ensures 1 <= n
  {
    if PlainChar(s[0]) || ShortEscape(s[0]) != "" || SequenceLength(s) == 0 then 1 else SequenceLength(s)
  }

  /** The body of the escaped string: everything before the first zero byte. */
  function EscapeBody(s: string): EscapeResult
    decreases |s|
  {
    if s == "" || s[0] == '\0' then Escapes("")
    else match FrontEscape(s)
      case UndefinedEscape => UndefinedEscape
      case Escapes(text) =>
        match EscapeBody(if FrontLength(s) <= |s| then s[FrontLength(s)..] else "")
        case UndefinedEscape => UndefinedEscape
        case Escapes(more) => Escapes(text + more)
  }

  /** The part of a string the escaper sees. */
  function UpToZero(s: string): string {
    if s == "" || s[0] == '\0' then "" else [s[0]] + UpToZero(s[1..])
  }

  /** Well-formed UTF-8 up to the first zero byte. */
  predicate WellFormed(s: string)
    decreases |s|
  {
    s == "" || s[0] == '\0'
    || (SequenceLength(s) > 0 && SequenceLength(s) <= |s| && WellFormed(s[SequenceLength(s)..]))
  }

  /** No code point beyond the Basic Multilingual Plane up to the first zero byte. */
  predicate BasicPlane(s: string)
    decreases |s|
  {
    s == "" || s[0] == '\0'
    || (SequenceLength(s) > 0 && SequenceLength(s) <= |s| && CodePoint(s, SequenceLength(s)) <= 0xFFFF
        && BasicPlane(s[SequenceLength(s)..]))
  }

  lemma HexReads(u: nat)
    requires u < 0x10000
    ensures |Hex4(u)| == 4 && FourHex(Hex4(u)) && CodeUnit(Hex4(u)) == u
  {
    hide HexValue, HexChar;
    HexDigitReads(u / 0x1000);
    HexDigitReads(u / 0x100 % 0x10);
    HexDigitReads(u / 0x10 % 0x10);
    HexDigitReads(u % 0x10);
    assert u / 0x100 == u / 0x1000 * 0x10 + u / 0x100 % 0x10 by { assert u / 0x100 / 0x10 == u / 0x1000; }
    assert u / 0x10 == u / 0x100 * 0x10 + u / 0x10 % 0x10 by { assert u / 0x10 / 0x10 == u / 0x100; }
  }

  /** One escape of four digits that is not a surrogate is read as its code point. */
  lemma UnicodeReads(u: nat, rest: string)
    requires u < 0x10000 && !LowSurrogate(u) && !HighSurrogate(u)
    ensures StringBody("\\u" + Hex4(u) + rest) == Cons(Utf8(u), StringBody(rest))
  {
    hide Hex4, CodeUnit, Utf8, HexChar;
    HexReads(u);
    var s := "\\u" + Hex4(u) + rest;
    assert s[2..6] == Hex4(u) && s[6..] == rest;
    assert FourHex(s[2..]) by { assert forall i :: 0 <= i < 4 ==> s[2..][i] == Hex4(u)[i]; }
  }

  lemma ShortReads(ch: char, rest: string)
    requires ShortEscape(ch) != ""
    ensures StringBody("\\" + ShortEscape(ch) + rest) == Cons([ch], StringBody(rest))
  {
    hide CodeUnit, Utf8, HexChar;
    var s := "\\" + ShortEscape(ch) + rest;
    assert s[2..] == rest;
    assert s[1] == ShortEscape(ch)[0];
  }

  lemma PlainReads(ch: char, rest: string)
    requires PlainChar(ch)
    ensures StringBody([ch] + rest) == Cons([ch], StringBody(rest))
  {
    hide CodeUnit, Utf8, HexChar;
    assert ([ch] + rest)[1..] == rest;
  }

  /** What is escaped at the front is read back as the bytes it was made from. */
  lemma FrontReads(s: string, rest: string)
    requires s != "" && s[0] != '\0' && SequenceLength(s) > 0 && CodePoint(s, SequenceLength(s)) <= 0xFFFF
    ensures SequenceLength(s) <= |s| && FrontLength(s) == SequenceLength(s)
    ensures FrontEscape(s).Escapes?
    ensures StringBody(FrontEscape(s).text + rest) == Cons(s[..SequenceLength(s)], StringBody(rest))
  {
    hide SequenceLength, CodePoint, Utf8, StringBody, Hex4, DecodeSingle;
    EncodeOfDecode(s);
    SingleIsSequence(s);
    if PlainChar(s[0]) {
      AsciiLength(s);
      PlainReads(s[0], rest);
    } else if ShortEscape(s[0]) != "" {
      AsciiLength(s);
      ShortReads(s[0], rest);
    } else {
      UnicodeReads(CodePoint(s, SequenceLength(s)), rest);
      assert "" + "\\u" == "\\u";
    }
  }

  lemma AsciiLength(s: string)
    requires s != "" && (s[0] as int) < 0x80
    ensures SequenceLength(s) == 1 && s[..1] == [s[0]]
  {
  }

  lemma {:induction false} UpToZeroSplits(s: string, n: nat)
    requires n <= |s| && forall i :: 0 <= i < n ==> s[i] != '\0'
    ensures UpToZero(s) == s[..n] + UpToZero(s[n..])
  {
    if n > 0 {
      UpToZeroSplits(s[1..], n - 1);
      assert s[1..][..n - 1] == s[1..n] && s[1..][n - 1..] == s[n..];
      assert s[..n] == [s[0]] + s[1..n];
    } else {
      assert s[0..] == s;
    }
  }

  lemma NoZeroInside(s: string)
    requires s != "" && s[0] != '\0' && SequenceLength(s) > 0
    ensures SequenceLength(s) <= |s| && forall i :: 0 <= i < SequenceLength(s) ==> s[i] != '\0'
  {
  }

  /** What the escaper writes for text of the Basic Multilingual Plane is read back as that text. */
  lemma {:induction false} EscapesReadBack(s: string, rest: string)
    requires BasicPlane(s)
    ensures EscapeBody(s).Escapes?
    ensures StringBody(EscapeBody(s).text + "\"" + rest) == Found(UpToZero(s), rest)
    decreases |s|
  {
    hide SequenceLength, CodePoint, StringBody, FrontEscape, FrontLength;
    if s == "" || s[0] == '\0' {
      assert "" + "\"" + rest == "\"" + rest;
      ClosingQuote(rest);
    } else {
      var n := SequenceLength(s);
      EscapesReadBack(s[n..], rest);
      var more := EscapeBody(s[n..]).text;
      FrontReads(s, more + "\"" + rest);
      var text := FrontEscape(s).text;
      assert text + more + "\"" + rest == text + (more + "\"" + rest);
      NoZeroInside(s);
      UpToZeroSplits(s, n);
    }
  }

  lemma ClosingQuote(rest: string)
    ensures StringBody("\"" + rest) == Found("", rest)
  {
    assert ("\"" + rest)[1..] == rest;
  }

  lemma LongLead(s: string)
    requires s != "" && SequenceLength(s) > 0 && CodePoint(s, SequenceLength(s)) > 0xFFFF
    ensures s[0] as int >= 0xF0
  {
  }

  /** A code point beyond the plane is escaped by two escapes, of its plane and of the rest. */
  lemma BeyondEscapes(s: string)
    requires s != "" && SequenceLength(s) > 0 && CodePoint(s, SequenceLength(s)) > 0xFFFF
    ensures var uc := CodePoint(s, SequenceLength(s));
      && ScalarValue(uc) && s[0] as int >= 0xF0
      && FrontEscape(s) == Escapes("\\u" + Hex4(uc / 0x10000) + ("\\u" + Hex4(uc % 0x10000)))
  {
    hide SequenceLength, CodePoint, Hex4, DecodeSingle;
    EncodeOfDecode(s);
    SingleIsSequence(s);
    LongLead(s);
  }

  /** A code point beyond the plane is read back as something that begins with another byte, or not at all. */
  lemma BeyondReads(s: string, rest: string)
    requires s != "" && SequenceLength(s) > 0 && CodePoint(s, SequenceLength(s)) > 0xFFFF
    ensures FrontEscape(s).Escapes? && s[0] as int >= 0xF0
    ensures var r := StringBody(FrontEscape(s).text + rest); r.Found? ==> r.value != "" && r.value[0] as int < 0x80
  {
    hide SequenceLength, CodePoint, StringBody, Hex4, FrontEscape;
    BeyondEscapes(s);
    var uc := CodePoint(s, SequenceLength(s));
    var hi, lo := uc / 0x10000, uc % 0x10000;
    var more := "\\u" + Hex4(lo) + rest;
    UnicodeReads(hi, more);
    assert FrontEscape(s).text + rest == "\\u" + Hex4(hi) + more;
    assert Utf8(hi) == [ByteChar(hi)];
  }

  /** So on well-formed text the round trip holds exactly within the Basic Multilingual Plane. */
  lemma {:induction false} ReadBackIffBasicPlane(s: string, rest: string)
    requires WellFormed(s)
    ensures EscapeBody(s).Escapes?
    ensures StringBody(EscapeBody(s).text + "\"" + rest) == Found(UpToZero(s), rest) <==> BasicPlane(s)
    ensures !BasicPlane(s) ==>
      var r := StringBody(EscapeBody(s).text + "\"" + rest); r.Found? ==> r.value != UpToZero(s)
    decreases |s|
  {
    hide SequenceLength, CodePoint, StringBody, FrontEscape, FrontLength;
    if BasicPlane(s) { EscapesReadBack(s, rest); return; }
    var n := SequenceLength(s);
    ReadBackIffBasicPlane(s[n..], rest);
    var more := EscapeBody(s[n..]).text;
    NoZeroInside(s);
    UpToZeroSplits(s, n);
    if CodePoint(s, n) <= 0xFFFF {
      FrontReads(s, more + "\"" + rest);
      var text := FrontEscape(s).text;
      assert text + more + "\"" + rest == text + (more + "\"" + rest);
      var r := StringBody(more + "\"" + rest);
      if r.Found? { SamePrefix(s[..n], r.value, UpToZero(s[n..])); }
    } else {
      BeyondReads(s, more + "\"" + rest);
      BeyondLength(s);
      var text := FrontEscape(s).text;
      assert text + more + "\"" + rest == text + (more + "\"" + rest);
      assert UpToZero(s)[0] == s[0];
    }
  }

  lemma SamePrefix(prefix: string, a: string, b: string)
    ensures prefix + a == prefix + b <==> a == b
  {
    assert (prefix + a)[|prefix|..] == a && (prefix + b)[|prefix|..] == b;
  }

  lemma BeyondLength(s: string)
    requires s != "" && SequenceLength(s) > 0 && CodePoint(s, SequenceLength(s)) > 0xFFFF
    ensures FrontLength(s) == SequenceLength(s)
  {
  }

  /** The escaper is defined exactly on text that is well-formed up to its first zero byte. */
  lemma {:induction false} DefinedIffWellFormed(s: string)
    ensures EscapeBody(s).Escapes? <==> WellFormed(s)
    decreases |s|
  {
    hide SequenceLength, CodePoint, ShortEscape, Hex4;
    if s != "" && s[0] != '\0' {
      FrontDefined(s);
      if FrontEscape(s).Escapes? { DefinedIffWellFormed(s[FrontLength(s)..]); }
    }
  }

  lemma FrontDefined(s: string)
    requires s != ""
    ensures FrontEscape(s).Escapes? <==> SequenceLength(s) > 0
    ensures SequenceLength(s) > 0 ==> FrontLength(s) == SequenceLength(s) <= |s|
  {
    hide SequenceLength, CodePoint, DecodeSingle, Hex4;
    SingleIsSequence(s);
    EncodeOfDecodeIf(s);
    if PlainChar(s[0]) || ShortEscape(s[0]) != "" { AsciiLength(s); }
  }

  /** A byte that begins no sequence has no escape: the code takes digits from beyond their table. */
  lemma LoneByteIsUndefined()
    ensures EscapeBody("\U{00FF}") == UndefinedEscape
  {
  }

  /** A code point beyond the plane is not read back. */
  lemma EmojiIsNotReadBack(rest: string)
    ensures var s := "\U{00F0}\U{009F}\U{0098}\U{0080}";
      && WellFormed(s) && EscapeBody(s).Escapes?
      && StringBody(EscapeBody(s).text + "\"" + rest) != Found(UpToZero(s), rest)
  {
    hide StringBody, FrontEscape, FrontLength, UpToZero;
    var s := "\U{00F0}\U{009F}\U{0098}\U{0080}";
    assert SequenceLength(s) == 4 && CodePoint(s, 4) == 0x1F600 && s[4..] == "";
    ReadBackIffBasicPlane(s, rest);
  }

  // ---- The escaper as a loop

  lemma HexDigits(u: nat)
    requires u < 0x10000
    ensures u % 0x1000 / 0x100 == u / 0x100 % 0x10
    ensures u % 0x1000 % 0x100 / 0x10 == u / 0x10 % 0x10
    ensures u % 0x1000 % 0x100 % 0x10 == u % 0x10
  {
    assert u % 0x1000 % 0x100 == u % 0x100;
    assert u / 0x100 == u / 0x1000 * 0x10 + u % 0x1000 / 0x100;
    assert u / 0x10 == u / 0x100 * 0x10 + u % 0x100 / 0x10;
  }

  method AppendHex(buffer: string, u: nat) returns (out: string)
    requires u < 0x10000
    ensures out == buffer + ("\\u" + Hex4(u))
  {
    HexDigits(u);
    var d1, r := u / 0x1000, u % 0x1000;
    var d2 := r / 0x100;
    r := r % 0x100;
    var d3 := r / 0x10;
    var d4 := r % 0x10;
    out := buffer + ['\\', 'u', HEX_DIGITS[d1], HEX_DIGITS[d2], HEX_DIGITS[d3], HEX_DIGITS[d4]];
  }

  /** One turn of the loop, and how many bytes it is for. */
  method AppendFront(buffer: string, s: string) returns (defined: bool, out: string, length: nat)
    requires s != ""
    ensures defined <==> FrontEscape(s).Escapes?
    ensures defined ==> out == buffer + FrontEscape(s).text && length == FrontLength(s) <= |s|
  {
    hide Hex4, ShortEscape, DecodeSingle, SequenceLength, CodePoint;
    defined, length := true, 1;
    if PlainChar(s[0]) {
      out := buffer + [s[0]];
    } else if ShortEscape(s[0]) != "" {
      out := buffer + ("\\" + ShortEscape(s[0]));
    } else {
      SingleIsSequence(s);
      EncodeOfDecodeIf(s);
      var single := DecodeSingle(s);
      if single.NotSingle? { return false, buffer, 1; }
      var u, high := single.uc % 0x10000, single.uc / 0x10000;
      length := single.length;
      out := buffer;
      if high != 0 { out := AppendHex(out, high); }
      out := AppendHex(out, u);
      assert high != 0 ==> buffer + ("\\u" + Hex4(high)) + ("\\u" + Hex4(u)) == buffer + LongEscape(single.uc);
      assert high == 0 ==> "" + ("\\u" + Hex4(u)) == LongEscape(single.uc);
    }
  }

  /** `create_json_escapes`: the quoted, escaped string is appended.  For text that is not well-formed the
      code is not defined: the method says so and stops. */
  method CreateEscapes(buffer: string, s: string) returns (defined: bool, out: string)
    ensures defined <==> WellFormed(s)
    ensures defined ==> EscapeBody(s).Escapes? && out == buffer + "\"" + EscapeBody(s).text + "\""
  {
    hide FrontEscape, FrontLength;
    DefinedIffWellFormed(s);
    defined, out := true, buffer + "\"";
    var i := 0;
    assert s[0..] == s;
    while i < |s| && s[i] != '\0'
      invariant i <= |s| && (EscapeBody(s[i..]).Escapes? <==> EscapeBody(s).Escapes?)
      invariant EscapeBody(s).Escapes? ==> out + EscapeBody(s[i..]).text == buffer + "\"" + EscapeBody(s).text
    {
      ghost var rest, before := s[i..], out;
      var n;
      defined, out, n := AppendFront(out, s[i..]);
      if !defined { return; }
      i := i + n;
      assert rest[n..] == s[i..];
      assert EscapeBody(s[i..]).Escapes? ==>
          before + (FrontEscape(rest).text + EscapeBody(s[i..]).text) == out + EscapeBody(s[i..]).text;
    }
    out := out + "\"";
  }

  lemma EncodeOfDecodeIf(s: string)
    ensures SequenceLength(s) > 0 ==> SequenceLength(s) <= |s| && CodePoint(s, SequenceLength(s)) <= 0x10FFFF
  {
    if SequenceLength(s) > 0 { EncodeOfDecode(s); }
  }
}
