/** UTF-8 and UTF-16: the codecs of the JSON library and of the Lua escaper against the byte sequences of
    section 4 of RFC 3629 and the code units of RFC 2781.  A byte is a character below 256. */
module Utf8Codec {
  import opened JsonParserStep
  import opened JsonGrammar

  // ---- The byte sequences of section 4 of RFC 3629

  /** The byte at a position; a stream that has ended gives zeros. */
  function Byte(s: string, i: nat): nat {
    if i < |s| then s[i] as nat else 0
  }

  predicate Tail(b: nat) {
    0x80 <= b <= 0xBF
  }

  /** The length of the well-formed sequence at the front; 0 if there is none. */
  function SequenceLength(s: string): (n: nat)
    ensures n <= 4
  {
    var b0, b1, b2, b3 := Byte(s, 0), Byte(s, 1), Byte(s, 2), Byte(s, 3);
    if s == "" then 0
    else if b0 <= 0x7F then 1
    else if 0xC2 <= b0 <= 0xDF && Tail(b1) then 2
    else if b0 == 0xE0 && 0xA0 <= b1 <= 0xBF && Tail(b2) then 3
    else if (0xE1 <= b0 <= 0xEC || 0xEE <= b0 <= 0xEF) && Tail(b1) && Tail(b2) then 3
    else if b0 == 0xED && 0x80 <= b1 <= 0x9F && Tail(b2) then 3
    else if b0 == 0xF0 && 0x90 <= b1 <= 0xBF && Tail(b2) && Tail(b3) then 4
    else if 0xF1 <= b0 <= 0xF3 && Tail(b1) && Tail(b2) && Tail(b3) then 4
    else if b0 == 0xF4 && 0x80 <= b1 <= 0x8F && Tail(b2) && Tail(b3) then 4
    else 0
  }

  lemma SequenceFits(s: string)
    ensures SequenceLength(s) <= |s|
  {
  }

  /** The code point spelled by the first `n` bytes. */
  function CodePoint(s: string, n: nat): nat {
    match n
    case 1 => Byte(s, 0)
    case 2 => Byte(s, 0) % 0x20 * 0x40 + Byte(s, 1) % 0x40
    case 3 => (Byte(s, 0) % 0x10 * 0x40 + Byte(s, 1) % 0x40) * 0x40 + Byte(s, 2) % 0x40
    case _ => ((Byte(s, 0) % 8 * 0x40 + Byte(s, 1) % 0x40) * 0x40 + Byte(s, 2) % 0x40) * 0x40 + Byte(s, 3) % 0x40
  }

  predicate ScalarValue(uc: nat) {
    uc <= 0x10FFFF && !(0xD800 <= uc <= 0xDFFF)
  }

  lemma Sextet(high: nat, low: nat)
    requires low < 0x40
    ensures (high * 0x40 + low) / 0x40 == high && (high * 0x40 + low) % 0x40 == low
  {
  }

  lemma ShiftTwice(uc: nat)
    ensures uc / 0x1000 == uc / 0x40 / 0x40 && uc / 0x40000 == uc / 0x40 / 0x40 / 0x40
  {
  }

  lemma Rejoin(uc: nat)
    ensures uc == uc / 0x40 * 0x40 + uc % 0x40
  {
  }

  lemma Bytes(head: string, rest: string)
    ensures forall i :: 0 <= i < |head| ==> Byte(head + rest, i) == head[i] as nat
    ensures head != "" ==> head + rest != ""
  {
  }

  /** Every scalar value is spelled by exactly one well-formed sequence, which decodes to it. */
  lemma DecodeOfEncode(uc: nat, rest: string)
    requires ScalarValue(uc)
    ensures SequenceLength(Utf8(uc) + rest) == |Utf8(uc)|
    ensures CodePoint(Utf8(uc) + rest, |Utf8(uc)|) == uc
  {
    hide Byte, SequenceLength, CodePoint;
    if uc < 0x80 { OneSpelled(uc, rest); }
    else if uc < 0x800 { TwoSpelled(uc, rest); }
    else if uc < 0x10000 { ThreeSpelled(uc, rest); }
    else { LongSpelled(uc, rest); }
  }

  lemma OneSpelled(uc: nat, rest: string)
    requires uc < 0x80
    ensures SequenceLength(Encode(uc, 0) + rest) == 1 && CodePoint(Encode(uc, 0) + rest, 1) == uc
  {
  }

  lemma TwoSpelled(uc: nat, rest: string)
    requires 0x80 <= uc < 0x800
    ensures SequenceLength(Encode(uc, 1) + rest) == 2 && CodePoint(Encode(uc, 1) + rest, 2) == uc
  {
    hide Byte;
    Bytes(Encode(uc, 1), rest);
    Rejoin(uc);
    var s := Encode(uc, 1) + rest;
    assert Byte(s, 0) == 0xC0 + uc / 0x40 && Byte(s, 1) == 0x80 + uc % 0x40;
    assert Byte(s, 0) % 0x20 == uc / 0x40 && Byte(s, 1) % 0x40 == uc % 0x40;
  }

  lemma EncodeMiddle(d2: nat, d1: nat, d0: nat)
    requires d2 < 0x10 && d1 < 0x40 && d0 < 0x40
    ensures Encode((d2 * 0x40 + d1) * 0x40 + d0, 2) == [(0xE0 + d2) as char, (0x80 + d1) as char, (0x80 + d0) as char]
  {
    Sextet(d2, d1);
    Sextet(d2 * 0x40 + d1, d0);
    ShiftTwice((d2 * 0x40 + d1) * 0x40 + d0);
  }

  /** Three bytes from the digits of a scalar value in base 64. */
  lemma ThreeLong(s: string, d2: nat, d1: nat, d0: nat)
    requires d2 < 0x10 && d1 < 0x40 && d0 < 0x40 && (d2 == 0 ==> d1 >= 0x20) && (d2 == 0xD ==> d1 < 0x20)
    requires s != "" && Byte(s, 0) == 0xE0 + d2 && Byte(s, 1) == 0x80 + d1 && Byte(s, 2) == 0x80 + d0
    ensures SequenceLength(s) == 3 && CodePoint(s, 3) == (d2 * 0x40 + d1) * 0x40 + d0
  {
    hide Byte;
  }

  lemma ThreeSpelled(uc: nat, rest: string)
    requires 0x800 <= uc < 0x10000 && ScalarValue(uc)
    ensures SequenceLength(Encode(uc, 2) + rest) == 3 && CodePoint(Encode(uc, 2) + rest, 3) == uc
  {
    hide Byte, SequenceLength, Encode;
    var u1, u2 := uc / 0x40, uc / 0x40 / 0x40;
    Rejoin(uc);
    Rejoin(u1);
    EncodeMiddle(u2, u1 % 0x40, uc % 0x40);
    Bytes(Encode(uc, 2), rest);
    ThreeLong(Encode(uc, 2) + rest, u2, u1 % 0x40, uc % 0x40);
  }

  /** The digits of a number in base 64, low ones first. */
  lemma Sextets(d3: nat, d2: nat, d1: nat, d0: nat)
    requires d2 < 0x40 && d1 < 0x40 && d0 < 0x40
    ensures var uc := ((d3 * 0x40 + d2) * 0x40 + d1) * 0x40 + d0;
      uc / 0x40000 == d3 && uc / 0x1000 % 0x40 == d2 && uc / 0x40 % 0x40 == d1 && uc % 0x40 == d0
  {
    var u2 := d3 * 0x40 + d2;
    var u1 := u2 * 0x40 + d1;
    var uc := u1 * 0x40 + d0;
    Sextet(d3, d2);
    Sextet(u2, d1);
    Sextet(u1, d0);
    ShiftTwice(uc);
  }

  lemma EncodeLong(d3: nat, d2: nat, d1: nat, d0: nat)
    requires d3 < 8 && d2 < 0x40 && d1 < 0x40 && d0 < 0x40
    ensures Encode(((d3 * 0x40 + d2) * 0x40 + d1) * 0x40 + d0, 3)
         == [(0xF0 + d3) as char, (0x80 + d2) as char, (0x80 + d1) as char, (0x80 + d0) as char]
  {
    Sextets(d3, d2, d1, d0);
  }

  /** A number from its digits in base 64. */
  lemma FromSextets(uc: nat)
    ensures uc == ((uc / 0x40000 * 0x40 + uc / 0x1000 % 0x40) * 0x40 + uc / 0x40 % 0x40) * 0x40 + uc % 0x40
  {
    Rejoin(uc);
    Rejoin(uc / 0x40);
    Rejoin(uc / 0x40 / 0x40);
    ShiftTwice(uc);
  }

  lemma LongSpelled(uc: nat, rest: string)
    requires 0x10000 <= uc <= 0x10FFFF
    ensures SequenceLength(Encode(uc, 3) + rest) == 4 && CodePoint(Encode(uc, 3) + rest, 4) == uc
  {
    hide Byte, Encode;
    var s := Encode(uc, 3) + rest;
    var d3, d2, d1, d0 := uc / 0x40000, uc / 0x1000 % 0x40, uc / 0x40 % 0x40, uc % 0x40;
    FromSextets(uc);
    EncodeLong(d3, d2, d1, d0);
    Bytes(Encode(uc, 3), rest);
    assert Byte(s, 0) == 0xF0 + d3 && Byte(s, 1) == 0x80 + d2 && Byte(s, 2) == 0x80 + d1 && Byte(s, 3) == 0x80 + d0;
    LongLength(s, d3, d2);
  }

  lemma LongLength(s: string, d3: nat, d2: nat)
    requires s != "" && Byte(s, 0) == 0xF0 + d3 && Byte(s, 1) == 0x80 + d2 && d2 < 0x40 && Tail(Byte(s, 2))
      && Tail(Byte(s, 3))
    requires 0x10 <= d3 * 0x40 + d2 < 0x110
    ensures SequenceLength(s) == 4
  {
  }

  lemma EncodeOfDecode(s: string)
    requires SequenceLength(s) > 0
    ensures ScalarValue(CodePoint(s, SequenceLength(s)))
    ensures SequenceLength(s) <= |s| && Utf8(CodePoint(s, SequenceLength(s))) == s[..SequenceLength(s)]
  {
    match SequenceLength(s)
    case 1 =>
    case 2 => TwoBytes(s);
    case 3 => ThreeBytes(s);
    case _ => FourBytes(s);
  }

  lemma TwoBytes(s: string)
    requires SequenceLength(s) == 2
    ensures |s| >= 2 && Utf8(CodePoint(s, 2)) == s[..2] && ScalarValue(CodePoint(s, 2))
  {
    hide SequenceLength;
    TwoByteRanges(s);
    Sextet(Byte(s, 0) % 0x20, Byte(s, 1) % 0x40);
    assert s[..2] == [Byte(s, 0) as char, Byte(s, 1) as char];
  }

  lemma TwoByteRanges(s: string)
    requires SequenceLength(s) == 2
    ensures |s| >= 2 && 0xC2 <= Byte(s, 0) <= 0xDF && Tail(Byte(s, 1))
  {
  }

  lemma ThreeBytes(s: string)
    requires SequenceLength(s) == 3
    ensures |s| >= 3 && Utf8(CodePoint(s, 3)) == s[..3] && ScalarValue(CodePoint(s, 3))
  {
    hide SequenceLength, Encode;
    ThreeByteRanges(s);
    var d2, d1, d0 := Byte(s, 0) % 0x10, Byte(s, 1) % 0x40, Byte(s, 2) % 0x40;
    EncodeMiddle(d2, d1, d0);
    assert s[..3] == [Byte(s, 0) as char, Byte(s, 1) as char, Byte(s, 2) as char];
  }

  lemma ThreeByteRanges(s: string)
    requires SequenceLength(s) == 3
    ensures |s| >= 3 && 0xE0 <= Byte(s, 0) <= 0xEF && Tail(Byte(s, 1)) && Tail(Byte(s, 2))
    ensures Byte(s, 0) == 0xE0 ==> Byte(s, 1) >= 0xA0
    ensures Byte(s, 0) == 0xED ==> Byte(s, 1) <= 0x9F
  {
  }

  lemma FourBytes(s: string)
    requires SequenceLength(s) == 4
    ensures |s| >= 4 && Utf8(CodePoint(s, 4)) == s[..4] && ScalarValue(CodePoint(s, 4))
  {
    hide SequenceLength, Encode;
    FourByteRanges(s);
    var d3, d2, d1, d0 := Byte(s, 0) % 8, Byte(s, 1) % 0x40, Byte(s, 2) % 0x40, Byte(s, 3) % 0x40;
    EncodeLong(d3, d2, d1, d0);
    assert 0x10 <= d3 * 0x40 + d2 < 0x110;
    assert s[..4] == [Byte(s, 0) as char, Byte(s, 1) as char, Byte(s, 2) as char, Byte(s, 3) as char];
  }

  lemma FourByteRanges(s: string)
    requires SequenceLength(s) == 4
    ensures |s| >= 4 && 0xF0 <= Byte(s, 0) <= 0xF4 && Tail(Byte(s, 1)) && Tail(Byte(s, 2)) && Tail(Byte(s, 3))
    ensures Byte(s, 0) == 0xF0 ==> Byte(s, 1) >= 0x90
    ensures Byte(s, 0) == 0xF4 ==> Byte(s, 1) <= 0x8F
  {
  }

  // ---- The streams of the JSON library

  class ByteStream {
    const bytes: string
    var pos: nat

    constructor (bytes: string)
      ensures this.bytes == bytes && pos == 0
    {
      this.bytes := bytes;
      pos := 0;
    }

    function Rest(): string
      reads this
    {
      if pos <= |bytes| then bytes[pos..] else ""
    }

    method Take() returns (b: nat)
      modifies this
      ensures b == Byte(old(Rest()), 0) && pos == old(pos) + 1
    {
      b := if pos < |bytes| then bytes[pos] as nat else 0;
      pos := pos + 1;
    }
  }

  /** The classes of bytes, one bit each for the three kinds of continuation byte. */
  function GetRange(b: nat): bv8 {
    if b < 0x80 then 0
    else if b < 0x90 then 0x10
    else if b < 0xA0 then 0x40
    else if b < 0xC0 then 0x20
    else if b < 0xC2 then 8
    else if b < 0xE0 then 2
    else if b == 0xE0 then 10
    else if b == 0xED then 4
    else if b < 0xF0 then 3
    else if b == 0xF0 then 11
    else if b < 0xF4 then 6
    else if b == 0xF4 then 5
    else 8
  }

  predicate InRange(b: nat, mask: bv8) {
    GetRange(b) & mask != 0
  }

  lemma Ranges(b: nat)
    ensures InRange(b, 0x70) <==> Tail(b)
    ensures InRange(b, 0x50) <==> 0x80 <= b <= 0x9F
    ensures InRange(b, 0x10) <==> 0x80 <= b <= 0x8F
    ensures InRange(b, 0x20) <==> 0xA0 <= b <= 0xBF
    ensures InRange(b, 0x60) <==> 0x90 <= b <= 0xBF
  {
  }

  /** One continuation byte: whether it is in the range, and the code point with its six bits. */
  method TakeTail(input: ByteStream, mask: bv8, codepoint: nat) returns (ok: bool, uc: nat)
    modifies input
    ensures input.pos == old(input.pos) + 1
    ensures ok == InRange(Byte(old(input.Rest()), 0), mask)
    ensures uc == codepoint * 0x40 + Byte(old(input.Rest()), 0) % 0x40
  {
    var c := input.Take();
    uc := codepoint * 0x40 + c % 0x40;
    ok := InRange(c, mask);
  }

  /** `UTF8::Decode`: it answers whether a well-formed sequence is next; then it has taken just that sequence. */
  method Decode(input: ByteStream) returns (ok: bool, uc: nat)
    modifies input
    ensures ok <==> SequenceLength(old(input.Rest())) > 0 || old(input.Rest()) == ""
    ensures ok && old(input.Rest()) != "" ==>
      && uc == CodePoint(old(input.Rest()), SequenceLength(old(input.Rest())))
      && input.pos == old(input.pos) + SequenceLength(old(input.Rest()))
  {
    hide GetRange, InRange, LeadRange, SequenceLength, CodePoint, Byte;
    ghost var s := input.Rest();
    var c := input.Take();
    NoByte();
    OneByte(s);
    if c < 0x80 { return true, c; }
    ByRange(s);
    LeadMeans(c);
    RestBytes(input, s);
    var range := LeadRange(c);
    if range == 8 || range >= 16 { return false, 0; }
    var lead := if range < 8 then c % Mask(range) else 0;
    LeadBits(s);
    if range == 2 {
      ok, uc := TakeTail(input, 0x70, lead);
    } else if range == 3 || range == 4 || range == 10 {
      var r1, r2;
      r1, uc := TakeTail(input, if range == 3 then 0x70 else if range == 4 then 0x50 else 0x20, lead);
      RestBytes1(input, s);
      r2, uc := TakeTail(input, 0x70, uc);
      ok := r1 && r2;
    } else {
      var r1, r2, r3;
      r1, uc := TakeTail(input, if range == 5 then 0x10 else if range == 6 then 0x70 else 0x60, lead);
      RestBytes1(input, s);
      r2, uc := TakeTail(input, 0x70, uc);
      RestBytes2(input, s);
      r3, uc := TakeTail(input, 0x70, uc);
      ok := r1 && r2 && r3;
    }
  }

  /** The character at the front of a stream, a zero if it has ended. */
  function FrontChar(s: string): char {
    if s == "" then '\0' else s[0]
  }

  /** One byte, taken and put out: its value and the output with it. */
  method Copy(input: ByteStream, os: string) returns (b: nat, out: string)
    modifies input
    ensures input.pos == old(input.pos) + 1
    ensures b == Byte(old(input.Rest()), 0) && out == os + [FrontChar(old(input.Rest()))]
  {
    var ch := if input.pos < |input.bytes| then input.bytes[input.pos] else '\0';
    b := input.Take();
    out := os + [ch];
  }

  /** One continuation byte, copied: whether it is in the range. */
  method CopyTail(input: ByteStream, os: string, mask: bv8) returns (ok: bool, out: string)
    modifies input
    ensures input.pos == old(input.pos) + 1
    ensures ok == InRange(Byte(old(input.Rest()), 0), mask) && out == os + [FrontChar(old(input.Rest()))]
  {
    var b;
    b, out := Copy(input, os);
    ok := InRange(b, mask);
  }

  /** `UTF8::Validate`: it answers what `Decode` answers; then it has taken just the sequence, and put it out. */
  method Validate(input: ByteStream, os: string) returns (ok: bool, out: string)
    modifies input
    ensures ok <==> SequenceLength(old(input.Rest())) > 0 || old(input.Rest()) == ""
    ensures ok && old(input.Rest()) != "" ==>
      var n := SequenceLength(old(input.Rest()));
      n <= |old(input.Rest())| && out == os + old(input.Rest())[..n] && input.pos == old(input.pos) + n
  {
    hide GetRange, InRange, LeadRange, SequenceLength, Byte, FrontChar;
    ghost var s := input.Rest();
    var b;
    b, out := Copy(input, os);
    NoByte();
    OneByte(s);
    SequenceFits(s);
    Fronts(s);
    if b < 0x80 { return true, out; }
    ByRange(s);
    LeadMeans(b);
    RestBytes(input, s);
    RestFronts(input, s);
    var range := LeadRange(b);
    if range == 8 || range >= 16 { return false, out; }
    if range == 2 {
      ok, out := CopyTail(input, out, 0x70);
    } else if range == 3 || range == 4 || range == 10 {
      var r1, r2;
      r1, out := CopyTail(input, out, if range == 3 then 0x70 else if range == 4 then 0x50 else 0x20);
      RestBytes1(input, s);
      RestFronts1(input, s);
      r2, out := CopyTail(input, out, 0x70);
      ok := r1 && r2;
    } else {
      var r1, r2, r3;
      r1, out := CopyTail(input, out, if range == 5 then 0x10 else if range == 6 then 0x70 else 0x60);
      RestBytes1(input, s);
      RestFronts1(input, s);
      r2, out := CopyTail(input, out, 0x70);
      RestBytes2(input, s);
      RestFronts2(input, s);
      r3, out := CopyTail(input, out, 0x70);
      ok := r1 && r2 && r3;
    }
  }

  lemma Fronts(s: string)
    ensures s != "" ==> [FrontChar(s)] == s[..1]
    ensures |s| >= 2 ==> [FrontChar(s)] + [FrontChar(s[1..])] == s[..2]
    ensures |s| >= 3 ==> [FrontChar(s)] + [FrontChar(s[1..])] + [FrontChar(s[2..])] == s[..3]
    ensures |s| >= 4 ==> [FrontChar(s)] + [FrontChar(s[1..])] + [FrontChar(s[2..])] + [FrontChar(s[3..])] == s[..4]
  {
  }

  lemma RestFronts(input: ByteStream, s: string)
    requires input.pos >= 1 && s == (if input.pos - 1 <= |input.bytes| then input.bytes[input.pos - 1..] else "")
    ensures |s| >= 2 ==> input.Rest() == s[1..]
  {
  }

  lemma RestFronts1(input: ByteStream, s: string)
    requires input.pos >= 2 && s == (if input.pos - 2 <= |input.bytes| then input.bytes[input.pos - 2..] else "")
    ensures |s| >= 3 ==> input.Rest() == s[2..]
  {
  }

  lemma RestFronts2(input: ByteStream, s: string)
    requires input.pos >= 3 && s == (if input.pos - 3 <= |input.bytes| then input.bytes[input.pos - 3..] else "")
    ensures |s| >= 4 ==> input.Rest() == s[3..]
  {
  }

  lemma NoByte()
    ensures Byte("", 0) == 0
  {
  }

  lemma OneByte(s: string)
    ensures s != "" && Byte(s, 0) < 0x80 ==> SequenceLength(s) == 1 && CodePoint(s, 1) == Byte(s, 0)
  {
  }

  /** The well-formed sequences by the class of their first byte. */
  lemma ByRange(s: string)
    requires s != "" && Byte(s, 0) >= 0x80
    ensures var b1, b2, b3 := Byte(s, 1), Byte(s, 2), Byte(s, 3);
      SequenceLength(s) == match LeadRange(Byte(s, 0))
        case 2 => if InRange(b1, 0x70) then 2 else 0
        case 3 => if InRange(b1, 0x70) && InRange(b2, 0x70) then 3 else 0
        case 4 => if InRange(b1, 0x50) && InRange(b2, 0x70) then 3 else 0
        case 10 => if InRange(b1, 0x20) && InRange(b2, 0x70) then 3 else 0
        case 5 => if InRange(b1, 0x10) && InRange(b2, 0x70) && InRange(b3, 0x70) then 4 else 0
        case 6 => if InRange(b1, 0x70) && InRange(b2, 0x70) && InRange(b3, 0x70) then 4 else 0
        case 11 => if InRange(b1, 0x60) && InRange(b2, 0x70) && InRange(b3, 0x70) then 4 else 0
        case _ => 0
  {
    hide InRange, LeadRange, Byte;
    Ranges(Byte(s, 1));
    Ranges(Byte(s, 2));
    Ranges(Byte(s, 3));
    LeadMeans(Byte(s, 0));
  }

  /** The code point, from what the mask leaves of the first byte. */
  lemma LeadBits(s: string)
    requires s != "" && Byte(s, 0) >= 0x80
    ensures var range := LeadRange(Byte(s, 0));
      var lead := if range < 8 then Byte(s, 0) % Mask(range) else 0;
      && (range == 2 ==> CodePoint(s, 2) == lead * 0x40 + Byte(s, 1) % 0x40)
      && (range in {3, 4, 10} ==> CodePoint(s, 3) == (lead * 0x40 + Byte(s, 1) % 0x40) * 0x40 + Byte(s, 2) % 0x40)
      && (range in {5, 6, 11} ==>
          CodePoint(s, 4) == ((lead * 0x40 + Byte(s, 1) % 0x40) * 0x40 + Byte(s, 2) % 0x40) * 0x40 + Byte(s, 3) % 0x40)
  {
    hide Byte, LeadRange, Mask;
    LeadDigit(Byte(s, 0));
  }

  /** The mask leaves of a first byte what the code point takes of it. */
  lemma LeadDigit(c: nat)
    requires c >= 0x80
    ensures var lead := if LeadRange(c) < 8 then c % Mask(LeadRange(c)) else 0;
      && (LeadRange(c) == 2 ==> lead == c % 0x20)
      && (LeadRange(c) in {3, 4, 10} ==> lead == c % 0x10)
      && (LeadRange(c) in {5, 6, 11} ==> lead == c % 8)
  {
    hide LeadRange;
    LeadMeans(c);
  }

  function LeadRange(c: nat): nat {
    GetRange(c) as nat
  }

  /** The leading bytes of each range, and the bits `0xFF >> type` leaves of them. */
  lemma LeadMeans(c: nat)
    ensures LeadRange(c) == 2 <==> 0xC2 <= c <= 0xDF
    ensures LeadRange(c) == 3 <==> 0xE1 <= c <= 0xEC || 0xEE <= c <= 0xEF
    ensures LeadRange(c) == 4 <==> c == 0xED
    ensures LeadRange(c) == 5 <==> c == 0xF4
    ensures LeadRange(c) == 6 <==> 0xF1 <= c <= 0xF3
    ensures LeadRange(c) == 10 <==> c == 0xE0
    ensures LeadRange(c) == 11 <==> c == 0xF0
    ensures LeadRange(c) in {2, 3, 4, 5, 6, 8, 10, 11} || LeadRange(c) >= 16 || c < 0x80
  {
  }

  /** What is left of a leading byte under `0xFF >> type`. */
  function Mask(range: nat): (m: nat)
    ensures m > 0
  {
    match range
    case 2 => 0x40
    case 3 => 0x20
    case 4 => 0x10
    case 5 => 8
    case _ => 4
  }

  lemma RestBytes(input: ByteStream, s: string)
    requires input.pos >= 1 && s == (if input.pos - 1 <= |input.bytes| then input.bytes[input.pos - 1..] else "")
    ensures Byte(input.Rest(), 0) == Byte(s, 1)
  {
  }

  lemma RestBytes1(input: ByteStream, s: string)
    requires input.pos >= 2 && s == (if input.pos - 2 <= |input.bytes| then input.bytes[input.pos - 2..] else "")
    ensures Byte(input.Rest(), 0) == Byte(s, 2)
  {
  }

  lemma RestBytes2(input: ByteStream, s: string)
    requires input.pos >= 3 && s == (if input.pos - 3 <= |input.bytes| then input.bytes[input.pos - 3..] else "")
    ensures Byte(input.Rest(), 0) == Byte(s, 3)
  {
  }

  /** `UTF8::Encode`, which asserts that the code point is one. */
  method EncodeTo(os: string, codepoint: nat) returns (out: string)
    requires codepoint <= 0x10FFFF
    ensures out == os + Utf8(codepoint)
  {
    if codepoint <= 0x7F {
      out := os + [ByteChar(codepoint)];
    } else if codepoint <= 0x7FF {
      out := os + [ByteChar(0xC0 + codepoint / 0x40)];
      out := out + [ByteChar(0x80 + codepoint % 0x40)];
    } else if codepoint <= 0xFFFF {
      out := os + [ByteChar(0xE0 + codepoint / 0x1000)];
      out := out + [ByteChar(0x80 + codepoint / 0x40 % 0x40)];
      out := out + [ByteChar(0x80 + codepoint % 0x40)];
    } else {
      out := os + [ByteChar(0xF0 + codepoint / 0x40000)];
      out := out + [ByteChar(0x80 + codepoint / 0x1000 % 0x40)];
      out := out + [ByteChar(0x80 + codepoint / 0x40 % 0x40)];
      out := out + [ByteChar(0x80 + codepoint % 0x40)];
    }
  }

  // ---- UTF-16

  /** The code units of a scalar value. */
  function Units(uc: nat): seq<nat> {
    if uc <= 0xFFFF then [uc] else [0xD800 + (uc - 0x10000) / 0x400, 0xDC00 + (uc - 0x10000) % 0x400]
  }

  datatype UnitResult = UnitResult(ok: bool, uc: nat, taken: nat)

  /** `UTF16::Decode`, on units of which some are left; a stream that has ended gives zeros. */
  function DecodeUnits(u: seq<nat>): UnitResult
    requires u != []
  {
    var c := u[0];
    if c < 0xD800 || c > 0xDFFF then UnitResult(true, c, 1)
    else if c <= 0xDBFF then
      var d := if |u| > 1 then u[1] else 0;
      UnitResult(0xDC00 <= d <= 0xDFFF, c % 0x400 * 0x400 + d % 0x400 + 0x10000, 2)
    else UnitResult(false, 0, 1)
  }

  lemma UnitsDecode(uc: nat, rest: seq<nat>)
    requires ScalarValue(uc)
    ensures DecodeUnits(Units(uc) + rest) == UnitResult(true, uc, |Units(uc)|)
  {
  }

  lemma DecodedUnits(u: seq<nat>)
    requires u != [] && (forall i :: 0 <= i < |u| ==> u[i] <= 0xFFFF) && DecodeUnits(u).ok
    ensures ScalarValue(DecodeUnits(u).uc)
    ensures DecodeUnits(u).taken <= |u| && u[..DecodeUnits(u).taken] == Units(DecodeUnits(u).uc)
  {
  }

  // ---- Whole streams

  datatype Transcoded<T> = Whole(out: seq<T>) | Broken

  function ToUtf16(s: string): Transcoded<nat>
    decreases |s|
  {
    if s == "" then Whole([])
    else if SequenceLength(s) == 0 then Broken
    else
      SequenceFits(s);
      match ToUtf16(s[SequenceLength(s)..])
      case Broken => Broken
      case Whole(out) => Whole(Units(CodePoint(s, SequenceLength(s))) + out)
  }

  function ToUtf8(u: seq<nat>): Transcoded<char>
    decreases |u|
  {
    if u == [] then Whole("")
    else if !DecodeUnits(u).ok then Broken
    else match ToUtf8(u[if DecodeUnits(u).taken <= |u| then DecodeUnits(u).taken else |u|..])
      case Broken => Broken
      case Whole(out) => Whole(Utf8(DecodeUnits(u).uc) + out)
  }

  /** Transcoding well-formed UTF-8 to UTF-16 and back is the identity. */
  lemma {:induction false} Utf16RoundTrip(s: string)
    ensures match ToUtf16(s)
      case Broken => true
      case Whole(u) => ToUtf8(u) == Whole(s)
    decreases |s|
  {
    hide SequenceLength, CodePoint, Utf8, Units, DecodeUnits;
    if s != "" && SequenceLength(s) > 0 {
      SequenceFits(s);
      var n := SequenceLength(s);
      Utf16RoundTrip(s[n..]);
      EncodeOfDecode(s);
      match ToUtf16(s[n..])
      case Broken =>
      case Whole(out) =>
        var uc := CodePoint(s, n);
        UnitsDecode(uc, out);
        SomeUnits(uc);
        assert (Units(uc) + out)[|Units(uc)|..] == out;
        assert s == s[..n] + s[n..];
    }
  }

  lemma SomeUnits(uc: nat)
    ensures Units(uc) != []
  {
  }

  /** And so is transcoding well-formed UTF-16 to UTF-8 and back. */
  lemma {:induction false} Utf8RoundTrip(u: seq<nat>)
    requires forall i :: 0 <= i < |u| ==> u[i] <= 0xFFFF
    ensures match ToUtf8(u)
      case Broken => true
      case Whole(s) => ToUtf16(s) == Whole(u)
    decreases |u|
  {
    hide SequenceLength, CodePoint, Utf8, Units, DecodeUnits;
    if u != [] && DecodeUnits(u).ok {
      DecodedUnits(u);
      var n := DecodeUnits(u).taken;
      if n == 0 { SomeUnits(DecodeUnits(u).uc); }
      Utf8RoundTrip(u[n..]);
      match ToUtf8(u[n..])
      case Broken =>
      case Whole(out) =>
        var uc := DecodeUnits(u).uc;
        DecodeOfEncode(uc, out);
        SomeBytes(uc);
        assert (Utf8(uc) + out)[|Utf8(uc)|..] == out;
        assert u == u[..n] + u[n..];
    }
  }

  lemma SomeBytes(uc: nat)
    ensures Utf8(uc) != ""
  {
  }
}
