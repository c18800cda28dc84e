/** JSON pointers: reading them from their string form and their URI fragment form (sections 3, 4 and 6 of RFC 6901)
    and printing them back. */
module JsonPointer {
  import opened JsonParserStep
  import opened JsonGrammar
  import opened Utf8Codec

  /** An index that a token does not have. */
  const INVALID_INDEX := 0xFFFF_FFFF

  /** A reference token: its name and the index it stands for in an array. */
  datatype PointerToken = PointerToken(name: string, index: nat)

  datatype PointerError = TokenMustBeginWithSolidus | InvalidEscape | InvalidPercentEncoding | MustPercentEncode

  datatype Named = Name(name: string, rest: string) | BadName(error: PointerError)

  datatype Pointer = Tokens(tokens: seq<PointerToken>) | Invalid(error: PointerError)

  // ---- Indices

  predicate OnlyDigits(name: string) {
    forall i :: 0 <= i < |name| ==> DigitChar(name[i])
  }

  /** The value of digits in 32 bits; `INVALID_INDEX` once a step makes it smaller. */
  function Accumulate(name: string, n: nat): nat {
    if name == "" then n
    else if !DigitChar(name[0]) then INVALID_INDEX
    else
      var m := (n * 10 + (name[0] as nat - '0' as nat)) % 0x1_0000_0000;
      if m < n then INVALID_INDEX else Accumulate(name[1..], m)
  }

  function IndexOf(name: string): nat {
    if name != "" && OnlyDigits(name) && !(|name| > 1 && name[0] == '0') then Accumulate(name, 0) else INVALID_INDEX
  }

  function TokenOf(name: string): PointerToken {
    PointerToken(name, IndexOf(name))
  }

  // ---- Percent encoding

  predicate NeedPercentEncode(ch: char) {
    !(('0' <= ch <= '9') || ('A' <= ch <= 'Z') || ('a' <= ch <= 'z') || ch == '-' || ch == '.' || ch == '_'
      || ch == '~')
  }

  predicate Triplet(s: string) {
    |s| >= 3 && s[0] == '%' && HexChar(s[1]) && HexChar(s[2])
  }

  function TripletByte(s: string): char
    requires Triplet(s)
  {
    (HexValue(s[1]) * 16 + HexValue(s[2])) as char
  }

  /** The bytes of the percent-encoded triplets at the front, at most four. */
  function Triplets(s: string, limit: nat): (bytes: string)
    ensures |bytes| <= limit && 3 * |bytes| <= |s|
    decreases limit
  {
    if limit == 0 || !Triplet(s) then "" else [TripletByte(s)] + Triplets(s[3..], limit - 1)
  }

  // ---- Reading

  /** One escaped character: what it stands for and the text after it. */
  function Unescape(ch: char, rest: string): Named {
    if ch != '~' then Name([ch], rest)
    else if rest == "" then BadName(InvalidEscape)
    else if rest[0] == '0' then Name("~", rest[1..])
    else if rest[0] == '1' then Name("/", rest[1..])
    else BadName(InvalidEscape)
  }

  /** What the front of a name, which is not its end, stands for. */
  function Front(s: string, uri: bool): (r: Named)
    requires s != ""
    ensures r.Name? ==> |r.rest| < |s| && |r.name| <= |s| - |r.rest|
  {
    if uri && s[0] == '%' then
      var bytes := Triplets(s, 4);
      var n := SequenceLength(bytes);
      if n == 0 || n > |bytes| then BadName(InvalidPercentEncoding)
      else if n == 1 then Unescape(bytes[0], s[3..])
      else Name(bytes[..n], s[3 * n..])
    else if uri && NeedPercentEncode(s[0]) then BadName(MustPercentEncode)
    else Unescape(s[0], s[1..])
  }

  /** A name, up to the next solidus or the end. */
  function ParseName(s: string, uri: bool): (r: Named)
    ensures r.Name? ==> |r.rest| <= |s| && |r.name| <= |s| - |r.rest| && (r.rest == "" || r.rest[0] == '/')
    decreases |s|
  {
    if s == "" || s[0] == '/' then Name("", s)
    else match Front(s, uri)
      case BadName(e) => BadName(e)
      case Name(text, rest) =>
        match ParseName(rest, uri)
        case BadName(e) => BadName(e)
        case Name(more, rest') => Name(text + more, rest')
  }

  function ParseTokens(s: string, uri: bool): Pointer
    decreases |s|
  {
    if s == "" then Tokens([])
    else if s[0] != '/' then Invalid(TokenMustBeginWithSolidus)
    else match ParseName(s[1..], uri)
      case BadName(e) => Invalid(e)
      case Name(name, rest) =>
        match ParseTokens(rest, uri)
        case Invalid(e) => Invalid(e)
        case Tokens(more) => Tokens([TokenOf(name)] + more)
  }

  predicate Fragment(s: string) {
    StartsWith(s, '#')
  }

  function Parse(s: string): Pointer {
    if Fragment(s) then ParseTokens(s[1..], true) else ParseTokens(s, false)
  }

  // ---- Printing

  function PercentEncode(bytes: string): string {
    if bytes == "" then ""
    else
      var b := bytes[0] as nat % 0x100;
      ['%', HEX_DIGITS[b / 16], HEX_DIGITS[b % 16]] + PercentEncode(bytes[1..])
  }

  /** The printed name; nothing if a byte to be percent-encoded begins no well-formed sequence. */
  function PrintName(name: string, uri: bool): Transcoded<char>
    decreases |name|
  {
    if name == "" then Whole("")
    else
      var n := FrontSize(name, uri);
      if n == 0 || n > |name| then Broken
      else match PrintName(name[n..], uri)
        case Broken => Broken
        case Whole(more) => Whole(PrintFront(name, uri, n) + more)
  }

  /** How many bytes are printed at once; 0 if they cannot be. */
  function FrontSize(name: string, uri: bool): nat
    requires name != ""
  {
    if name[0] != '~' && name[0] != '/' && uri && NeedPercentEncode(name[0]) then SequenceLength(name) else 1
  }

  function PrintFront(name: string, uri: bool, n: nat): string
    requires name != "" && n <= |name|
  {
    if name[0] == '~' then "~0"
    else if name[0] == '/' then "~1"
    else if uri && NeedPercentEncode(name[0]) then PercentEncode(name[..n])
    else [name[0]]
  }

  function PrintTokens(tokens: seq<PointerToken>, uri: bool): Transcoded<char> {
    if tokens == [] then Whole("")
    else match PrintName(tokens[0].name, uri)
      case Broken => Broken
      case Whole(name) =>
        match PrintTokens(tokens[1..], uri)
        case Broken => Broken
        case Whole(more) => Whole("/" + name + more)
  }

  function Stringify(tokens: seq<PointerToken>, uri: bool): Transcoded<char> {
    match PrintTokens(tokens, uri)
    case Broken => Broken
    case Whole(text) => Whole(if uri then "#" + text else text)
  }

  // ---- Reading back what was printed

  lemma TripletReads(b: nat, rest: string)
    requires b < 0x100
    ensures var s := ['%', HEX_DIGITS[b / 16], HEX_DIGITS[b % 16]] + rest;
      Triplet(s) && TripletByte(s) == b as char && s[3..] == rest
  {
    HexDigitReads(b / 16);
    HexDigitReads(b % 16);
  }

  predicate AllBytes(s: string) {
    forall i :: 0 <= i < |s| ==> s[i] as nat < 0x100
  }

  lemma OneTriplet(b: nat, more: string, limit: nat)
    requires b < 0x100 && limit > 0
    ensures Triplets(['%', HEX_DIGITS[b / 16], HEX_DIGITS[b % 16]] + more, limit)
      == [b as char] + Triplets(more, limit - 1)
  {
    hide HexValue, HexChar, Triplet, TripletByte, HEX_DIGITS;
    TripletReads(b, more);
  }

  lemma OneEncoded(bytes: string, rest: string)
    requires bytes != ""
    ensures var b := bytes[0] as nat % 0x100;
      PercentEncode(bytes) + rest == ['%', HEX_DIGITS[b / 16], HEX_DIGITS[b % 16]] + (PercentEncode(bytes[1..]) + rest)
    ensures |PercentEncode(bytes)| == 3 + |PercentEncode(bytes[1..])|
  {
    hide HEX_DIGITS;
  }

  lemma JoinFirst(bytes: string, more: string)
    requires bytes != ""
    ensures [bytes[0]] + (bytes[1..] + more) == bytes + more
  {
  }

  lemma NothingEncoded(rest: string, limit: nat)
    ensures PercentEncode("") + rest == rest && "" + Triplets(rest, limit) == Triplets(rest, limit)
      && |PercentEncode("")| == 0
  {
  }

  lemma FirstByte(bytes: string)
    requires AllBytes(bytes) && bytes != ""
    ensures bytes[0] as nat < 0x100 && AllBytes(bytes[1..])
  {
  }

  /** Percent-encoded bytes are read back, as far as the limit goes. */
  lemma {:induction false} TripletsReadBack(bytes: string, rest: string, limit: nat)
    requires AllBytes(bytes) && |bytes| <= limit
    ensures |PercentEncode(bytes)| == 3 * |bytes|
    ensures Triplets(PercentEncode(bytes) + rest, limit) == bytes + Triplets(rest, limit - |bytes|)
    decreases |bytes|
  {
    hide PercentEncode, Triplets, AllBytes, Triplet, TripletByte, HEX_DIGITS;
    if bytes == "" {
      NothingEncoded(rest, limit);
    } else {
      FirstByte(bytes);
      OneEncoded(bytes, rest);
      OneTriplet(bytes[0] as nat, PercentEncode(bytes[1..]) + rest, limit);
      TripletsReadBack(bytes[1..], rest, limit - 1);
      JoinFirst(bytes, Triplets(rest, limit - |bytes|));
    }
  }

  /** What follows a well-formed sequence does not change its length. */
  lemma SameSequence(bytes: string, more: string)
    requires SequenceLength(bytes) == |bytes| > 0
    ensures SequenceLength(bytes + more) == |bytes|
  {
  }

  lemma SequenceAlone(s: string)
    requires SequenceLength(s) > 0
    ensures SequenceLength(s) <= |s| && SequenceLength(s[..SequenceLength(s)]) == SequenceLength(s)
    ensures AllBytes(s[..SequenceLength(s)])
    ensures SequenceLength(s) == 1 ==> s[0] as nat < 0x80
  {
  }

  /** One printed character or sequence is read back. */
  lemma FrontReadsBack(name: string, uri: bool, rest: string)
    requires name != "" && FrontSize(name, uri) > 0
    ensures FrontSize(name, uri) <= |name|
    ensures var n := FrontSize(name, uri);
      var s := PrintFront(name, uri, n) + rest;
      s != "" && s[0] != '/' && Front(s, uri) == Name(name[..n], rest)
  {
    hide SequenceLength, Triplets, HexValue, HexChar, PercentEncode;
    var n := FrontSize(name, uri);
    if name[0] == '~' {
      assert ("~0" + rest)[1..][1..] == rest && name[..1] == "~";
    } else if name[0] == '/' {
      assert ("~1" + rest)[1..][1..] == rest && name[..1] == "/";
    } else if uri && NeedPercentEncode(name[0]) {
      SequenceReadsBack(name, rest);
    } else {
      assert ([name[0]] + rest)[1..] == rest && name[..1] == [name[0]];
    }
  }

  lemma SequenceReadsBack(name: string, rest: string)
    requires name != "" && NeedPercentEncode(name[0]) && SequenceLength(name) > 0 && name[0] != '~'
    ensures var n := SequenceLength(name);
      n <= |name| && var s := PercentEncode(name[..n]) + rest;
      s != "" && s[0] == '%' && Front(s, true) == Name(name[..n], rest)
  {
    hide HexValue, HexChar, Triplets;
    var n := SequenceLength(name);
    SequenceAlone(name);
    var bytes := name[..n];
    var s := PercentEncode(bytes) + rest;
    TripletsReadBack(bytes, rest, 4);
    hide SequenceLength;
    SameSequence(bytes, Triplets(rest, 4 - n));
    assert s[3 * n..] == rest;
    assert (bytes + Triplets(rest, 4 - n))[..n] == bytes;
    assert s[0] == '%' by { PercentFirst(bytes); }
    assert n == 1 ==> bytes == [bytes[0]];
  }

  lemma PercentFirst(bytes: string)
    requires bytes != ""
    ensures PercentEncode(bytes) != "" && PercentEncode(bytes)[0] == '%'
  {
  }

  /** A printed name is read back, up to the solidus that ends it. */
  lemma {:induction false} NameReadsBack(name: string, uri: bool, rest: string)
    requires PrintName(name, uri).Whole? && (rest == "" || rest[0] == '/')
    ensures ParseName(PrintName(name, uri).out + rest, uri) == Name(name, rest)
    decreases |name|
  {
    hide Front, PrintFront, FrontSize;
    if name == "" {
      assert "" + rest == rest;
    } else {
      var n := FrontSize(name, uri);
      var more := PrintName(name[n..], uri).out;
      FrontReadsBack(name, uri, more + rest);
      NameReadsBack(name[n..], uri, rest);
      var front := PrintFront(name, uri, n);
      assert PrintName(name, uri).out == front + more;
      hide PrintName;
      ThreeParts(front, more, rest);
      TwoParts(name, n);
    }
  }

  lemma ThreeParts(a: string, b: string, c: string)
    ensures a + b + c == a + (b + c)
  {
  }

  lemma TwoParts(s: string, n: nat)
    requires n <= |s|
    ensures s[..n] + s[n..] == s
  {
  }

  predicate Indexed(tokens: seq<PointerToken>) {
    forall i :: 0 <= i < |tokens| ==> tokens[i].index == IndexOf(tokens[i].name)
  }

  /** Tokens that have been printed are read back as they were. */
  lemma {:induction false} TokensReadBack(tokens: seq<PointerToken>, uri: bool)
    requires Indexed(tokens) && PrintTokens(tokens, uri).Whole?
    ensures ParseTokens(PrintTokens(tokens, uri).out, uri) == Tokens(tokens)
    ensures PrintTokens(tokens, uri).out == "" || PrintTokens(tokens, uri).out[0] == '/'
    decreases |tokens|
  {
    hide PrintName, ParseName, IndexOf;
    if tokens != [] {
      TokensReadBack(tokens[1..], uri);
      var name, more := PrintName(tokens[0].name, uri).out, PrintTokens(tokens[1..], uri).out;
      NameReadsBack(tokens[0].name, uri, more);
      assert ("/" + name + more)[1..] == name + more;
      assert [tokens[0]] + tokens[1..] == tokens;
    }
  }

  /** What a pointer prints as a string, or as a URI fragment, is read back as the same pointer. */
  lemma PrintThenParse(tokens: seq<PointerToken>, uri: bool)
    requires Indexed(tokens) && Stringify(tokens, uri).Whole?
    ensures Parse(Stringify(tokens, uri).out) == Tokens(tokens)
  {
    hide ParseTokens, PrintTokens;
    TokensReadBack(tokens, uri);
    if uri { assert ("#" + PrintTokens(tokens, uri).out)[1..] == PrintTokens(tokens, uri).out; }
  }

  /** The string form can always be printed. */
  lemma {:induction false} StringFormPrints(tokens: seq<PointerToken>)
    ensures PrintTokens(tokens, false).Whole?
  {
    if tokens != [] {
      NamePrints(tokens[0].name);
      StringFormPrints(tokens[1..]);
    }
  }

  lemma {:induction false} NamePrints(name: string)
    ensures PrintName(name, false).Whole?
    decreases |name|
  {
    if name != "" { NamePrints(name[1..]); }
  }

  /** The fragment form can be printed exactly for a name that is well-formed where it is to be percent-encoded; so it
      can for every well-formed name. */
  lemma {:induction false} WellFormedNamePrints(name: string)
    requires ToUtf16(name).Whole?
    ensures PrintName(name, true).Whole?
    decreases |name|
  {
    hide Units, CodePoint;
    if name != "" {
      SequenceFits(name);
      if FrontSize(name, true) != SequenceLength(name) { AsciiIsOne(name); }
      WellFormedNamePrints(name[FrontSize(name, true)..]);
    }
  }

  lemma AsciiIsOne(name: string)
    requires name != "" && SequenceLength(name) > 0 && (name[0] == '~' || name[0] == '/' || !NeedPercentEncode(name[0]))
    ensures SequenceLength(name) == 1
  {
  }

  /** Every pointer that has been read prints in its string form and is read back from it. */
  lemma ParsePrintParse(s: string)
    ensures Parse(s).Tokens? ==>
      Stringify(Parse(s).tokens, false).Whole? && Parse(Stringify(Parse(s).tokens, false).out) == Parse(s)
  {
    hide PrintTokens, ParseTokens;
    if Parse(s).Tokens? {
      var body := if Fragment(s) then s[1..] else s;
      ParsedAreIndexed(body, Fragment(s));
      StringFormPrints(Parse(s).tokens);
      PrintThenParse(Parse(s).tokens, false);
    }
  }

  lemma {:induction false} ParsedAreIndexed(s: string, uri: bool)
    ensures ParseTokens(s, uri).Tokens? ==> Indexed(ParseTokens(s, uri).tokens)
    decreases |s|
  {
    hide ParseName, IndexOf;
    if s != "" && s[0] == '/' && ParseName(s[1..], uri).Name? {
      ParsedAreIndexed(ParseName(s[1..], uri).rest, uri);
    }
  }

  // ---- What an index stands for

  function DigitOf(ch: char): nat {
    if DigitChar(ch) then ch as nat - '0' as nat else 0
  }

  function Value(name: string, n: nat): nat {
    if name == "" then n
    else Value(name[1..], n * 10 + DigitOf(name[0]))
  }

  lemma {:induction false} ValueGrows(name: string, n: nat)
    ensures n <= Value(name, n)
    decreases |name|
  {
    if name != "" { ValueGrows(name[1..], n * 10 + DigitOf(name[0])); }
  }

  lemma FirstDigit(name: string)
    requires name != "" && OnlyDigits(name)
    ensures OnlyDigits(name[1..]) && name[0] as nat == '0' as nat + DigitOf(name[0]) && DigitOf(name[0]) <= 9
  {
  }

  lemma SmallStep(n: nat, d: nat)
    requires n * 10 + d < 0x1_0000_0000
    ensures (n * 10 + d) % 0x1_0000_0000 == n * 10 + d
  {
  }

  /** Digits that fit in 32 bits are accumulated to their value. */
  lemma {:induction false} SmallIndexIsValue(name: string, n: nat)
    requires OnlyDigits(name) && Value(name, n) < 0x1_0000_0000
    ensures Accumulate(name, n) == Value(name, n)
    decreases |name|
  {
    if name != "" {
      hide OnlyDigits;
      FirstDigit(name);
      var m := n * 10 + DigitOf(name[0]);
      ValueGrows(name[1..], m);
      SmallIndexIsValue(name[1..], m);
      SmallStep(n, DigitOf(name[0]));
    }
  }

  const WORD := 0x1_0000_0000

  /** Whether some digit makes the value, taken in 32 bits, smaller than it was without. */
  predicate Decreases(name: string, n: nat)
    decreases |name|
  {
    name != "" &&
    var m := n * 10 + DigitOf(name[0]);
    m % WORD < n % WORD || Decreases(name[1..], m)
  }

  lemma WrapStep(a: nat, d: nat)
    ensures (a % WORD * 10 + d) % WORD == (a * 10 + d) % WORD
  {
    assert a == a / WORD * WORD + a % WORD;
    assert a * 10 + d == a / WORD * 10 * WORD + (a % WORD * 10 + d);
  }

  /** Digits are accumulated to their value in 32 bits, unless a further digit makes that smaller. */
  lemma {:induction false} AccumulateExactly(name: string, n: nat)
    requires OnlyDigits(name)
    ensures Accumulate(name, n % WORD) == if Decreases(name, n) then INVALID_INDEX else Value(name, n) % WORD
    decreases |name|
  {
    if name != "" {
      WrapStep(n, DigitOf(name[0]));
      AccumulateExactly(name[1..], n * 10 + DigitOf(name[0]));
    }
  }

  /** An index is the value of its digits if that fits in 32 bits; a greater value is refused, as it should be,
      exactly if some digit makes the value in 32 bits smaller (or it ends as the invalid index by chance). */
  lemma IndexIsRight(name: string)
    requires name != "" && OnlyDigits(name) && !(|name| > 1 && name[0] == '0')
    ensures Value(name, 0) < WORD ==> IndexOf(name) == Value(name, 0)
    ensures Value(name, 0) >= WORD ==>
      (IndexOf(name) == INVALID_INDEX <==> Decreases(name, 0) || Value(name, 0) % WORD == INVALID_INDEX)
  {
    hide Decreases;
    AccumulateExactly(name, 0);
    if Value(name, 0) < WORD { SmallIndexIsValue(name, 0); }
  }

  /** A name without escapes is read as it stands. */
  lemma {:induction false} PlainName(name: string)
    requires forall i :: 0 <= i < |name| ==> name[i] != '/' && name[i] != '~'
    ensures ParseName(name, false) == Name(name, "")
    decreases |name|
  {
    if name != "" {
      PlainName(name[1..]);
      assert [name[0]] + name[1..] == name;
    }
  }

  /** A pointer of one token. */
  lemma OneToken(name: string)
    requires forall i :: 0 <= i < |name| ==> name[i] != '/' && name[i] != '~'
    ensures Parse("/" + name) == Tokens([TokenOf(name)])
  {
    hide ParseName, TokenOf;
    PlainName(name);
    var s := "/" + name;
    assert s[1..] == name && s[0] == '/';
    assert ParseTokens("", false) == Tokens([]);
    assert [TokenOf(name)] + [] == [TokenOf(name)];
  }

  /** Some longer digits pass the test for overflow with another value. */
  lemma LongIndexIsMistaken()
    ensures Parse("/5000000000") == Tokens([PointerToken("5000000000", 705032704)])
  {
    hide Parse, IndexOf;
    LongIndex();
    assert "/" + "5000000000" == "/5000000000";
    OneToken("5000000000");
  }

  lemma LongIndex()
    ensures IndexOf("5000000000") == 705032704
  {
    var s := "5000000000";
    assert OnlyDigits(s) && s[0] == '5';
    assert s[1..] == "000000000";
    assert Accumulate(s, 0) == Accumulate(s[1..], 5);
    hide Accumulate;
    TenTimes("000000000", "00000000", 5);
    TenTimes("00000000", "0000000", 50);
    TenTimes("0000000", "000000", 500);
    TenTimes("000000", "00000", 5000);
    TenTimes("00000", "0000", 50000);
    TenTimes("0000", "000", 500000);
    TenTimes("000", "00", 5000000);
    TenTimes("00", "0", 50000000);
    LastZero();
  }

  lemma TenTimes(z: string, rest: string, n: nat)
    requires n * 10 < 0x1_0000_0000 && |z| > 0 && z[0] == '0' && rest == z[1..]
    ensures Accumulate(z, n) == Accumulate(rest, n * 10)
  {
  }

  lemma LastZero()
    ensures Accumulate("0", 500000000) == 705032704
  {
    assert "0"[1..] == "";
  }

  // ---- Reading into the name buffer

  /** A token whose name is a part of the name buffer. */
  datatype RawToken = RawToken(start: nat, length: nat, index: nat)

  predicate Holds(b: string, raw: RawToken, token: PointerToken, end: nat) {
    && raw.start + raw.length < end <= |b| && b[raw.start..raw.start + raw.length] == token.name
    && b[raw.start + raw.length] == '\0' && raw.index == token.index
  }

  predicate HoldsAll(b: string, raws: seq<RawToken>, tokens: seq<PointerToken>, end: nat) {
    |raws| == |tokens| && forall i :: 0 <= i < |raws| ==> Holds(b, raws[i], tokens[i], end)
  }

  /** Names stay in the buffer when only what follows them is written. */
  lemma StillHolds(b: string, b': string, raws: seq<RawToken>, tokens: seq<PointerToken>, end: nat, end': nat)
    requires HoldsAll(b, raws, tokens, end) && |b| == |b'| && end <= end' <= |b|
    requires forall i :: 0 <= i < end ==> b[i] == b'[i]
    ensures HoldsAll(b', raws, tokens, end')
  {
    forall i | 0 <= i < |raws| ensures Holds(b', raws[i], tokens[i], end') {
      assert Holds(b, raws[i], tokens[i], end);
      var from, to := raws[i].start, raws[i].start + raws[i].length;
      assert b'[from..to] == b[from..to];
    }
  }

  /** How many bytes the validation of a sequence takes, by its first byte, whether or not it succeeds. */
  function Takes(b: nat): (n: nat)
    ensures 1 <= n <= 4
  {
    if 0xC2 <= b <= 0xDF then 2 else if 0xE0 <= b <= 0xEF then 3 else if 0xF0 <= b <= 0xF4 then 4 else 1
  }

  lemma TakesEnough(bytes: string)
    ensures SequenceLength(bytes) > 0 ==> SequenceLength(bytes) == Takes(Byte(bytes, 0))
  {
  }

  lemma TripletsStep(s: string, k: nat)
    requires 3 * k <= |s| && k < 4 && |Triplets(s, 4)| >= k
    ensures |Triplets(s, 4)| > k <==> Triplet(s[3 * k..])
    ensures Triplet(s[3 * k..]) ==> Triplets(s, 4)[k] == TripletByte(s[3 * k..])
  {
    hide Triplet, TripletByte;
    TripletsAt(s, 4, k);
  }

  lemma {:induction false} TripletsAt(s: string, limit: nat, k: nat)
    requires 3 * k <= |s| && k < limit && |Triplets(s, limit)| >= k
    ensures |Triplets(s, limit)| > k <==> Triplet(s[3 * k..])
    ensures Triplet(s[3 * k..]) ==> Triplets(s, limit)[k] == TripletByte(s[3 * k..])
    decreases k
  {
    hide TripletByte;
    if k > 0 {
      TripletsAt(s[3..], limit - 1, k - 1);
      assert s[3..][3 * (k - 1)..] == s[3 * k..];
    } else {
      assert s[0..] == s;
    }
  }

  // The source need not be terminated, yet some of its readers look at the character where it ends.

  /** How far one step of the decoding stream moves on: past a triplet, or to the character that breaks it. */
  function TakeEnd(s: string): (n: nat)
    ensures n <= |s|
    ensures n == 3 <==> Triplet(s)
  {
    if |s| < 3 || s[0] != '%' then 0 else if !HexChar(s[1]) then 1 else if !HexChar(s[2]) then 2 else 3
  }

  /** Whether some of so many steps begins where the text ends. */
  predicate RunsOut(s: string, steps: nat)
    decreases steps
  {
    steps > 0 && (s == "" || RunsOut(s[TakeEnd(s)..], steps - 1))
  }

  /** Whether decoding the sequence at the front, with all the bytes its first one asks for, reads where the text
      ends. */
  predicate SequenceRunsOut(s: string) {
    RunsOut(s, if Triplet(s) then Takes(TripletByte(s) as nat) else 1)
  }

  predicate FrontRunsOut(s: string) {
    StartsWith(s, '%') && SequenceRunsOut(s)
  }

  predicate NameRunsOut(s: string)
    decreases |s|
  {
    && s != "" && s[0] != '/'
    && (FrontRunsOut(s) || (Front(s, true).Name? && NameRunsOut(Front(s, true).rest)))
  }

  predicate TokensRunOut(s: string)
    decreases |s|
  {
    && s != "" && s[0] == '/'
    && (NameRunsOut(s[1..]) || (ParseName(s[1..], true).Name? && TokensRunOut(ParseName(s[1..], true).rest)))
  }

  /** Whether reading a pointer reads the character behind the end of its source: at once if the source is empty, and
      in a URI fragment where a sequence is cut short. */
  predicate ReadsBeyond(source: string) {
    source == "" || (Fragment(source) && TokensRunOut(source[1..]))
  }

  /** A sequence that is good is not cut short. */
  lemma GoodIsWhole(s: string)
    requires FrontRunsOut(s)
    ensures Front(s, true) == BadName(InvalidPercentEncoding)
  {
    hide Triplet, TripletByte, SequenceLength, Takes;
    var bytes := Triplets(s, 4);
    var n := SequenceLength(bytes);
    if 0 < n <= |bytes| {
      TakesEnough(bytes);
      FirstTaken(s);
      WholeTriplets(s, 4, n);
    }
  }

  lemma FirstTaken(s: string)
    requires Triplets(s, 4) != ""
    ensures Triplet(s) && Byte(Triplets(s, 4), 0) == TripletByte(s) as nat
  {
  }

  lemma {:induction false} WholeTriplets(s: string, limit: nat, n: nat)
    requires n <= |Triplets(s, limit)|
    ensures !RunsOut(s, n)
    decreases n
  {
    if n > 0 { WholeTriplets(s[3..], limit - 1, n - 1); }
  }

  /** Nothing behind its end is read of a source that is read with success, unless it is empty. */
  lemma {:induction false} NameIsWhole(s: string)
    requires NameRunsOut(s)
    ensures ParseName(s, true) == BadName(InvalidPercentEncoding)
    decreases |s|
  {
    hide Front;
    if FrontRunsOut(s) { GoodIsWhole(s); } else { NameIsWhole(Front(s, true).rest); }
  }

  lemma {:induction false} TokensAreWhole(s: string)
    requires TokensRunOut(s)
    ensures ParseTokens(s, true) == Invalid(InvalidPercentEncoding)
    decreases |s|
  {
    hide ParseName;
    if NameRunsOut(s[1..]) { NameIsWhole(s[1..]); } else { TokensAreWhole(ParseName(s[1..], true).rest); }
  }

  lemma BeyondIsRefused(source: string)
    requires ReadsBeyond(source) && source != ""
    ensures Parse(source) == Invalid(InvalidPercentEncoding)
  {
    TokensAreWhole(source[1..]);
  }

  /** The first byte asks for a second, of which nothing is there. */
  lemma CutShortReadsBeyond()
    ensures ReadsBeyond("") && ReadsBeyond("#/%C3")
  {
    var s := "%C3";
    assert Triplet(s) && TripletByte(s) as nat == 0xC3;
    assert s[3..] == "" && RunsOut(s, 2);
    assert "#/%C3"[1..] == "/%C3" && "/%C3"[1..] == s;
  }

  /** `Take`: the byte of a triplet, or zero; what stands behind the end is no part of the source. */
  method Take(source: string, src: nat) returns (b: char, src': nat, valid: bool, beyond: bool)
    requires src <= |source|
    ensures beyond <==> src == |source|
    ensures src' == src + TakeEnd(source[src..])
    ensures valid <==> Triplet(source[src..])
    ensures b == if valid then TripletByte(source[src..]) else '\0'
  {
    b, src', valid, beyond := '\0', src, false, src == |source|;
    if beyond || source[src] != '%' || src + 3 > |source| { return; }
    ghost var s := source[src..];
    assert s[0] == '%' && s[1] == source[src + 1] && s[2] == source[src + 2];
    src' := src + 1;
    var c, j := 0, 0;
    while j < 2
      invariant 0 <= j <= 2 && src' == src + 1 + j
      invariant forall k :: 1 <= k <= j ==> HexChar(s[k])
      invariant c == if j == 0 then 0 else if j == 1 then HexValue(s[1]) else HexValue(s[1]) * 16 + HexValue(s[2])
    {
      var h := source[src'];
      if !HexChar(h) { return; }
      c := c * 16 + HexValue(h);
      src', j := src' + 1, j + 1;
    }
    b, valid := c as char, true;
  }

  /** The first step, and what it says of the bytes and of the steps that follow. */
  lemma FirstStep(s: string)
    ensures var bytes := Triplets(s, 4);
      && (bytes != "" <==> Triplet(s)) && (bytes != "" ==> bytes[0] == TripletByte(s) && |s| >= 3)
      && (SequenceLength(bytes) > 0 ==> bytes != "" && SequenceLength(bytes) == Takes(TripletByte(s) as nat))
      && (bytes != "" ==> Byte(bytes, 0) == TripletByte(s) as nat)
      && (SequenceRunsOut(s)
          <==> s == "" || RunsOut(s[TakeEnd(s)..], (if Triplet(s) then Takes(TripletByte(s) as nat) else 1) - 1))
    ensures Takes(0) == 1 && TakeEnd(s) <= |s| && (Triplet(s) ==> TakeEnd(s) == 3)
  {
    hide TripletByte;
    TakesEnough(Triplets(s, 4));
  }

  lemma OneStep(s: string, steps: nat)
    requires steps > 0
    ensures RunsOut(s, steps) <==> s == "" || RunsOut(s[TakeEnd(s)..], steps - 1)
    ensures TakeEnd(s) <= |s| && (Triplet(s) ==> TakeEnd(s) == 3)
  {
  }

  lemma NoSteps(s: string)
    ensures !RunsOut(s, 0)
  {
  }

  /** The bytes behind the first, as many as that asks for, a zero for what is no triplet. */
  method DecodeRest(source: string, i: nat, buffer: array<char>, name: nat, takes: nat)
    returns (beyond: bool, valid: bool)
    requires 1 <= takes <= 4 && i + 3 <= |source| && name + 4 <= buffer.Length
    requires var bytes := Triplets(source[i..], 4); bytes != "" && buffer[name] == bytes[0]
    modifies buffer
    ensures beyond <==> RunsOut(source[i + 3..], takes - 1)
    ensures var bytes := Triplets(source[i..], 4);
      valid <==> takes <= |bytes| && i + 3 * takes <= |source| && buffer[name..name + takes] == bytes[..takes]
    ensures takes <= |Triplets(source[i..], 4)| ==> valid
    ensures forall j :: 0 <= j <= name ==> buffer[j] == old(buffer[j])
  {
    hide Triplets, Triplet, TripletByte, RunsOut, TakeEnd;
    ghost var s := source[i..];
    ghost var bytes := Triplets(s, 4);
    var k, src := 1, i + 3;
    valid, beyond := true, false;
    while k < takes
      invariant 1 <= k <= takes && i <= src <= |source|
      invariant beyond || RunsOut(source[src..], takes - k) <==> RunsOut(source[i + 3..], takes - 1)
      invariant valid ==> k <= |bytes| && 3 * k <= |s| && src == i + 3 * k
      invariant valid ==> forall j :: 0 <= j < k ==> buffer[name + j] == bytes[j]
      invariant !valid ==> k > |bytes|
      invariant forall j :: 0 <= j <= name ==> buffer[j] == old(buffer[j])
    {
      if valid { TripletsStep(s, k); assert source[src..] == s[3 * k..]; }
      ghost var rest := source[src..];
      OneStep(rest, takes - k);
      var c, next, more, atEnd := Take(source, src);
      assert source[next..] == rest[TakeEnd(rest)..];
      buffer[name + k] := c;
      src, valid, beyond, k := next, valid && more, beyond || atEnd, k + 1;
    }
    NoSteps(source[src..]);
  }

  /** Percent-encoded bytes are decoded into the name buffer as the validation of one sequence takes them, a zero for
      what is no triplet; the bytes written stay within the buffer even when the sequence turns out to be broken. */
  method DecodePercent(source: string, i: nat, buffer: array<char>, name: nat) returns (beyond: bool, ok: bool, n: nat)
    requires name + 2 <= i < |source| && buffer.Length == |source|
    modifies buffer
    ensures beyond <==> SequenceRunsOut(source[i..])
    ensures var bytes := Triplets(source[i..], 4);
      && (ok <==> 0 < SequenceLength(bytes) <= |bytes|)
      && (ok ==> n == SequenceLength(bytes) && name + n < i + 3 * n <= |source| && buffer[name..name + n] == bytes[..n])
    ensures forall j :: 0 <= j < name ==> buffer[j] == old(buffer[j])
  {
    hide Triplets, Triplet, TripletByte, SequenceLength, RunsOut, TakeEnd, Takes, Byte, SequenceRunsOut;
    ghost var s := source[i..];
    ghost var bytes := Triplets(s, 4);
    SequenceFits(bytes);
    FirstStep(s);
    NoSteps(s[TakeEnd(s)..]);
    var b, src, valid;
    b, src, valid, beyond := Take(source, i);
    buffer[name] := b;
    n := Takes(b as nat);
    if valid {
      assert s[3..] == source[i + 3..];
      beyond, valid := DecodeRest(source, i, buffer, name, n);
      if valid { BytesOf(bytes, n); }
    }
    ok := valid && SequenceLength(buffer[name..name + n]) > 0;
  }

  /** Whether a sequence is well-formed depends on the bytes its first byte asks for. */
  lemma BytesOf(bytes: string, k: nat)
    requires 0 < k <= |bytes| && k == Takes(Byte(bytes, 0))
    ensures SequenceLength(bytes[..k]) > 0 <==> SequenceLength(bytes) > 0
  {
  }

  function AfterText(text: string, r: Named): Named {
    match r
    case BadName(e) => BadName(e)
    case Name(more, rest) => Name(text + more, rest)
  }

  lemma TextTwice(a: string, b: string, r: Named)
    ensures AfterText(a, AfterText(b, r)) == AfterText(a + b, r)
    ensures AfterText("", r) == r
  {
    if r.Name? { assert a + (b + r.name) == a + b + r.name && "" + r.name == r.name; }
  }

  /** A character that may begin an escape is unescaped and written. */
  method PutUnescaped(source: string, c: char, i: nat, buffer: array<char>, name: nat)
    returns (ok: bool, i': nat)
    requires i <= |source| && buffer.Length == |source| && name < i
    modifies buffer
    ensures var r := Unescape(c, source[i..]);
      && (ok <==> r.Name?)
      && (!ok ==> r == BadName(InvalidEscape))
      && (ok ==> i <= i' <= |source| && source[i'..] == r.rest && buffer[name..name + 1] == r.name)
    ensures forall j :: 0 <= j < buffer.Length && j != name ==> buffer[j] == old(buffer[j])
  {
    ghost var rest := source[i..];
    i' := i;
    var ch := c;
    if c == '~' {
      if i == |source| { return false, i; }
      assert rest[0] == source[i] && rest[1..] == source[i + 1..];
      if source[i] == '0' { ch := '~'; }
      else if source[i] == '1' { ch := '/'; }
      else { return false, i; }
      i' := i + 1;
    }
    buffer[name] := ch;
    assert buffer[name..name + 1] == [ch];
    ok := true;
  }

  /** One step of the loop over a name: the front of what is left is written to the buffer. */
  method ReadFront(source: string, uri: bool, i: nat, buffer: array<char>, name: nat)
    returns (beyond: bool, ok: bool, error: PointerError, i': nat, name': nat)
    requires i < |source| && buffer.Length == |source| && name + (if uri then 2 else 1) <= i
    modifies buffer
    ensures beyond <==> uri && FrontRunsOut(source[i..])
    ensures ok <==> Front(source[i..], uri).Name?
    ensures !ok ==> error == Front(source[i..], uri).error
    ensures ok ==> i < i' <= |source| && source[i'..] == Front(source[i..], uri).rest
    ensures ok ==> name <= name' && name' + (if uri then 2 else 1) <= i'
    ensures ok ==> buffer[name..name'] == Front(source[i..], uri).name
    ensures forall j :: 0 <= j < name ==> buffer[j] == old(buffer[j])
  {
    hide SequenceLength, Triplets, NeedPercentEncode, Unescape, SequenceRunsOut;
    ghost var s := source[i..];
    beyond, ok, error, i', name' := false, false, InvalidEscape, i + 1, name;
    var c := source[i];
    if uri && c == '%' {
      var n;
      beyond, ok, n := DecodePercent(source, i, buffer, name);
      if !ok { return beyond, false, InvalidPercentEncoding, i, name; }
      assert source[i + 3 * n..] == s[3 * n..];
      if n > 1 { return beyond, true, error, i + 3 * n, name + n; }
      assert buffer[name..name + 1][0] == buffer[name];
      c, i' := buffer[name], i + 3;
    } else if uri && NeedPercentEncode(c) {
      return false, false, MustPercentEncode, i, name;
    }
    assert s[i' - i..] == source[i'..];
    ok, i' := PutUnescaped(source, c, i', buffer, name);
    name' := name + 1;
  }

  lemma NameEnds(s: string, uri: bool)
    requires s == "" || s[0] == '/'
    ensures ParseName(s, uri) == Name("", s)
  {
  }

  lemma NameGoesOn(s: string, uri: bool)
    requires s != "" && s[0] != '/'
    ensures var r := Front(s, uri);
      ParseName(s, uri) == if r.Name? then AfterText(r.name, ParseName(r.rest, uri)) else r
  {
    hide Front;
  }

  /** A name, from behind its solidus on. */
  method ReadName(source: string, uri: bool, i: nat, buffer: array<char>, name: nat)
    returns (beyond: bool, ok: bool, error: PointerError, i': nat, name': nat)
    requires i <= |source| && buffer.Length == |source| && name + (if uri then 2 else 1) <= i
    modifies buffer
    ensures beyond <==> uri && NameRunsOut(source[i..])
    ensures ok <==> ParseName(source[i..], uri).Name?
    ensures !ok ==> error == ParseName(source[i..], uri).error
    ensures ok ==> i <= i' <= |source| && source[i'..] == ParseName(source[i..], uri).rest
    ensures ok ==> name <= name' && name' + (if uri then 2 else 1) <= i'
    ensures ok ==> buffer[name..name'] == ParseName(source[i..], uri).name
    ensures forall j :: 0 <= j < name ==> buffer[j] == old(buffer[j])
  {
    hide Front, ParseName, FrontRunsOut;
    ghost var s := source[i..];
    beyond, i', name', error := false, i, name, InvalidEscape;
    TextTwice("", "", ParseName(s, uri));
    assert buffer[name..name] == "";
    while i' < |source| && source[i'] != '/'
      invariant i <= i' <= |source| && name <= name' && name' + (if uri then 2 else 1) <= i'
      invariant ParseName(s, uri) == AfterText(buffer[name..name'], ParseName(source[i'..], uri))
      invariant beyond || (uri && NameRunsOut(source[i'..])) <==> uri && NameRunsOut(s)
      invariant forall j :: 0 <= j < name ==> buffer[j] == old(buffer[j])
      decreases |source| - i'
    {
      ghost var rest, before, from := source[i'..], buffer[name..name'], name';
      NameGoesOn(rest, uri);
      var atEnd;
      atEnd, ok, error, i', name' := ReadFront(source, uri, i', buffer, name');
      beyond := beyond || atEnd;
      if !ok { return; }
      assert buffer[name..from] == before;
      assert buffer[name..name'] == buffer[name..from] + buffer[from..name'];
      TextTwice(before, Front(rest, uri).name, ParseName(source[i'..], uri));
    }
    NameEnds(source[i'..], uri);
    assert buffer[name..name'] + "" == buffer[name..name'];
    ok := true;
  }

  function AfterTokens(done: seq<PointerToken>, r: Pointer): Pointer {
    match r
    case Invalid(e) => Invalid(e)
    case Tokens(more) => Tokens(done + more)
  }

  lemma TokensTwice(a: seq<PointerToken>, b: seq<PointerToken>, r: Pointer)
    ensures AfterTokens(a, AfterTokens(b, r)) == AfterTokens(a + b, r)
    ensures AfterTokens([], r) == r
  {
    if r.Tokens? { assert a + (b + r.tokens) == a + b + r.tokens && [] + r.tokens == r.tokens; }
  }

  lemma TokensGoOn(s: string, uri: bool)
    requires s != "" && s[0] == '/'
    ensures var r := ParseName(s[1..], uri);
      ParseTokens(s, uri) == if r.Name? then AfterTokens([TokenOf(r.name)], ParseTokens(r.rest, uri))
        else Invalid(r.error)
  {
    hide ParseName, TokenOf;
  }

  lemma TokenHeld(b: string, raw: RawToken, token: PointerToken, end: nat)
    requires raw.start + raw.length < end <= |b| && b[raw.start..raw.start + raw.length] == token.name
    requires b[raw.start + raw.length] == '\0' && raw.index == token.index
    ensures Holds(b, raw, token, end)
  {
  }

  lemma OneMoreHeld(b: string, raws: seq<RawToken>, done: seq<PointerToken>, raw: RawToken, token: PointerToken,
      end: nat)
    requires HoldsAll(b, raws, done, end) && Holds(b, raw, token, end)
    ensures HoldsAll(b, raws + [raw], done + [token], end)
  {
    hide Holds;
  }

  /** One token: its name, a zero behind it and its index. */
  method ReadToken(source: string, uri: bool, i: nat, buffer: array<char>, name: nat)
    returns (beyond: bool, ok: bool, error: PointerError, i': nat, name': nat, raw: RawToken)
    requires i < |source| && buffer.Length == |source| && name + (if uri then 1 else 0) <= i
    modifies buffer
    ensures beyond <==> uri && NameRunsOut(source[i..][1..])
    ensures ok <==> ParseName(source[i..][1..], uri).Name?
    ensures !ok ==> error == ParseName(source[i..][1..], uri).error
    ensures ok ==> i < i' <= |source| && source[i'..] == ParseName(source[i..][1..], uri).rest
    ensures ok ==> name < name' && name' + (if uri then 1 else 0) <= i'
    ensures ok ==> Holds(buffer[..], raw, TokenOf(ParseName(source[i..][1..], uri).name), name')
    ensures forall j :: 0 <= j < name ==> buffer[j] == old(buffer[j])
  {
    hide ParseName, Holds, IndexOf, NameRunsOut;
    assert source[i..][1..] == source[i + 1..];
    raw := RawToken(name, 0, 0);
    beyond, ok, error, i', name' := ReadName(source, uri, i + 1, buffer, name);
    if !ok { return; }
    ghost var text := buffer[name..name'];
    buffer[name'] := '\0';
    assert buffer[name..name'] == text;
    raw := RawToken(name, name' - name, IndexOf(buffer[name..name']));
    TokenHeld(buffer[..], raw, TokenOf(text), name' + 1);
    name' := name' + 1;
  }

  /** How a pointer begins. */
  lemma StartTokens(source: string)
    ensures var uri := Fragment(source);
      var whole := if uri then source[1..] else source;
      && Parse(source) == ParseTokens(whole, uri)
      && (whole != "" && whole[0] != '/' ==> Parse(source) == Invalid(TokenMustBeginWithSolidus))
    ensures forall uri :: ParseTokens("", uri) == Tokens([])
  {
  }

  lemma NothingHeld(b: string)
    ensures HoldsAll(b, [], [], 0)
  {
  }

  /** `Parse`: on success the tokens, with their names in the buffer, each with a zero after it; the buffer is never
      written past the length of the source, on any path. Whether the character behind the end is read, which belongs
      to the source only if it is terminated by a zero, is said beside the outcome; the outcome is that with a zero
      there. */
  method Read(source: string)
    returns (beyond: bool, ok: bool, error: PointerError, buffer: array<char>, raws: seq<RawToken>)
    ensures beyond <==> ReadsBeyond(source)
    ensures fresh(buffer) && buffer.Length == |source|
    ensures ok <==> Parse(source).Tokens?
    ensures !ok ==> error == Parse(source).error
    ensures ok ==> HoldsAll(buffer[..], raws, Parse(source).tokens, |source|)
  {
    hide ParseName, ParseTokens, HoldsAll, Holds, IndexOf, NameRunsOut;
    StartTokens(source);
    beyond := |source| == 0;
    buffer := new char[|source|](_ => '\0');
    var uri := |source| > 0 && source[0] == '#';
    var i := if uri then 1 else 0;
    ok, error, raws := false, TokenMustBeginWithSolidus, [];
    if i < |source| && source[i] != '/' { return; }
    ghost var done: seq<PointerToken> := [];
    ghost var whole := source[i..];
    assert !uri ==> whole == source;
    var name: nat := 0;
    TokensTwice([], [], ParseTokens(whole, uri));
    NothingHeld(buffer[..]);
    while i < |source|
      invariant i <= |source| && name + (if uri then 1 else 0) <= i && (i < |source| ==> source[i] == '/')
      invariant HoldsAll(buffer[..], raws, done, name)
      invariant ParseTokens(whole, uri) == AfterTokens(done, ParseTokens(source[i..], uri))
      invariant beyond || (uri && TokensRunOut(source[i..])) <==> ReadsBeyond(source)
      decreases |source| - i
    {
      ghost var rest, before, start := source[i..], buffer[..], name;
      TokensGoOn(rest, uri);
      var raw, atEnd;
      atEnd, ok, error, i, name, raw := ReadToken(source, uri, i, buffer, name);
      beyond := beyond || atEnd;
      if !ok { return; }
      ghost var token := TokenOf(ParseName(rest[1..], uri).name);
      StillHolds(before, buffer[..], raws, done, start, name);
      OneMoreHeld(buffer[..], raws, done, raw, token, name);
      TokensTwice(done, [token], ParseTokens(source[i..], uri));
      raws, done := raws + [raw], done + [token];
      ok := false;
    }
    StillHolds(buffer[..], buffer[..], raws, done, name, |source|);
    assert done + [] == done;
    ok := true;
  }
}
