/** Expanding character references in XML text: as a function of the text, and in place in the parse buffer. */
module XmlExpand {
  import opened JsonParserStep
  import opened JsonGrammar

  /** The character at a position of a zero-terminated text. */
  function At(s: string, i: nat): char {
    if i < |s| then s[i] else '\0'
  }

  /** The characters of text and of attribute values: all but the one that ends them, and zero. */
  predicate Inside(ch: char, stop: char) {
    ch != stop && ch != '\0'
  }

  // ---- References, by position

  /** The digits of both kinds of numeric reference, which include those above nine; 255 for any other character. */
  function Digit(ch: char): nat {
    if '0' <= ch <= '9' then ch as nat - '0' as nat
    else if 'A' <= ch <= 'F' then ch as nat - 'A' as nat + 10
    else if 'a' <= ch <= 'f' then ch as nat - 'a' as nat + 10
    else 255
  }

  /** The number of digits at the front. */
  function DigitCount(s: string): (n: nat)
    ensures n <= |s| && (n < |s| ==> Digit(s[n]) == 255)
    ensures forall i :: 0 <= i < n ==> Digit(s[i]) != 255
  {
    if s == "" || Digit(s[0]) == 255 then 0 else 1 + DigitCount(s[1..])
  }

  /** One more digit, in a 64-bit word. */
  function WithDigit(code: nat, base: nat, ch: char): nat {
    (code * base + Digit(ch)) % 0x1_0000_0000_0000_0000
  }

  /** The value of digits in a base. */
  function CodeOf(digits: string, base: nat): nat {
    if digits == "" then 0 else WithDigit(CodeOf(digits[..|digits| - 1], base), base, digits[|digits| - 1])
  }

  datatype Reference = Replaces(text: string, length: nat) | Copied | Broken

  function Numeric(s: string, start: nat, base: nat): Reference {
    var from := if start <= |s| then s[start..] else "";
    var n := DigitCount(from);
    var code := CodeOf(from[..n], base);
    if code >= 0x110000 || At(s, start + n) != ';' then Broken
    else Replaces(Utf8(code), start + n + 1)
  }

  predicate Begins(s: string, word: string) {
    word <= s
  }

  /** What stands at the front of a text: a reference and what replaces it, one that is broken, or a character to be
      copied. */
  function FrontReference(s: string): Reference {
    if Begins(s, "&amp;") then Replaces("&", 5)
    else if Begins(s, "&apos;") then Replaces("'", 6)
    else if Begins(s, "&quot;") then Replaces("\"", 6)
    else if Begins(s, "&gt;") then Replaces(">", 4)
    else if Begins(s, "&lt;") then Replaces("<", 4)
    else if Begins(s, "&#x") then Numeric(s, 3, 16)
    else if Begins(s, "&#") then Numeric(s, 2, 10)
    else Copied
  }

  datatype Expansion = Expanded(text: string, taken: nat) | Malformed

  function Before(text: string, taken: nat, r: Expansion): Expansion {
    match r
    case Malformed => Malformed
    case Expanded(more, n) => Expanded(text + more, taken + n)
  }

  /** The text up to the character that stops it, with its references expanded. */
  function Expand(s: string, stop: char): (r: Expansion)
    ensures r.Expanded? ==> r.taken <= |s|
    decreases |s|
  {
    if !Inside(At(s, 0), stop) then Expanded("", 0)
    else match FrontReference(s)
      case Broken => Malformed
      case Copied => Before([s[0]], 1, Expand(s[1..], stop))
      case Replaces(text, length) =>
        if length > |s| || length == 0 then Malformed else Before(text, length, Expand(s[length..], stop))
  }

  /** No code has more digits of sixteen than it was written with. */
  lemma {:induction false} FewDigitsSmallCode(digits: string, base: nat)
    requires |digits| <= 1 && forall i :: 0 <= i < |digits| ==> Digit(digits[i]) != 255
    ensures CodeOf(digits, base) < 16
  {
    if |digits| == 1 { assert digits[..0] == ""; }
  }

  /** A replacement is never longer than what it replaces, however many digits were written. */
  lemma NeverLonger(s: string)
    ensures match FrontReference(s)
      case Replaces(text, length) => 1 <= |text| < length <= |s|
      case _ => true
  {
    hide CodeOf, Utf8, DigitCount;
    if FrontReference(s).Replaces? {
      if Begins(s, "&#x") { NumericNeverLonger(s, 3, 16); }
      else if Begins(s, "&#") { NumericNeverLonger(s, 2, 10); }
    }
  }

  /** A code is encoded in no more bytes than its digits and what precedes them take. */
  lemma CodeFits(s: string, start: nat, base: nat)
    requires 2 <= start <= |s|
    ensures var n := DigitCount(s[start..]);
      1 <= |Utf8(CodeOf(s[start..][..n], base))| <= start + n
  {
    hide CodeOf, Utf8;
    var from := s[start..];
    var n := DigitCount(from);
    if n <= 1 { FewDigitsSmallCode(from[..n], base); }
    EncodeLength(CodeOf(from[..n], base));
  }

  lemma NumericNeverLonger(s: string, start: nat, base: nat)
    requires 2 <= start <= |s|
    ensures match Numeric(s, start, base)
      case Replaces(text, length) => 1 <= |text| < length <= |s|
      case _ => true
  {
    hide CodeOf, Utf8;
    CodeFits(s, start, base);
  }

  lemma EncodeLength(code: nat)
    ensures 1 <= |Utf8(code)| <= 4
    ensures code < 0x80 ==> |Utf8(code)| == 1
  {
  }

  // ---- The bytes of a numeric reference

  lemma Utf8Bytes(code: nat)
    requires code < 0x110000
    ensures code < 0x80 ==> Utf8(code) == [ByteChar(code)]
    ensures 0x80 <= code < 0x800 ==> Utf8(code) == [ByteChar(0xC0 + code / 0x40), ByteChar(0x80 + code % 0x40)]
    ensures 0x800 <= code < 0x10000 ==>
      Utf8(code) == [ByteChar(0xE0 + code / 0x40 / 0x40), ByteChar(0x80 + code / 0x40 % 0x40),
        ByteChar(0x80 + code % 0x40)]
    ensures 0x10000 <= code ==>
      Utf8(code) == [ByteChar(0xF0 + code / 0x40 / 0x40 / 0x40), ByteChar(0x80 + code / 0x40 / 0x40 % 0x40),
                     ByteChar(0x80 + code / 0x40 % 0x40), ByteChar(0x80 + code % 0x40)]
  {
    assert code / 0x40 / 0x40 == code / 0x1000 && code / 0x40 / 0x40 / 0x40 == code / 0x40000;
  }

  method InsertThree(a: array<char>, at: nat, code: nat) returns (end: nat)
    requires 0x800 <= code < 0x10000 && at + 3 <= a.Length
    modifies a
    ensures end == at + 3 && a[at..end] == Utf8(code)
    ensures forall i :: 0 <= i < a.Length && !(at <= i < end) ==> a[i] == old(a[i])
  {
    hide Utf8, ByteChar;
    Utf8Bytes(code);
    var c := code;
    a[at + 2] := ByteChar(0x80 + c % 0x40); c := c / 0x40;
    a[at + 1] := ByteChar(0x80 + c % 0x40); c := c / 0x40;
    a[at] := ByteChar(0xE0 + c);
    end := at + 3;
    assert a[at..end] == [a[at], a[at + 1], a[at + 2]];
  }

  method InsertFour(a: array<char>, at: nat, code: nat) returns (end: nat)
    requires 0x10000 <= code < 0x110000 && at + 4 <= a.Length
    modifies a
    ensures end == at + 4 && a[at..end] == Utf8(code)
    ensures forall i :: 0 <= i < a.Length && !(at <= i < end) ==> a[i] == old(a[i])
  {
    hide Utf8, ByteChar;
    Utf8Bytes(code);
    var c := code;
    a[at + 3] := ByteChar(0x80 + c % 0x40); c := c / 0x40;
    a[at + 2] := ByteChar(0x80 + c % 0x40); c := c / 0x40;
    a[at + 1] := ByteChar(0x80 + c % 0x40); c := c / 0x40;
    a[at] := ByteChar(0xF0 + c);
    end := at + 4;
    assert a[at..end] == [a[at], a[at + 1], a[at + 2], a[at + 3]];
  }

  /** `insert_coded_character`, at a place with room for it. */
  method InsertCoded(a: array<char>, at: nat, code: nat) returns (ok: bool, end: nat)
    requires code < 0x110000 ==> at + |Utf8(code)| <= a.Length
    modifies a
    ensures ok <==> code < 0x110000
    ensures ok ==> end == at + |Utf8(code)| && a[at..end] == Utf8(code)
    ensures forall i :: 0 <= i < a.Length && !(at <= i < at + |Utf8(code)|) ==> a[i] == old(a[i])
  {
    hide Utf8, ByteChar;
    ok, end := true, at;
    if code >= 0x110000 { return false, at; }
    Utf8Bytes(code);
    var c := code;
    if c < 0x80 {
      a[at] := ByteChar(c);
      end := at + 1;
    } else if c < 0x800 {
      a[at + 1] := ByteChar(0x80 + c % 0x40); c := c / 0x40;
      a[at] := ByteChar(0xC0 + c);
      end := at + 2;
      assert a[at..end] == [a[at], a[at + 1]];
    } else if c < 0x10000 {
      end := InsertThree(a, at, c);
    } else {
      end := InsertFour(a, at, c);
    }
  }

  // ---- In place

  /** The named references, read as the nested tests of the code read them; 0 if there is none. */
  method NamedReference(a: array<char>, src: nat, ghost z: nat) returns (ch: char, length: nat)
    requires src <= z < a.Length && a[z] == '\0' && a[src] == '&'
    ensures length > 0 ==> FrontReference(a[src..]) == Replaces([ch], length) && !Begins(a[src..], "&#")
    ensures length == 0 ==> FrontReference(a[src..]) == Copied || Begins(a[src..], "&#")
  {
    hide Numeric;
    ghost var s := a[src..];
    ch, length := '&', 0;
    match a[src + 1]
    case 'a' =>
      if a[src + 2] == 'm' {
        if a[src + 3] == 'p' { if a[src + 4] == ';' { assert s[..5] == "&amp;"; return '&', 5; } }
      } else if a[src + 2] == 'p' {
        if a[src + 3] == 'o' {
          if a[src + 4] == 's' { if a[src + 5] == ';' { assert s[..6] == "&apos;"; return '\'', 6; } }
        }
      }
    case 'q' =>
      if a[src + 2] == 'u' {
        if a[src + 3] == 'o' {
          if a[src + 4] == 't' { if a[src + 5] == ';' { assert s[..6] == "&quot;"; return '"', 6; } }
        }
      }
    case 'g' =>
      if a[src + 2] == 't' { if a[src + 3] == ';' { assert s[..4] == "&gt;"; return '>', 4; } }
    case 'l' =>
      if a[src + 2] == 't' { if a[src + 3] == ';' { assert s[..4] == "&lt;"; return '<', 4; } }
    case _ =>
  }

  lemma CountDigit(s: string, k: nat)
    requires k < |s|
    ensures DigitCount(s[k..]) == if Digit(s[k]) == 255 then 0 else 1 + DigitCount(s[k + 1..])
  {
    assert s[k..][1..] == s[k + 1..];
  }

  /** The digits of a numeric reference: where they end and the code they spell. */
  method ReadDigits(a: array<char>, start: nat, base: nat, ghost z: nat) returns (src: nat, code: nat)
    requires start <= z < a.Length && a[z] == '\0'
    ensures src == start + DigitCount(a[start..]) <= z
    ensures code == CodeOf(a[start..][..DigitCount(a[start..])], base)
  {
    hide CodeOf, DigitCount, WithDigit, Digit;
    ghost var s := a[start..];
    assert Digit('\0') == 255 by { NoDigit(); }
    src, code := start, 0;
    NoCode(base);
    assert s[0..] == s;
    while Digit(a[src]) != 255
      invariant start <= src <= z && DigitCount(s) == src - start + DigitCount(s[src - start..])
      invariant code == CodeOf(s[..src - start], base)
      decreases z - src
    {
      CountDigit(s, src - start);
      code := WithDigit(code, base, a[src]);
      assert s[..src - start + 1] == s[..src - start] + [a[src]];
      OneMoreDigit(s[..src - start], a[src], base);
      src := src + 1;
    }
    CountDigit(s, src - start);
  }

  lemma NoDigit()
    ensures Digit('\0') == 255
  {
  }

  lemma NoCode(base: nat)
    ensures CodeOf("", base) == 0
  {
  }

  lemma OneMoreDigit(digits: string, ch: char, base: nat)
    ensures CodeOf(digits + [ch], base) == WithDigit(CodeOf(digits, base), base, ch)
  {
    assert (digits + [ch])[..|digits|] == digits;
  }

  /** What a numeric reference comes to, once its digits have been read as far as `k`. */
  function NumericOutcome(s: string, k: nat, code: nat): Reference {
    if code >= 0x110000 || At(s, k) != ';' then Broken else Replaces(Utf8(code), k + 1)
  }

  lemma NumericRead(s: string, start: nat, base: nat)
    requires start <= |s|
    ensures var n := DigitCount(s[start..]);
      Numeric(s, start, base) == NumericOutcome(s, start + n, CodeOf(s[start..][..n], base))
  {
    hide CodeOf, DigitCount, Utf8;
  }

  method ReadNumeric(a: array<char>, src: nat, ghost z: nat) returns (src': nat, code: nat)
    requires src <= z < a.Length && a[z] == '\0' && Begins(a[src..], "&#")
    ensures src + 2 <= src' <= z && src + |Utf8(code)| <= src'
    ensures FrontReference(a[src..]) == NumericOutcome(a[src..], src' - src, code)
  {
    hide CodeOf, DigitCount, Utf8, FrontReference, Numeric, NumericOutcome, Digit;
    ghost var s := a[src..];
    NumericFront(s);
    var start, base := 2, 10;
    if a[src + 2] == 'x' { start, base := 3, 16; }
    assert s[start..] == a[src + start..];
    CodeFits(s, start, base);
    NumericRead(s, start, base);
    src', code := ReadDigits(a, src + start, base, z);
  }

  /** A numeric reference is replaced where the text read so far ends; the place is never past what has been read. */
  method ExpandNumeric(a: array<char>, src: nat, dest: nat, ghost z: nat) returns (ok: bool, src': nat, dest': nat)
    requires dest <= src <= z < a.Length && a[z] == '\0' && Begins(a[src..], "&#")
    modifies a
    ensures match FrontReference(old(a[src..]))
      case Replaces(text, length) =>
        && ok && src' == src + length <= z && dest' == dest + |text| <= src' && a[dest..dest'] == text
      case _ => !ok
    ensures ok ==> forall i :: 0 <= i < a.Length && !(dest <= i < dest') ==> a[i] == old(a[i])
  {
    hide Utf8, FrontReference;
    ghost var s := a[src..];
    var code;
    src', code := ReadNumeric(a, src, z);
    ok, dest' := InsertCoded(a, dest, code);
    if !ok { return; }
    assert a[src'] == s[src' - src];
    if a[src'] == ';' {
      src' := src' + 1;
    } else {
      ok := false;
    }
  }

  /** Which of the two kinds a numeric reference is. */
  lemma NumericFront(s: string)
    requires Begins(s, "&#")
    ensures FrontReference(s) == if At(s, 2) == 'x' then Numeric(s, 3, 16) else Numeric(s, 2, 10)
    ensures s[0] == '&' && s[1] == '#'
  {
    hide Numeric;
    assert s[..2] == "&#";
    assert At(s, 2) == 'x' ==> s[..3] == "&#x";
    assert Begins(s, "&#x") ==> At(s, 2) == 'x';
  }

  lemma BeforeTwice(a: string, m: nat, b: string, n: nat, r: Expansion)
    ensures Before(a, m, Before(b, n, r)) == Before(a + b, m + n, r)
  {
    if r.Expanded? { assert a + (b + r.text) == a + b + r.text; }
  }

  /** One more step of an expansion of which `read` has been read and `done` written. */
  lemma ExpandStep(s: string, read: nat, done: string, stop: char)
    requires read < |s| && Inside(s[read], stop)
    requires Expand(s, stop) == Before(done, read, Expand(s[read..], stop))
    ensures match FrontReference(s[read..])
      case Broken => Expand(s, stop) == Malformed
      case Copied => Expand(s, stop) == Before(done + [s[read]], read + 1, Expand(s[read + 1..], stop))
      case Replaces(text, length) =>
        read + length <= |s| && Expand(s, stop) == Before(done + text, read + length, Expand(s[read + length..], stop))
  {
    hide FrontReference;
    var rest := s[read..];
    NeverLonger(rest);
    match FrontReference(rest)
    case Broken =>
    case Copied =>
      assert rest[1..] == s[read + 1..];
      BeforeTwice(done, read, [s[read]], 1, Expand(s[read + 1..], stop));
    case Replaces(text, length) =>
      assert rest[length..] == s[read + length..];
      BeforeTwice(done, read, text, length, Expand(s[read + length..], stop));
  }

  lemma CopiedUnlessAmpersand(s: string)
    requires s != "" && s[0] != '&'
    ensures FrontReference(s) == Copied
  {
  }

  /** What the loop has done of the expansion of `s`, which stood in the buffer from `text` on. */
  ghost predicate Progress(a: array<char>, s: string, text: nat, dest: nat, src: nat, z: nat, stop: char)
    reads a
  {
    && text <= dest <= src <= z < a.Length && |s| == a.Length - text && a[z] == '\0'
    && a[src..] == s[src - text..]
    && Expand(s, stop) == Before(a[text..dest], src - text, Expand(s[src - text..], stop))
  }

  /** One character for the next `n`. */
  method PutOne(a: array<char>, ghost s: string, ghost text: nat, src: nat, dest: nat, n: nat, ch: char, ghost z: nat,
      stop: char)
    returns (src': nat, dest': nat)
    requires Progress(a, s, text, dest, src, z, stop) && 0 < n && src + n <= z
    requires Expand(s, stop) == Before(a[text..dest] + [ch], src + n - text, Expand(s[src + n - text..], stop))
    modifies a
    ensures src' == src + n && Progress(a, s, text, dest', src', z, stop)
    ensures forall i :: 0 <= i < text ==> a[i] == old(a[i])
  {
    hide Expand, Before;
    ghost var done := a[text..dest];
    ghost var suffix := a[src..];
    a[dest] := ch;
    dest', src' := dest + 1, src + n;
    assert a[text..dest'] == done + [ch];
    assert a[src'..] == suffix[n..] == s[src' - text..];
  }

  method PutNumeric(a: array<char>, ghost s: string, ghost text: nat, src: nat, dest: nat, ghost z: nat, stop: char)
    returns (ok: bool, src': nat, dest': nat)
    requires Progress(a, s, text, dest, src, z, stop) && Inside(a[src], stop) && Begins(a[src..], "&#")
    modifies a
    ensures !ok ==> Expand(s, stop) == Malformed
    ensures ok ==> src < src' && Progress(a, s, text, dest', src', z, stop)
    ensures ok ==> forall i :: 0 <= i < text ==> a[i] == old(a[i])
  {
    hide FrontReference, Expand, Before;
    ghost var done := a[text..dest];
    ghost var suffix := a[src..];
    ExpandStep(s, src - text, done, stop);
    NumericIsNotCopied(suffix);
    NeverLonger(suffix);
    ok, src', dest' := ExpandNumeric(a, src, dest, z);
    if ok {
      assert a[text..dest'] == done + a[dest..dest'];
      assert a[src'..] == suffix[src' - src..] == s[src' - text..];
    }
  }

  /** One reference or one character. */
  method ExpandOne(a: array<char>, ghost s: string, ghost text: nat, src: nat, dest: nat, ghost z: nat, stop: char)
    returns (ok: bool, src': nat, dest': nat)
    requires Progress(a, s, text, dest, src, z, stop) && Inside(a[src], stop)
    modifies a
    ensures !ok ==> Expand(s, stop) == Malformed
    ensures ok ==> src < src' && Progress(a, s, text, dest', src', z, stop)
    ensures ok ==> forall i :: 0 <= i < text ==> a[i] == old(a[i])
  {
    hide FrontReference, Expand, Before;
    ghost var suffix := a[src..];
    ExpandStep(s, src - text, a[text..dest], stop);
    ok := true;
    if a[src] == '&' {
      var ch, length := NamedReference(a, src, z);
      if length > 0 {
        NotPastEnd(a, src, length, z);
        src', dest' := PutOne(a, s, text, src, dest, length, ch, z, stop);
        return;
      }
      if a[src + 1] == '#' {
        assert Begins(suffix, "&#") by { assert suffix[..2] == "&#"; }
        ok, src', dest' := PutNumeric(a, s, text, src, dest, z, stop);
        return;
      }
      assert !Begins(suffix, "&#") by { if Begins(suffix, "&#") { NumericFront(suffix); } }
    } else {
      CopiedUnlessAmpersand(suffix);
    }
    src', dest' := PutOne(a, s, text, src, dest, 1, a[src], z, stop);
  }

  lemma NumericIsNotCopied(s: string)
    requires Begins(s, "&#")
    ensures FrontReference(s) != Copied
  {
  }

  lemma NotPastEnd(a: array<char>, src: nat, length: nat, z: nat)
    requires src <= z < a.Length && a[z] == '\0' && a[src] == '&'
    requires FrontReference(a[src..]).Replaces? && FrontReference(a[src..]).length == length && !Begins(a[src..], "&#")
    ensures src + length <= z
  {
    hide Numeric;
    var s := a[src..];
    NamedHasNoZero(s);
    assert s[z - src] == '\0';
  }

  lemma NamedHasNoZero(s: string)
    requires FrontReference(s).Replaces? && !Begins(s, "&#")
    ensures FrontReference(s).length <= |s|
    ensures forall i :: 0 <= i < FrontReference(s).length ==> s[i] != '\0'
  {
    hide Numeric;
    var n := FrontReference(s).length;
    var word := if Begins(s, "&amp;") then "&amp;" else if Begins(s, "&apos;") then "&apos;"
      else if Begins(s, "&quot;") then "&quot;"
      else if Begins(s, "&gt;") then "&gt;" else "&lt;";
    assert s[..n] == word;
    forall i | 0 <= i < n ensures s[i] != '\0' { assert s[i] == word[i]; }
  }

  /** The plain skip over characters that need no change. */
  method SkipPure(a: array<char>, text: nat, stop: char, ghost z: nat) returns (src: nat)
    requires text <= z < a.Length && a[z] == '\0'
    ensures Progress(a, a[text..], text, src, src, z, stop)
  {
    hide FrontReference, Expand;
    ghost var s := a[text..];
    assert s[0..] == s;
    BeforeNothing(Expand(s, stop));
    assert a[text..text] == "";
    src := text;
    while Inside(a[src], stop) && a[src] != '&'
      invariant Progress(a, s, text, src, src, z, stop)
      decreases z - src
    {
      ExpandStep(s, src - text, a[text..src], stop);
      CopiedUnlessAmpersand(s[src - text..]);
      assert a[text..src + 1] == a[text..src] + [a[src]];
      assert a[src + 1..] == s[src + 1 - text..];
      src := src + 1;
    }
  }

  /** `skip_and_expand_character_refs`: the buffer from `text` on then holds the expansion, which is never longer than
      what was read, and nothing outside it has changed. */
  method SkipAndExpand(a: array<char>, text: nat, stop: char, ghost z: nat) returns (ok: bool, text': nat, end: nat)
    requires text <= z < a.Length && a[z] == '\0'
    modifies a
    ensures match Expand(old(a[text..]), stop)
      case Malformed => !ok
      case Expanded(out, n) => ok && text <= end <= text' == text + n <= z && a[text..end] == out
    ensures ok ==> a[text'..] == old(a[text'..]) && !Inside(a[text'], stop)
    ensures ok ==> forall i :: 0 <= i < text ==> a[i] == old(a[i])
  {
    hide FrontReference, Expand;
    ghost var s := a[text..];
    var src := SkipPure(a, text, stop, z);
    var dest: nat := src;
    while Inside(a[src], stop)
      invariant 0 <= dest && 0 <= src && Progress(a, s, text, dest, src, z, stop)
      invariant forall i :: 0 <= i < text ==> a[i] == old(a[i])
      decreases z - src
    {
      ok, src, dest := ExpandOne(a, s, text, src, dest, z, stop);
      if !ok { return false, src, dest; }
    }
    ExpandStops(s[src - text..], stop);
    assert a[text..dest] + "" == a[text..dest];
    ok, text', end := true, src, dest;
  }

  lemma BeforeNothing(r: Expansion)
    ensures Before("", 0, r) == r
  {
    if r.Expanded? { assert "" + r.text == r.text; }
  }

  lemma ExpandStops(s: string, stop: char)
    requires s != "" && !Inside(s[0], stop)
    ensures Expand(s, stop) == Expanded("", 0)
  {
  }
}
