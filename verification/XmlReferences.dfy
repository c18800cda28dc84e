/** When a numeric character reference in XML text stands for the number written in it. */
module XmlReferences {
  import opened JsonGrammar
  import opened XmlExpand

  const WORD_LIMIT: int := 0x1_0000_0000_0000_0000

  /** The digits of a base. */
  predicate InBase(ch: char, base: nat) {
    Digit(ch) < base
  }

  function DigitsOf(s: string, base: nat): (n: nat)
    ensures n <= |s| && (n < |s| ==> !InBase(s[n], base))
    ensures forall i :: 0 <= i < n ==> InBase(s[i], base)
  {
    if s == "" || !InBase(s[0], base) then 0 else 1 + DigitsOf(s[1..], base)
  }

  /** The number that digits are written for, in no word. */
  function NumberIn(digits: string, base: nat): nat {
    if digits == "" then 0 else NumberIn(digits[..|digits| - 1], base) * base + Digit(digits[|digits| - 1])
  }

  function From(s: string, start: nat): string {
    if start <= |s| then s[start..] else ""
  }

  /** A numeric reference of section 4.1 of XML 1.0: at least one digit of its base and a semicolon; what it stands
      for is the code point of that number. */
  function ByNumber(s: string, start: nat, base: nat): Reference {
    var n := DigitsOf(From(s, start), base);
    var number := NumberIn(From(s, start)[..n], base);
    if n == 0 || At(s, start + n) != ';' || number >= 0x110000 then Broken
    else Replaces(Utf8(number), start + n + 1)
  }

  /** What is taken for a reference though it is none, or stands for another number: no digit before the semicolon, a
      digit that is not one of the base, or a number that a word does not hold, if what the word holds is a code
      point. */
  predicate Mistaken(s: string, start: nat, base: nat) {
    var from := From(s, start);
    var n := DigitCount(from);
    var number := NumberIn(from[..n], base);
    && At(s, start + n) == ';' && number % WORD_LIMIT < 0x110000
    && (n == 0 || DigitsOf(from, base) < n || number >= WORD_LIMIT)
  }

  lemma WrapDigit(a: nat, base: nat, d: nat)
    ensures (a % WORD_LIMIT * base + d) % WORD_LIMIT == (a * base + d) % WORD_LIMIT
  {
    var q, r := a / WORD_LIMIT, a % WORD_LIMIT;
    calc {
      a * base + d;
      (q * WORD_LIMIT + r) * base + d;
      { Distributes(q, r, base); }
      q * base * WORD_LIMIT + (r * base + d);
    }
    WholeWords(q * base, r * base + d);
  }

  lemma Distributes(q: nat, r: nat, base: nat)
    ensures (q * WORD_LIMIT + r) * base == q * base * WORD_LIMIT + r * base
  {
  }

  lemma WholeWords(q: nat, x: nat)
    ensures (q * WORD_LIMIT + x) % WORD_LIMIT == x % WORD_LIMIT
  {
  }

  /** The code is the number, taken in a word. */
  lemma {:induction false} CodeIsWrapped(digits: string, base: nat)
    ensures CodeOf(digits, base) == NumberIn(digits, base) % WORD_LIMIT
    decreases |digits|
  {
    if digits != "" {
      hide Digit;
      var rest := digits[..|digits| - 1];
      CodeIsWrapped(rest, base);
      WrapDigit(NumberIn(rest, base), base, Digit(digits[|digits| - 1]));
    }
  }

  /** The digits of the base come before the first that is not one of it. */
  lemma {:induction false} FewerDigits(s: string, base: nat)
    requires base <= 16
    ensures DigitsOf(s, base) <= DigitCount(s)
    ensures base == 16 ==> DigitsOf(s, base) == DigitCount(s)
    ensures DigitsOf(s, base) < DigitCount(s) ==> s[DigitsOf(s, base)] != ';'
    decreases |s|
  {
    if s != "" && InBase(s[0], base) { FewerDigits(s[1..], base); }
  }

  /** A numeric reference is read as it is written, whole and in bounds, if and only if it is not mistaken. */
  lemma ReadAsWritten(s: string, start: nat, base: nat)
    requires start <= |s| && (base == 10 || base == 16)
    ensures Numeric(s, start, base) == ByNumber(s, start, base) <==> !Mistaken(s, start, base)
  {
    hide CodeOf, NumberIn, DigitCount, DigitsOf, Utf8;
    var from := From(s, start);
    var n := DigitCount(from);
    FewerDigits(from, base);
    CodeIsWrapped(from[..n], base);
    if At(s, start + DigitsOf(from, base)) == ';' { assert DigitsOf(from, base) == n; }
    if DigitsOf(from, base) == n { SmallOrWrapped(NumberIn(from[..n], base)); }
  }

  lemma SmallOrWrapped(number: nat)
    ensures number < 0x110000 ==> number % WORD_LIMIT == number
    ensures number % WORD_LIMIT <= number
  {
  }

  /** What stands at the front of a text that begins a numeric reference. */
  lemma FrontAsWritten(s: string)
    requires Begins(s, "&#")
    ensures var hex := At(s, 2) == 'x';
      var start, base := if hex then 3 else 2, if hex then 16 else 10;
      FrontReference(s) == ByNumber(s, start, base) <==> !Mistaken(s, start, base)
  {
    hide Numeric, ByNumber, Mistaken;
    NumericFront(s);
    ReadAsWritten(s, if At(s, 2) == 'x' then 3 else 2, if At(s, 2) == 'x' then 16 else 10);
  }

  // ---- Inputs

  lemma {:induction false} CountsAll(digits: string, base: nat)
    requires base <= 16 && forall i :: 0 <= i < |digits| ==> InBase(digits[i], base)
    ensures DigitCount(digits + ";") == DigitsOf(digits + ";", base) == |digits|
    decreases |digits|
  {
    if digits == "" {
      assert digits + ";" == ";";
    } else {
      assert (digits + ";")[1..] == digits[1..] + ";";
      CountsAll(digits[1..], base);
    }
  }

  /** What a reference with some digits is read as. */
  lemma ReferenceReads(head: string, digits: string, base: nat)
    requires forall i :: 0 <= i < |digits| ==> InBase(digits[i], 16)
    requires NumberIn(digits, base) % WORD_LIMIT < 0x110000
    ensures Numeric(head + digits + ";", |head|, base)
         == Replaces(Utf8(NumberIn(digits, base) % WORD_LIMIT), |head| + |digits| + 1)
  {
    hide CodeOf, NumberIn, DigitCount, DigitsOf, Utf8, InBase;
    var s := head + digits + ";";
    assert s[|head|..] == digits + ";" && s[|head| + |digits|] == ';';
    CountsAll(digits, 16);
    assert (digits + ";")[..|digits|] == digits;
    CodeIsWrapped(digits, base);
  }

  /** When such a reference is mistaken. */
  lemma ReferenceMistaken(head: string, digits: string, base: nat)
    requires (base == 10 || base == 16) && forall i :: 0 <= i < |digits| ==> InBase(digits[i], 16)
    requires NumberIn(digits, base) % WORD_LIMIT < 0x110000
    requires digits == "" || DigitsOf(digits + ";", base) < |digits| || NumberIn(digits, base) >= WORD_LIMIT
    ensures var s := head + digits + ";";
      Mistaken(s, |head|, base) && ByNumber(s, |head|, base) == Broken
  {
    hide CodeOf, NumberIn, DigitCount, DigitsOf, Utf8, InBase;
    var s := head + digits + ";";
    assert s[|head|..] == digits + ";" && s[|head| + |digits|] == ';';
    CountsAll(digits, 16);
    FewerDigits(digits + ";", base);
    assert (digits + ";")[..|digits|] == digits;
    if DigitsOf(digits + ";", base) < |digits| {
      assert s[|head| + DigitsOf(digits + ";", base)] == (digits + ";")[DigitsOf(digits + ";", base)];
    }
  }

  lemma NumberAppend(digits: string, ch: char, base: nat)
    ensures NumberIn(digits + [ch], base) == NumberIn(digits, base) * base + Digit(ch)
  {
    assert (digits + [ch])[..|digits|] == digits;
  }

  /** A one and zeros. */
  lemma {:induction false} NumberShifted(n: nat)
    ensures NumberIn("1" + seq(n, _ => '0'), 16) == Power16(n)
    decreases n
  {
    hide NumberIn;
    if n == 0 {
      NumberAppend("", '1', 16);
      NumberInNothing(16);
      assert "1" + seq(0, _ => '0') == "" + "1";
    } else {
      NumberShifted(n - 1);
      NumberAppend("1" + seq(n - 1, _ => '0'), '0', 16);
      assert "1" + seq(n, _ => '0') == "1" + seq(n - 1, _ => '0') + ['0'];
    }
  }

  lemma NumberInNothing(base: nat)
    ensures NumberIn("", base) == 0
  {
  }

  function Power16(n: nat): nat {
    if n == 0 then 1 else Power16(n - 1) * 16
  }

  lemma Power14()
    ensures Power16(14) == 0x100_0000_0000_0000
  {
    assert Power16(4) == 0x1_0000;
    assert Power16(8) == 0x1_0000_0000;
    assert Power16(12) == 0x1_0000_0000_0000;
  }

  lemma LongNumber()
    ensures var number := NumberIn("10000000000000041", 16);
      number >= WORD_LIMIT && number % WORD_LIMIT == 0x41
  {
    hide NumberIn;
    var w := "1" + seq(14, _ => '0');
    NumberShifted(14);
    Power14();
    NumberAppend(w, '4', 16);
    NumberAppend(w + "4", '1', 16);
    assert w + "4" + "1" == "10000000000000041";
  }

  lemma LongDigits()
    ensures forall i :: 0 <= i < |"10000000000000041"| ==> InBase("10000000000000041"[i], 16)
  {
  }

  /** A number a word does not hold is taken for the letter A. */
  lemma WrappedIsMistaken()
    ensures var s := "&#x10000000000000041;";
      FrontReference(s) == Replaces("A", 21) && Mistaken(s, 3, 16) && ByNumber(s, 3, 16) == Broken
  {
    var s, digits := "&#x10000000000000041;", "10000000000000041";
    hide *;
    assert "&#x" + digits + ";" == s;
    HexExample(s, digits);
    LongNumber();
    LongDigits();
    ReferenceReads("&#x", digits, 16);
    ReferenceMistaken("&#x", digits, 16);
    ExampleBytes();
  }

  lemma ExampleBytes()
    ensures Utf8(0x41) == "A" && Utf8(20) == "\U{0014}" && Utf8(0) == "\U{0000}"
  {
  }

  lemma HexExample(s: string, digits: string)
    requires s == "&#x" + digits + ";"
    ensures FrontReference(s) == Numeric(s, 3, 16)
  {
    hide Numeric, FrontReference;
    assert s[..2] == "&#" && At(s, 2) == 'x';
    NumericFront(s);
  }

  lemma DecimalExample(s: string, digits: string)
    requires s == "&#" + digits + ";" && !StartsWith(digits, 'x')
    ensures FrontReference(s) == Numeric(s, 2, 10)
  {
    hide Numeric, FrontReference;
    assert s[..2] == "&#" && At(s, 2) != 'x';
    NumericFront(s);
  }

  lemma OneThenLetter()
    ensures InBase('1', 10) && !InBase('A', 10) && forall i :: 0 <= i < |"1A"| ==> InBase("1A"[i], 16)
  {
  }

  lemma TenThenTen()
    ensures NumberIn("1A", 10) == 20 && 20 % WORD_LIMIT == 20 && 20 < 0x110000
  {
    NumberInNothing(10);
    NumberAppend("", '1', 10);
    NumberAppend("1", 'A', 10);
    hide NumberIn;
    assert "" + ['1'] == "1" && "1" + ['A'] == "1A";
  }

  lemma StopsAtLetter(digits: string)
    requires |digits| > 1 && InBase(digits[0], 10) && !InBase(digits[1], 10)
    ensures DigitsOf(digits + ";", 10) == 1
  {
    var s := digits + ";";
    assert s[0] == digits[0] && s[1..][0] == digits[1];
    assert DigitsOf(s[1..], 10) == 0;
  }

  /** A letter among the decimal digits is taken for ten. */
  lemma LetterIsMistaken()
    ensures var s := "&#1A;";
      FrontReference(s) == Replaces("\U{0014}", 5) && Mistaken(s, 2, 10) && ByNumber(s, 2, 10) == Broken
  {
    hide *;
    var s, digits := "&#1A;", "1A";
    assert "&#" + digits + ";" == s;
    assert !StartsWith(digits, 'x') by { NoX(); }
    DecimalExample(s, digits);
    OneThenLetter();
    StopsAtLetter(digits);
    TenThenTen();
    ReferenceReads("&#", digits, 10);
    ReferenceMistaken("&#", digits, 10);
    ExampleBytes();
  }

  lemma NoX()
    ensures !StartsWith("1A", 'x')
  {
  }

  /** No digit at all is taken for the character zero. */
  lemma NothingIsMistaken()
    ensures var s := "&#;";
      FrontReference(s) == Replaces("\U{0000}", 3) && Mistaken(s, 2, 10) && ByNumber(s, 2, 10) == Broken
  {
    var s := "&#;";
    DecimalExample(s, "");
    NumberInNothing(10);
    ReferenceReads("&#", "", 10);
    ReferenceMistaken("&#", "", 10);
    ExampleBytes();
    assert "&#" + "" + ";" == s;
  }
}
