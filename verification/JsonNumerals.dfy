/** How numbers can be written in JSON, and that the scanner accepts these and no others, as far as a double holds
    them. */
module JsonNumerals {
  import opened Layout
  import opened JsonEvents
  import N = JsonNumbers
  import R = ReaderSpec
  import G = JsonGrammar
  import L = JsonLiterals

  /** A number: a sign or none, a whole part, a fraction or none, an exponent or none. */
  datatype Numeral = Numeral(minus: bool, whole: seq<Figure>, fraction: seq<Figure>, exponent: Exponent)

  datatype Exponent = NoExponent | Exponent(letter: char, sign: Sign, figures: seq<Figure>)

  datatype Sign = NoSign | PlusSign | MinusSign

  predicate AllDecimal(figures: seq<Figure>) {
    forall i :: 0 <= i < |figures| ==> figures[i].value < 10
  }

  /** At least one decimal digit. */
  predicate Decimals(figures: seq<Figure>) {
    figures != [] && AllDecimal(figures)
  }

  predicate LegalExponent(e: Exponent) {
    match e
    case NoExponent => true
    case Exponent(letter, _, figures) => letter in ['e', 'E'] && Decimals(figures)
  }

  predicate LegalNumeral(n: Numeral) {
    && Decimals(n.whole) && (n.whole[0].value == 0 ==> |n.whole| == 1)
    && (n.fraction != [] ==> Decimals(n.fraction)) && LegalExponent(n.exponent)
  }

  function SpellFraction(fraction: seq<Figure>, rest: string): string {
    if fraction == [] then rest else "." + (SpellFigures(fraction) + rest)
  }

  function SpellExponent(e: Exponent, rest: string): string {
    match e
    case NoExponent => rest
    case Exponent(letter, sign, figures) => [letter] + (SpellSign(sign) + (SpellFigures(figures) + rest))
  }

  function SpellSign(sign: Sign): string {
    match sign
    case NoSign => ""
    case PlusSign => "+"
    case MinusSign => "-"
  }

  /** The text of a number before `rest`. */
  function SpellNumeral(n: Numeral, rest: string): string {
    (if n.minus then "-" else "")
    + (SpellFigures(n.whole) + SpellFraction(n.fraction, SpellExponent(n.exponent, rest)))
  }

  /** The errors of numbers, by their place in the library's enumeration. */
  const TOO_BIG := R.ScalarError(13)
  const NO_FRACTION := R.ScalarError(14)
  const NO_EXPONENT := R.ScalarError(15)

  predicate BeginsWith(s: string, first: string) {
    s != "" && s[0] in first
  }

  predicate LoneZero(n: Numeral) {
    n.exponent.NoExponent? && n.fraction == [] && n.whole != [] && n.whole[0].value == 0
  }

  /** Whether a number ends where `rest` begins, so that no character of it belongs to the number. */
  predicate Ends(n: Numeral, rest: string) {
    && (BeginsWith(rest, "0123456789") ==> LoneZero(n))
    && (n.exponent.NoExponent? ==> !BeginsWith(rest, "eE"))
    && (n.exponent.NoExponent? && n.fraction == [] ==> !BeginsWith(rest, "."))
  }

  /** Whether the double that is accumulated of digits which 64 bits do not hold has no room for one of them. */
  ghost predicate Overflows(n: Numeral, big: N.Overflow) {
    exists k :: 0 < k < |n.whole|
      && NumberOf(n.whole[..k + 1], 10) > (if n.minus then 0x8000_0000_0000_0000 else 0xFFFF_FFFF_FFFF_FFFF)
      && big(SpellFigures(n.whole[..k]))
  }

  /** How far the fraction moves the decimal exponent. */
  function Scale(n: Numeral): nat
    requires LegalNumeral(n)
  {
    FiguresAreDigits(n.fraction);
    N.Kept(SpellFigures(n.fraction), 0, |n.fraction|, NumberOf(n.whole, 10), |n.whole| - 1)
  }

  /** Whether a double holds a number, as far as its digits and its exponent are looked at. */
  ghost predicate Moderate(n: Numeral, big: N.Overflow)
    requires LegalNumeral(n)
  {
    !Overflows(n, big) && !TooGreat(n)
  }

  /** Whether a positive exponent is beyond what the fraction makes up for. */
  predicate TooGreat(n: Numeral)
    requires LegalNumeral(n)
  {
    n.exponent.Exponent? && !n.exponent.sign.MinusSign? && NumberOf(n.exponent.figures, 10) > 308 + Scale(n)
  }

  /** The event of a number: an integer in the narrowest type of its sign, or the text of a double. */
  function NumeralTold(n: Numeral): Event {
    var m: int := NumberOf(n.whole, 10);
    if n.fraction != [] || n.exponent.Exponent? then Double(SpellNumeral(n, ""))
    else if n.minus then
      if m <= 0x8000_0000 then Int(-m)
      else if m <= 0x8000_0000_0000_0000 then Int64(-m)
      else Double(SpellNumeral(n, ""))
    else
      if m < 0x1_0000_0000 then Uint(m)
      else if m < 0x1_0000_0000_0000_0000 then Uint64(m)
      else Double(SpellNumeral(n, ""))
  }

  lemma DecimalFigure(f: Figure)
    requires f.value < 10
    ensures G.DigitChar(SpellFigure(f)) && N.Digit(SpellFigure(f)) == f.value
    ensures SpellFigure(f) == '0' <==> f.value == 0
  {
    assert LOWER[0] == '0' && LOWER[1] == '1' && LOWER[2] == '2' && LOWER[3] == '3' && LOWER[4] == '4';
    assert UPPER[0] == '0' && UPPER[1] == '1' && UPPER[2] == '2' && UPPER[3] == '3' && UPPER[4] == '4';
  }

  lemma FigureFound(ch: char) returns (f: Figure)
    requires G.DigitChar(ch)
    ensures SpellFigure(f) == ch && f.value < 10
  {
    f := Figure(ch as int - '0' as int, false);
  }

  lemma FiguresAreDigits(figures: seq<Figure>)
    ensures AllDecimal(figures) ==> N.AllDigits(SpellFigures(figures), 0, |figures|)
  {
    forall i | 0 <= i < |figures| && figures[i].value < 10 ensures G.DigitChar(SpellFigures(figures)[i]) {
      DecimalFigure(figures[i]);
    }
  }

  // ---- Digits, wherever they stand

  lemma {:induction false} DigitsThere(text: string, s: nat, figures: seq<Figure>, rest: string, k: nat)
    requires AllDecimal(figures) && s <= |text| && text[s..] == SpellFigures(figures) + rest && k <= |figures|
    ensures s + |figures| <= |text| && N.AllDigits(text, s, s + |figures|) && text[s + |figures|..] == rest
    ensures N.Magnitude(text, s, s + k) == NumberOf(figures[..k], 10)
    ensures text[s..s + k] == SpellFigures(figures[..k])
    decreases k
  {
    hide SpellFigure, N.Digit;
    var w := SpellFigures(figures);
    assert |w + rest| == |text| - s;
    assert forall i :: 0 <= i < |figures| ==> text[s + i] == text[s..][i] == SpellFigure(figures[i]);
    forall i | s <= i < s + |figures| ensures G.DigitChar(text[i]) {
      assert text[i] == SpellFigure(figures[i - s]);
      DecimalFigure(figures[i - s]);
    }
    assert text[s..][|figures|..] == rest;
    if k > 0 {
      DigitsThere(text, s, figures, rest, k - 1);
      DecimalFigure(figures[k - 1]);
      assert figures[..k][..k - 1] == figures[..k - 1];
    }
  }

  lemma {:induction false} FiguresFound(text: string, s: nat, q: nat) returns (figures: seq<Figure>)
    requires s <= q <= |text| && N.AllDigits(text, s, q)
    ensures |figures| == q - s && AllDecimal(figures) && text[s..q] == SpellFigures(figures)
    ensures text[s..] == SpellFigures(figures) + text[q..]
    decreases q - s
  {
    hide SpellFigure;
    if s == q {
      figures := [];
    } else {
      var f := FigureFound(text[s]);
      var more := FiguresFound(text, s + 1, q);
      figures := [f] + more;
      assert text[s..q] == [text[s]] + text[s + 1..q];
      assert SpellFigures(figures) == [SpellFigure(f)] + SpellFigures(more);
      assert text[s..] == text[s..q] + text[q..];
    }
  }

  lemma {:induction false} KeptMoves(text: string, u: nat, w: string, k: nat, m: nat, significant: nat)
    requires u + |w| <= |text| && text[u..u + |w|] == w && N.AllDigits(w, 0, |w|) && k <= |w|
    requires N.AllDigits(text, u, u + |w|)
    ensures N.Kept(text, u + k, u + |w|, m, significant) == N.Kept(w, k, |w|, m, significant)
    decreases |w| - k
  {
    if k < |w| {
      assert text[u + k] == w[k];
      var m' := m * 10 + N.Digit(w[k]);
      KeptMoves(text, u, w, k + 1, m', if m' != 0 then significant + 1 else significant);
      KeptMoves(text, u, w, k + 1, m, significant + 1);
    }
  }

  // ---- Numbers, wherever they stand


  lemma DigitFirst(s: string)
    ensures BeginsWith(s, "0123456789") <==> G.DigitChar(R.Peek(s, 0))
  {
    assert "0123456789" == ['0', '1', '2', '3', '4', '5', '6', '7', '8', '9'];
  }

  lemma FigureFirst(figures: seq<Figure>, rest: string)
    requires Decimals(figures)
    ensures var s := SpellFigures(figures) + rest;
      G.DigitChar(R.Peek(s, 0)) && (R.Peek(s, 0) == '0' <==> figures[0].value == 0)
  {
    hide SpellFigure;
    DecimalFigure(figures[0]);
  }

  /** What follows the whole part of a number. */
  lemma AfterWhole(n: Numeral, rest: string)
    requires LegalNumeral(n) && Ends(n, rest)
    ensures var ch := R.Peek(SpellFraction(n.fraction, SpellExponent(n.exponent, rest)), 0);
      && (G.DigitChar(ch) ==> n.whole[0].value == 0) && (ch == '.' <==> n.fraction != [])
      && (n.fraction == [] ==> (N.StartsExponent(ch) <==> n.exponent.Exponent?))
  {
    hide SpellFigures;
    DigitFirst(rest);
  }

  lemma AfterFraction(n: Numeral, rest: string)
    requires LegalNumeral(n) && Ends(n, rest) && n.fraction != []
    ensures var ch := R.Peek(SpellExponent(n.exponent, rest), 0);
      !G.DigitChar(ch) && (N.StartsExponent(ch) <==> n.exponent.Exponent?)
  {
    hide SpellFigures;
    DigitFirst(rest);
  }

  /** Digits, up to something else. */
  lemma RunReads(text: string, s: nat, figures: seq<Figure>, rest: string)
    requires Decimals(figures) && s <= |text| && text[s..] == SpellFigures(figures) + rest
    ensures var q := s + |figures|;
      && q <= |text| && N.DigitAt(text, s) && text[q..] == rest && N.AllDigits(text, s, q)
      && N.Magnitude(text, s, q) == NumberOf(figures, 10) && text[s..q] == SpellFigures(figures)
      && (text[s] == '0' <==> figures[0].value == 0)
    ensures !G.DigitChar(R.Peek(rest, 0)) ==> N.DigitsEnd(text, s) == s + |figures|
  {
    hide SpellFigures, N.Magnitude, N.DigitsEnd;
    DigitsThere(text, s, figures, rest, |figures|);
    assert figures[..|figures|] == figures;
    FigureFirst(figures, rest);
    L.Peeks(text, s, 0);
    var q := s + |figures|;
    L.Peeks(text, q, 0);
    if !G.DigitChar(R.Peek(rest, 0)) { N.DigitsEndIs(text, s, q); }
  }

  lemma WholeReads(text: string, s: nat, n: Numeral, more: string)
    requires LegalNumeral(n) && s <= |text| && text[s..] == SpellFigures(n.whole) + more
    requires G.DigitChar(R.Peek(more, 0)) ==> n.whole[0].value == 0
    ensures var q := s + |n.whole|;
      && q <= |text| && N.DigitAt(text, s) && N.IntegerEnd(text, s) == q
        && N.Magnitude(text, s, q) == NumberOf(n.whole, 10)
      && text[q..] == more
  {
    hide SpellFigures, N.Magnitude, N.DigitsEnd, NumberOf;
    RunReads(text, s, n.whole, more);
  }

  lemma OverflowsThere(text: string, s: nat, n: Numeral, more: string, big: N.Overflow)
    requires LegalNumeral(n) && s <= |text| && text[s..] == SpellFigures(n.whole) + more
    ensures s + |n.whole| <= |text| && N.AllDigits(text, s, s + |n.whole|)
    ensures N.DoubleOverflows(text, s, s + |n.whole|, n.minus, big) <==> Overflows(n, big)
  {
    hide SpellFigures, N.Magnitude, NumberOf;
    var q := s + |n.whole|;
    DigitsThere(text, s, n.whole, more, 0);
    forall k | 0 <= k <= |n.whole|
      ensures N.Magnitude(text, s, s + k) == NumberOf(n.whole[..k], 10) && text[s..s + k] == SpellFigures(n.whole[..k])
    {
      DigitsThere(text, s, n.whole, more, k);
    }
    var limit := N.Limit(n.minus);
    if N.DoubleOverflows(text, s, q, n.minus, big) {
      var k :| s < k < q && N.Magnitude(text, s, k + 1) > limit && big(text[s..k]);
      var j := k - s;
      assert s + j == k && s + (j + 1) == k + 1;
      assert NumberOf(n.whole[..j + 1], 10) > limit && big(SpellFigures(n.whole[..j]));
    }
    if Overflows(n, big) {
      var j :| 0 < j < |n.whole| && NumberOf(n.whole[..j + 1], 10) > limit && big(SpellFigures(n.whole[..j]));
      assert N.Magnitude(text, s, s + (j + 1)) > limit && big(text[s..s + j]);
    }
  }

  lemma ScaleThere(text: string, k: nat, n: Numeral, more: string)
    requires LegalNumeral(n) && k <= |text| && text[k..] == SpellFigures(n.fraction) + more
    ensures var f := k + |n.fraction|;
      && f <= |text| && N.AllDigits(text, k, f)
      && N.Kept(text, k, f, NumberOf(n.whole, 10), |n.whole| - 1) == Scale(n)
  {
    hide SpellFigure, NumberOf, N.Kept;
    var w := SpellFigures(n.fraction);
    DigitsThere(text, k, n.fraction, more, |n.fraction|);
    assert n.fraction[..|n.fraction|] == n.fraction;
    FiguresAreDigits(n.fraction);
    KeptMoves(text, k, w, 0, NumberOf(n.whole, 10), |n.whole| - 1);
  }

  /** Where the digits of an exponent begin. */
  lemma SignReads(text: string, f: nat, sign: Sign, digits: string)
    requires f < |text| && text[f + 1..] == SpellSign(sign) + digits && G.DigitChar(R.Peek(digits, 0))
    ensures var ch := R.Peek(text, f + 1);
      && (f + 1 + |SpellSign(sign)| == if ch == '+' || ch == '-' then f + 2 else f + 1)
      && (ch == '-' <==> sign.MinusSign?)
    ensures f + 1 + |SpellSign(sign)| <= |text| && text[f + 1 + |SpellSign(sign)|..] == digits
  {
    L.Peeks(text, f + 1, 0);
    assert text[f + 1..][|SpellSign(sign)|..] == digits;
  }

  lemma ExponentReads(text: string, p: nat, f: nat, scale: nat, e: Exponent, rest: string)
    requires e.Exponent? && LegalExponent(e) && !BeginsWith(rest, "0123456789")
    requires p <= f <= |text| && text[f..] == SpellExponent(e, rest)
    ensures f < |text| && |rest| < |text| - f
    ensures N.AfterMantissa(text, p, f, scale)
         == if !e.sign.MinusSign? && NumberOf(e.figures, 10) > 308 + scale then R.LeafErr(TOO_BIG)
            else R.LeafOk(Double(text[p..|text| - |rest|]), |text| - |rest|)
  {
    hide SpellFigures, N.Magnitude, N.DigitsEnd, NumberOf, SpellFigure, N.AfterMantissa, Decimals, N.AllDigits,
         N.DigitAt, SpellExponent, SpellSign, BeginsWith, G.DigitChar, R.Peek;
    var digits := SpellFigures(e.figures) + rest;
    var u := f + 1 + |SpellSign(e.sign)|;
    ExponentTail(text, f, e, rest);
    FigureFirst(e.figures, rest);
    SignReads(text, f, e.sign, digits);
    DigitFirst(rest);
    RunReads(text, u, e.figures, rest);
    BehindSign(text, p, f, scale, u);
  }

  lemma ExponentTail(text: string, f: nat, e: Exponent, rest: string)
    requires e.Exponent? && f <= |text| && text[f..] == SpellExponent(e, rest)
    ensures f < |text| && text[f + 1..] == SpellSign(e.sign) + (SpellFigures(e.figures) + rest)
    ensures |text| - |rest| == f + 1 + |SpellSign(e.sign)| + |e.figures|
  {
    hide SpellFigure;
    assert text[f..][1..] == SpellSign(e.sign) + (SpellFigures(e.figures) + rest);
  }

  lemma BehindSign(text: string, p: nat, f: nat, scale: nat, u: nat)
    requires p <= f < |text| && f < u <= |text| && N.DigitAt(text, u)
    requires u == if R.Peek(text, f + 1) == '+' || R.Peek(text, f + 1) == '-' then f + 2 else f + 1
    ensures var v := N.DigitsEnd(text, u);
      N.AfterMantissa(text, p, f, scale)
      == if R.Peek(text, f + 1) != '-' && N.Magnitude(text, u, v) > 308 + scale then R.LeafErr(TOO_BIG)
         else R.LeafOk(Double(text[p..v]), v)
  {
    hide N.Magnitude, N.DigitsEnd;
  }

  /** What the scanner does from the end of the whole part on. */
  function FromWhole(text: string, p: nat, s: nat, q: nat): (r: R.LeafResult)
    requires p <= s < q <= |text| && N.AllDigits(text, s, q)
  {
    if R.Peek(text, q) == '.' then
      if !N.DigitAt(text, q + 1) then R.LeafErr(N.NUMBER_MISS_FRACTION)
      else
        var f := N.DigitsEnd(text, q + 1);
        var scale := N.Kept(text, q + 1, f, N.Magnitude(text, s, q), q - s - 1);
        if N.StartsExponent(R.Peek(text, f)) then N.AfterMantissa(text, p, f, scale)
        else R.LeafOk(Double(text[p..f]), f)
    else if N.StartsExponent(R.Peek(text, q)) then N.AfterMantissa(text, p, q, 0)
    else R.LeafOk(N.IntegerEvent(R.Peek(text, p) == '-', N.Magnitude(text, s, q), text[p..q]), q)
  }

  lemma WholeFirst(text: string, p: nat, big: N.Overflow)
    requires p <= |text|
    ensures var minus := R.Peek(text, p) == '-';
      var s := if minus then p + 1 else p;
      N.NumberLeaf(text, p, big)
      == if !N.DigitAt(text, s) then R.LeafErr(R.ValueInvalid)
         else if N.DoubleOverflows(text, s, N.IntegerEnd(text, s), minus, big) then R.LeafErr(TOO_BIG)
         else FromWhole(text, p, s, N.IntegerEnd(text, s))
  {
    hide N.Magnitude, N.DigitsEnd, N.DoubleOverflows, N.IntegerEnd, N.AfterMantissa, N.Kept;
  }

  /** The text of a number is the same wherever it stands. */
  lemma NumeralText(text: string, p: nat, n: Numeral, rest: string)
    requires p <= |text| && text[p..] == SpellNumeral(n, rest)
    ensures |rest| <= |text| - p && text[p..|text| - |rest|] == SpellNumeral(n, "") && text[|text| - |rest|..] == rest
  {
    hide SpellFigures;
    var w := SpellNumeral(n, "");
    assert SpellNumeral(n, rest) == w + rest by {
      ExponentBefore(n.exponent, rest);
      FractionBefore(n.fraction, SpellExponent(n.exponent, ""), rest);
      ThreeParts(if n.minus then "-" else "", SpellFigures(n.whole),
                 SpellFraction(n.fraction, SpellExponent(n.exponent, "")), rest);
    }
    assert (w + rest)[..|w|] == w && (w + rest)[|w|..] == rest;
    assert text[p..][..|w|] == text[p..p + |w|] && text[p..][|w|..] == text[p + |w|..];
  }

  lemma ThreeParts(a: string, b: string, c: string, rest: string)
    ensures a + (b + (c + rest)) == a + (b + c) + rest
  {
  }

  lemma ExponentBefore(e: Exponent, rest: string)
    ensures SpellExponent(e, rest) == SpellExponent(e, "") + rest
  {
    hide SpellFigures;
    match e
    case NoExponent => assert "" + rest == rest;
    case Exponent(letter, sign, figures) =>
      ThreeParts([letter], SpellSign(sign), SpellFigures(figures), rest);
      assert SpellFigures(figures) + "" == SpellFigures(figures);
  }

  lemma FractionBefore(fraction: seq<Figure>, more: string, rest: string)
    ensures SpellFraction(fraction, more + rest) == SpellFraction(fraction, more) + rest
  {
    hide SpellFigures;
    if fraction != [] { ThreeParts(".", SpellFigures(fraction), more, rest); }
  }

  lemma SignFirst(text: string, p: nat, n: Numeral, rest: string)
    requires LegalNumeral(n) && p <= |text| && text[p..] == SpellNumeral(n, rest)
    ensures R.Peek(text, p) == '-' <==> n.minus
    ensures var s := if n.minus then p + 1 else p;
      s <= |text| && text[s..] == SpellFigures(n.whole) + SpellFraction(n.fraction, SpellExponent(n.exponent, rest))
  {
    hide SpellFigure, SpellFraction, SpellExponent;
    var more := SpellFraction(n.fraction, SpellExponent(n.exponent, rest));
    L.Peeks(text, p, 0);
    if n.minus {
      assert text[p..][1..] == text[p + 1..];
      assert text[p + 1..] == SpellFigures(n.whole) + more;
    } else {
      FigureFirst(n.whole, more);
      assert "" + (SpellFigures(n.whole) + more) == SpellFigures(n.whole) + more;
    }
  }

  /** What the scanner makes of a number that no digit overflows and that ends at `next`. */
  function Scanned(n: Numeral, next: nat): R.LeafResult
    requires LegalNumeral(n)
  {
    if TooGreat(n) then R.LeafErr(TOO_BIG) else R.LeafOk(NumeralTold(n), next)
  }

  lemma FractionReads(text: string, p: nat, s: nat, q: nat, n: Numeral, rest: string)
    requires LegalNumeral(n) && Ends(n, rest) && n.fraction != [] && p <= s < q <= |text| && N.AllDigits(text, s, q)
    requires text[q..] == SpellFraction(n.fraction, SpellExponent(n.exponent, rest)) && q - s == |n.whole|
    requires N.Magnitude(text, s, q) == NumberOf(n.whole, 10)
    requires |rest| <= |text| - p && text[p..|text| - |rest|] == SpellNumeral(n, "")
    ensures FromWhole(text, p, s, q) == Scanned(n, |text| - |rest|)
  {
    hide SpellFigures, SpellExponent, N.Magnitude, N.DigitsEnd, N.AfterMantissa, N.Kept, NumberOf, Scale, SpellNumeral,
         BeginsWith, R.Peek, N.StartsExponent, G.DigitChar, Decimals;
    var e := SpellExponent(n.exponent, rest);
    var f := q + 1 + |n.fraction|;
    PointFirst(text, q, n.fraction, e);
    AfterFraction(n, rest);
    RunReads(text, q + 1, n.fraction, e);
    ScaleThere(text, q + 1, n, e);
    L.Peeks(text, f, 0);
    if n.exponent.Exponent? {
      ExponentReads(text, p, f, Scale(n), n.exponent, rest);
    } else {
      NothingMore(n.exponent, rest);
    }
  }

  lemma NothingMore(e: Exponent, rest: string)
    requires e.NoExponent?
    ensures SpellExponent(e, rest) == rest
  {
  }

  lemma PointFirst(text: string, q: nat, fraction: seq<Figure>, e: string)
    requires fraction != [] && q <= |text| && text[q..] == SpellFraction(fraction, e)
    ensures R.Peek(text, q) == '.' && q < |text| && text[q + 1..] == SpellFigures(fraction) + e
  {
    hide SpellFigures;
    assert text[q..][1..] == text[q + 1..];
  }

  lemma NoFractionReads(text: string, p: nat, s: nat, q: nat, n: Numeral, rest: string)
    requires LegalNumeral(n) && Ends(n, rest) && n.fraction == [] && p <= s < q <= |text| && N.AllDigits(text, s, q)
    requires text[q..] == SpellExponent(n.exponent, rest) && (R.Peek(text, p) == '-' <==> n.minus)
    requires N.Magnitude(text, s, q) == NumberOf(n.whole, 10)
    requires |rest| <= |text| - p && text[p..|text| - |rest|] == SpellNumeral(n, "")
    ensures FromWhole(text, p, s, q) == Scanned(n, |text| - |rest|)
  {
    hide SpellFigures, SpellExponent, N.Magnitude, N.DigitsEnd, N.AfterMantissa, NumberOf, SpellNumeral,
         BeginsWith, G.DigitChar, Decimals;
    AfterWhole(n, rest);
    L.Peeks(text, q, 0);
    assert SpellFraction(n.fraction, SpellExponent(n.exponent, rest)) == SpellExponent(n.exponent, rest);
    if n.exponent.Exponent? {
      assert Scale(n) == 0;
      ExponentReads(text, p, q, 0, n.exponent, rest);
    } else {
      NothingMore(n.exponent, rest);
    }
  }

  /** A number is read as such, whatever follows it that is none of it. */
  lemma NumeralReads(text: string, p: nat, n: Numeral, rest: string, big: N.Overflow)
    requires LegalNumeral(n) && Ends(n, rest) && p <= |text| && text[p..] == SpellNumeral(n, rest)
    ensures N.NumberLeaf(text, p, big)
         == if Overflows(n, big) then R.LeafErr(TOO_BIG) else Scanned(n, |text| - |rest|)
  {
    hide SpellFigures, SpellFraction, SpellExponent, N.Magnitude, N.DigitsEnd, N.IntegerEnd, N.AfterMantissa, NumberOf,
         Scale, Decimals, BeginsWith, FromWhole, N.NumberLeaf, SpellNumeral, N.DoubleOverflows, Overflows, Scanned,
           Ends,
         LegalNumeral, R.Peek, N.AllDigits, N.DigitAt;
    var s := if n.minus then p + 1 else p;
    var more := SpellFraction(n.fraction, SpellExponent(n.exponent, rest));
    SignFirst(text, p, n, rest);
    AfterWhole(n, rest);
    WholeReads(text, s, n, more);
    OverflowsThere(text, s, n, more, big);
    NumeralText(text, p, n, rest);
    WholeFirst(text, p, big);
    if !Overflows(n, big) { FromWholeSplit(text, p, s, s + |n.whole|, n, rest); }
  }

  lemma FromWholeSplit(text: string, p: nat, s: nat, q: nat, n: Numeral, rest: string)
    requires LegalNumeral(n) && Ends(n, rest) && p <= s < q <= |text| && N.AllDigits(text, s, q)
    requires text[q..] == SpellFraction(n.fraction, SpellExponent(n.exponent, rest)) && q - s == |n.whole|
    requires N.Magnitude(text, s, q) == NumberOf(n.whole, 10) && (R.Peek(text, p) == '-' <==> n.minus)
    requires |rest| <= |text| - p && text[p..|text| - |rest|] == SpellNumeral(n, "")
    ensures FromWhole(text, p, s, q) == Scanned(n, |text| - |rest|)
  {
    hide FromWhole, SpellNumeral, NumberOf, N.Magnitude, Scanned, SpellExponent, SpellFigures;
    if n.fraction != [] { FractionReads(text, p, s, q, n, rest); } else { NoFractionReads(text, p, s, q, n, rest); }
  }

  // ---- Nothing else is a number

  /** Digits up to something else, as figures. */
  lemma RunFinds(text: string, s: nat) returns (figures: seq<Figure>)
    requires s <= |text| && N.DigitAt(text, s)
    ensures Decimals(figures) && |figures| == N.DigitsEnd(text, s) - s
    ensures text[s..] == SpellFigures(figures) + text[N.DigitsEnd(text, s)..]
    ensures !BeginsWith(text[N.DigitsEnd(text, s)..], "0123456789")
  {
    hide SpellFigures;
    var q := N.DigitsEnd(text, s);
    assert s < q;
    figures := FiguresFound(text, s, q);
    L.Peeks(text, q, 0);
    DigitFirst(text[q..]);
  }

  /** The exponent at a place, or none; `next` is where it ends. */
  lemma ExponentFinds(text: string, p: nat, f: nat, scale: nat) returns (e: Exponent, next: nat)
    requires p <= f <= |text| && (N.StartsExponent(R.Peek(text, f)) ==> N.AfterMantissa(text, p, f, scale).LeafOk?)
    ensures LegalExponent(e) && f <= next <= |text| && text[f..] == SpellExponent(e, text[next..])
    ensures e.Exponent? <==> N.StartsExponent(R.Peek(text, f))
    ensures e.Exponent? ==>
      next == N.AfterMantissa(text, p, f, scale).next
      && !BeginsWith(text[next..], "0123456789")
    ensures e.NoExponent? ==> next == f && !BeginsWith(text[f..], "eE")
  {
    hide SpellFigures, N.Magnitude, N.DigitsEnd, Decimals, BeginsWith;
    if N.StartsExponent(R.Peek(text, f)) {
      var ch := R.Peek(text, f + 1);
      var sign := if ch == '+' then PlusSign else if ch == '-' then MinusSign else NoSign;
      var u := f + 1 + |SpellSign(sign)|;
      var figures := RunFinds(text, u);
      next := N.DigitsEnd(text, u);
      e := Exponent(text[f], sign, figures);
      SignBefore(text, f, sign);
      assert text[f..] == [text[f]] + text[f + 1..];
    } else {
      e, next := NoExponent, f;
      LetterFirst(text, f);
    }
  }

  lemma SignBefore(text: string, f: nat, sign: Sign)
    requires f < |text| && f + 1 + |SpellSign(sign)| <= |text|
    requires sign.NoSign? || R.Peek(text, f + 1) == SpellSign(sign)[0]
    ensures text[f + 1..] == SpellSign(sign) + text[f + 1 + |SpellSign(sign)|..]
  {
  }

  lemma LetterFirst(text: string, f: nat)
    requires f <= |text|
    ensures N.StartsExponent(R.Peek(text, f)) <==> BeginsWith(text[f..], "eE")
  {
    assert "eE" == ['e', 'E'];
  }

  lemma FractionFinds(text: string, q: nat) returns (fraction: seq<Figure>, f: nat)
    requires q <= |text| && (R.Peek(text, q) == '.' ==> N.DigitAt(text, q + 1))
    ensures (fraction != [] ==> Decimals(fraction)) && (fraction != [] <==> R.Peek(text, q) == '.')
    ensures f <= |text| && text[q..] == SpellFraction(fraction, text[f..])
    ensures fraction != [] ==>
      f == N.DigitsEnd(text, q + 1) && !BeginsWith(text[f..], "0123456789")
    ensures fraction == [] ==> f == q && !BeginsWith(text[f..], ".")
  {
    hide SpellFigures;
    if R.Peek(text, q) == '.' {
      fraction := RunFinds(text, q + 1);
      f := N.DigitsEnd(text, q + 1);
      assert text[q..] == "." + text[q + 1..];
    } else {
      fraction, f := [], q;
    }
  }

  lemma WholeFinds(text: string, s: nat) returns (whole: seq<Figure>)
    requires s <= |text| && N.DigitAt(text, s)
    ensures var q := N.IntegerEnd(text, s);
      && Decimals(whole) && |whole| == q - s && text[s..] == SpellFigures(whole) + text[q..]
      && (whole[0].value == 0 ==> |whole| == 1)
      && (BeginsWith(text[q..], "0123456789") ==> whole[0].value == 0)
  {
    hide SpellFigures, N.DigitsEnd;
    var q := N.IntegerEnd(text, s);
    whole := FiguresFound(text, s, q);
    FigureFirst(whole, text[q..]);
    L.Peeks(text, s, 0);
    L.Peeks(text, q, 0);
    DigitFirst(text[q..]);
  }

  /** What the scanner has accepted behind the whole part. */
  lemma BehindWhole(text: string, p: nat, s: nat, q: nat) returns (fraction: seq<Figure>, exponent: Exponent, f: nat)
    requires p <= s < q <= |text| && N.AllDigits(text, s, q) && FromWhole(text, p, s, q).LeafOk?
    ensures var next := FromWhole(text, p, s, q).next;
      && f <= next <= |text| && text[q..] == SpellFraction(fraction, text[f..])
      && text[f..] == SpellExponent(exponent, text[next..])
      && LegalExponent(exponent) && (fraction != [] ==> Decimals(fraction))
      && (exponent.Exponent? ==> !BeginsWith(text[next..], "0123456789"))
      && (exponent.NoExponent? ==> next == f && !BeginsWith(text[f..], "eE"))
    ensures fraction != [] ==> !BeginsWith(text[f..], "0123456789")
    ensures fraction == [] ==> f == q && !BeginsWith(text[f..], ".")
  {
    hide SpellFigures, N.Magnitude, N.DigitsEnd, N.AfterMantissa, N.Kept, Decimals, BeginsWith, SpellFraction,
         SpellExponent;
    fraction, f := FractionFinds(text, q);
    var scale := if fraction != [] then N.Kept(text, q + 1, f, N.Magnitude(text, s, q), q - s - 1) else 0;
    var next;
    exponent, next := ExponentFinds(text, p, f, scale);
  }

  lemma Spelled(text: string, p: nat, s: nat, q: nat, f: nat, next: nat, n: Numeral)
    requires p <= s <= q <= |text| && f <= |text| && next <= |text|
    requires if n.minus then s == p + 1 && text[p] == '-' else s == p
    requires text[s..] == SpellFigures(n.whole) + text[q..] && text[q..] == SpellFraction(n.fraction, text[f..])
    requires text[f..] == SpellExponent(n.exponent, text[next..])
    ensures text[p..] == SpellNumeral(n, text[next..])
  {
    hide SpellFigures, SpellFraction, SpellExponent;
    if n.minus { assert text[p..] == "-" + text[s..]; } else { assert text[p..] == "" + text[s..]; }
  }

  /** Whatever the scanner accepts is a number, up to where it cannot go on. */
  lemma NumeralFinds(text: string, p: nat, big: N.Overflow) returns (n: Numeral)
    requires p <= |text| && N.NumberLeaf(text, p, big).LeafOk?
    ensures var rest := text[N.NumberLeaf(text, p, big).next..];
      LegalNumeral(n) && Ends(n, rest) && text[p..] == SpellNumeral(n, rest)
  {
    hide SpellFigures, N.Magnitude, Decimals, BeginsWith, N.DoubleOverflows, N.IntegerEnd, N.NumberLeaf, SpellFraction,
         SpellExponent, FromWhole, SpellNumeral, Ends;
    WholeFirst(text, p, big);
    var minus := R.Peek(text, p) == '-';
    var s := if minus then p + 1 else p;
    var whole := WholeFinds(text, s);
    var q := N.IntegerEnd(text, s);
    var fraction, exponent, f := BehindWhole(text, p, s, q);
    var next := FromWhole(text, p, s, q).next;
    n := Numeral(minus, whole, fraction, exponent);
    Spelled(text, p, s, q, f, next, n);
    EndsThere(n, text[q..], text[f..], text[next..]);
  }

  lemma EndsThere(n: Numeral, afterWhole: string, afterFraction: string, rest: string)
    requires n.whole != [] && LegalExponent(n.exponent)
    requires BeginsWith(afterWhole, "0123456789") ==> n.whole[0].value == 0
    requires n.fraction != [] ==> !BeginsWith(afterFraction, "0123456789")
    requires n.fraction == [] ==> afterFraction == afterWhole && !BeginsWith(afterFraction, ".")
    requires n.exponent.Exponent? ==> !BeginsWith(rest, "0123456789")
    requires n.exponent.NoExponent? ==> rest == afterFraction && !BeginsWith(rest, "eE")
    ensures Ends(n, rest)
  {
    hide BeginsWith;
  }

  // ---- Numbers the scanner refuses

  /** The scanner goes on behind the whole part, if no digit of it overflows. */
  lemma WholePassed(text: string, p: nat, n: Numeral, e: string, big: N.Overflow)
    requires LegalNumeral(n) && !Overflows(n, big) && p <= |text| && text[p..] == SpellNumeral(n, e)
    requires n.exponent.NoExponent?
    requires var more := SpellFraction(n.fraction, e); !G.DigitChar(R.Peek(more, 0))
    ensures var s := if n.minus then p + 1 else p;
      var q := s + |n.whole|;
      && p <= s < q <= |text| && N.AllDigits(text, s, q) && text[q..] == SpellFraction(n.fraction, e)
      && N.NumberLeaf(text, p, big) == FromWhole(text, p, s, q)
  {
    hide SpellFigures, N.Magnitude, N.IntegerEnd, NumberOf, Decimals, N.NumberLeaf, N.DoubleOverflows, Overflows,
         FromWhole, SpellNumeral, SpellFraction;
    var s := if n.minus then p + 1 else p;
    var more := SpellFraction(n.fraction, e);
    SignFirst(text, p, n, e);
    WholeReads(text, s, n, more);
    OverflowsThere(text, s, n, more, big);
    WholeFirst(text, p, big);
  }

  lemma PointMissing(text: string, p: nat, s: nat, q: nat, rest: string)
    requires p <= s < q <= |text| && N.AllDigits(text, s, q) && text[q..] == "." + rest
    requires !BeginsWith(rest, "0123456789")
    ensures FromWhole(text, p, s, q) == R.LeafErr(NO_FRACTION)
  {
    hide N.Magnitude, N.DigitsEnd, N.AfterMantissa, N.Kept;
    L.Peeks(text, q, 0);
    assert text[q..][1..] == rest == text[q + 1..];
    L.Peeks(text, q + 1, 0);
    DigitFirst(rest);
  }

  /** A point without a digit behind it. */
  lemma PointRefused(text: string, p: nat, n: Numeral, rest: string, big: N.Overflow)
    requires LegalNumeral(n) && n.fraction == [] && n.exponent.NoExponent? && !Overflows(n, big) && p <= |text|
    requires text[p..] == SpellNumeral(n, "." + rest) && !BeginsWith(rest, "0123456789")
    ensures N.NumberLeaf(text, p, big) == R.LeafErr(NO_FRACTION)
  {
    hide N.NumberLeaf, Overflows, BeginsWith, FromWhole, SpellNumeral;
    WholePassed(text, p, n, "." + rest, big);
    var s := if n.minus then p + 1 else p;
    PointMissing(text, p, s, s + |n.whole|, rest);
  }

  lemma ExponentMissing(text: string, p: nat, f: nat, scale: nat, letter: char, sign: Sign, rest: string)
    requires p <= f <= |text| && text[f..] == [letter] + (SpellSign(sign) + rest) && letter in ['e', 'E']
    requires !BeginsWith(rest, "0123456789") && (sign.NoSign? ==> !BeginsWith(rest, "+-"))
    ensures N.StartsExponent(R.Peek(text, f)) && f < |text|
    ensures N.AfterMantissa(text, p, f, scale) == R.LeafErr(NO_EXPONENT)
  {
    hide N.Magnitude, N.DigitsEnd;
    var u := f + 1 + |SpellSign(sign)|;
    assert text[f..][1..] == SpellSign(sign) + rest == text[f + 1..];
    assert text[f + 1..][|SpellSign(sign)|..] == rest == text[u..];
    L.Peeks(text, f, 0);
    L.Peeks(text, f + 1, 0);
    L.Peeks(text, u, 0);
    DigitFirst(rest);
    assert "+-" == ['+', '-'];
  }

  lemma NoExponentBehind(text: string, p: nat, s: nat, q: nat, fraction: seq<Figure>, letter: char, sign: Sign,
                         rest: string)
    requires p <= s < q <= |text| && N.AllDigits(text, s, q) && letter in ['e', 'E']
    requires text[q..] == SpellFraction(fraction, [letter] + (SpellSign(sign) + rest))
    requires fraction != [] ==> Decimals(fraction)
    requires !BeginsWith(rest, "0123456789") && (sign.NoSign? ==> !BeginsWith(rest, "+-"))
    ensures FromWhole(text, p, s, q) == R.LeafErr(NO_EXPONENT)
  {
    hide SpellFigures, N.Magnitude, N.DigitsEnd, N.AfterMantissa, N.Kept, BeginsWith, SpellSign;
    var e := [letter] + (SpellSign(sign) + rest);
    L.Peeks(text, q, 0);
    if fraction == [] {
      ExponentMissing(text, p, q, 0, letter, sign, rest);
    } else {
      PointFirst(text, q, fraction, e);
      RunReads(text, q + 1, fraction, e);
      var f := q + 1 + |fraction|;
      ExponentMissing(text, p, f, N.Kept(text, q + 1, f, N.Magnitude(text, s, q), q - s - 1), letter, sign, rest);
    }
  }

  /** An exponent without a digit. */
  lemma ExponentRefused(text: string, p: nat, n: Numeral, letter: char, sign: Sign, rest: string, big: N.Overflow)
    requires LegalNumeral(n) && n.exponent.NoExponent? && !Overflows(n, big) && p <= |text| && letter in ['e', 'E']
    requires text[p..] == SpellNumeral(n, [letter] + (SpellSign(sign) + rest))
    requires !BeginsWith(rest, "0123456789") && (sign.NoSign? ==> !BeginsWith(rest, "+-"))
    ensures N.NumberLeaf(text, p, big) == R.LeafErr(NO_EXPONENT)
  {
    hide N.NumberLeaf, Overflows, BeginsWith, FromWhole, SpellNumeral, SpellSign;
    WholePassed(text, p, n, [letter] + (SpellSign(sign) + rest), big);
    var s := if n.minus then p + 1 else p;
    NoExponentBehind(text, p, s, s + |n.whole|, n.fraction, letter, sign, rest);
  }
}
