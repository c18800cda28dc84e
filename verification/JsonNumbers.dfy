/** How the JSON reader reads a number: exactly, as long as it is an integer that 64 bits can hold. */
module JsonNumbers {
  import opened JsonEvents
  import opened ReaderSpec
  import G = JsonGrammar

  const NUMBER_TOO_BIG := ScalarError(13)
  const NUMBER_MISS_FRACTION := ScalarError(14)
  const NUMBER_MISS_EXPONENT := ScalarError(15)

  /** Whether the double accumulated from some digits leaves no room for another one. */
  type Overflow = string -> bool

  predicate DigitAt(text: string, p: nat) {
    G.DigitChar(Peek(text, p))
  }

  predicate AllDigits(text: string, p: nat, q: nat)
    requires q <= |text|
  {
    forall i :: p <= i < q ==> G.DigitChar(text[i])
  }

  function Digit(ch: char): (d: nat)
    requires G.DigitChar(ch)
    ensures d < 10
  {
    ch as nat - '0' as nat
  }

  /** The position after the digits from `p` on. */
  function DigitsEnd(text: string, p: nat): (q: nat)
    requires p <= |text|
    ensures p <= q <= |text| && AllDigits(text, p, q) && !DigitAt(text, q)
    decreases |text| - p
  {
    if DigitAt(text, p) then DigitsEnd(text, p + 1) else p
  }

  /** The value of the digits from `s` up to `q`. */
  function Magnitude(text: string, s: nat, q: nat): nat
    requires s <= q <= |text| && AllDigits(text, s, q)
  {
    if s == q then 0 else Magnitude(text, s, q - 1) * 10 + Digit(text[q - 1])
  }

  lemma {:induction false} MagnitudeGrows(text: string, s: nat, k: nat, q: nat)
    requires s <= k <= q <= |text| && AllDigits(text, s, q)
    ensures Magnitude(text, s, k) <= Magnitude(text, s, q)
    decreases q
  {
    if k < q { MagnitudeGrows(text, s, k, q - 1); }
  }

  // ---- What a number stands for

  /** The position after the integer part: a lone zero, or digits. */
  function IntegerEnd(text: string, s: nat): (q: nat)
    requires s <= |text| && DigitAt(text, s)
    ensures s < q <= |text| && AllDigits(text, s, q)
  {
    if text[s] == '0' then s + 1 else DigitsEnd(text, s)
  }

  function Limit(minus: bool): nat {
    if minus then 0x8000_0000_0000_0000 else 0xFFFF_FFFF_FFFF_FFFF
  }

  /** Whether a digit that 64 bits have no room for meets a double that has none either. */
  ghost predicate DoubleOverflows(text: string, s: nat, q: nat, minus: bool, big: Overflow)
    requires s <= q <= |text| && AllDigits(text, s, q)
  {
    exists k :: s < k < q && Magnitude(text, s, k + 1) > Limit(minus) && big(text[s..k])
  }

  /** The event of an integer: exact as long as it fits, by its sign. */
  function IntegerEvent(minus: bool, m: nat, literal: string): Event {
    if minus then
      if m <= 0x8000_0000 then Int(-(m as int)) else if m <= 0x8000_0000_0000_0000 then Int64(-(m as int))
        else Double(literal)
    else
      if m < 0x1_0000_0000 then Uint(m) else if m < 0x1_0000_0000_0000_0000 then Uint64(m) else Double(literal)
  }

  /** How many digits of a fraction move the decimal exponent: all until 53 bits are full, then until there are 17
      significant ones. */
  function Kept(text: string, k: nat, f: nat, m: nat, significant: nat): (n: nat)
    requires k <= f <= |text| && AllDigits(text, k, f)
    ensures n <= f - k
    decreases f - k
  {
    if k == f then 0
    else if m < 0x20_0000_0000_0000 then
      var m' := m * 10 + Digit(text[k]);
      1 + Kept(text, k + 1, f, m', if m' != 0 then significant + 1 else significant)
    else if significant < 17 then 1 + Kept(text, k + 1, f, m, significant + 1)
    else 0
  }

  predicate StartsExponent(ch: char) {
    ch == 'e' || ch == 'E'
  }

  /** The exponent whose letter is at `f`, behind a mantissa whose fraction scales it by `scale` digits. */
  function AfterMantissa(text: string, p: nat, f: nat, scale: nat): (r: LeafResult)
    requires p <= f < |text|
    ensures r.LeafOk? ==> f < r.next <= |text|
  {
    var sign := Peek(text, f + 1);
    var u := if sign == '+' || sign == '-' then f + 2 else f + 1;
    if u > |text| || !DigitAt(text, u) then LeafErr(NUMBER_MISS_EXPONENT)
    else
      var v := DigitsEnd(text, u);
      if sign != '-' && Magnitude(text, u, v) > 308 + scale then LeafErr(NUMBER_TOO_BIG)
      else LeafOk(Double(text[p..v]), v)
  }

  /** What the text from `p` on is as a number. */
  ghost function NumberLeaf(text: string, p: nat, big: Overflow): (r: LeafResult)
    requires p <= |text|
    ensures r.LeafOk? ==> p < r.next <= |text|
  {
    var minus := Peek(text, p) == '-';
    var s := if minus then p + 1 else p;
    if !DigitAt(text, s) then LeafErr(ValueInvalid)
    else
      var q := IntegerEnd(text, s);
      if DoubleOverflows(text, s, q, minus, big) then LeafErr(NUMBER_TOO_BIG)
      else if Peek(text, q) == '.' then
        if !DigitAt(text, q + 1) then LeafErr(NUMBER_MISS_FRACTION)
        else
          var f := DigitsEnd(text, q + 1);
          var scale := Kept(text, q + 1, f, Magnitude(text, s, q), q - s - 1);
          if StartsExponent(Peek(text, f)) then AfterMantissa(text, p, f, scale)
          else LeafOk(Double(text[p..f]), f)
      else if StartsExponent(Peek(text, q)) then AfterMantissa(text, p, q, 0)
      else LeafOk(IntegerEvent(minus, Magnitude(text, s, q), text[p..q]), q)
  }

  // ---- The integers of 32 bits behind the mantissa

  const INT_MAX: int := 0x7FFF_FFFF

  /** Where the digits of an exponent begin, whose letter is at `f`. */
  function ExponentDigits(text: string, f: nat): (u: nat)
    ensures f < u
  {
    if Peek(text, f + 1) == '+' || Peek(text, f + 1) == '-' then f + 2 else f + 1
  }

  /** The accumulator of a negative exponent, which takes no further digit once it is great. */
  function Capped(text: string, u: nat, v: nat): (n: nat)
    requires u <= v <= |text| && AllDigits(text, u, v)
    ensures n <= 2147483639
    ensures n == Magnitude(text, u, v) || 214748364 <= n
  {
    if u == v then 0
    else
      var n := Capped(text, u, v - 1);
      if n >= 214748364 then n else n * 10 + Digit(text[v - 1])
  }

  /** The value of the longest run of digits, from the first on, that 31 bits hold. */
  function Held(text: string, u: nat, v: nat): (n: nat)
    requires u <= v <= |text| && AllDigits(text, u, v)
    ensures n <= INT_MAX
  {
    if Magnitude(text, u, v) <= INT_MAX then Magnitude(text, u, v) else Held(text, u, v - 1)
  }

  /** Whether a positive exponent, from its digits and what the fraction has moved it by, makes its bound or its
      accumulator leave 32 bits: the digits do before they are found too great. */
  predicate PositiveWraps(text: string, u: nat, v: nat, scale: nat)
    requires u <= v <= |text| && AllDigits(text, u, v)
  {
    308 + scale > INT_MAX || (Magnitude(text, u, v) > INT_MAX && Held(text, u, v) <= 308 + scale)
  }

  /** Whether the sum of a negative exponent and what the fraction has moved it by leaves 32 bits. */
  predicate NegativeWraps(text: string, u: nat, v: nat, scale: nat)
    requires u <= v <= |text| && AllDigits(text, u, v)
  {
    Capped(text, u, v) + scale > INT_MAX + 1
  }

  /** Whether the code leaves 32 bits behind a mantissa that ends at `f`. */
  predicate TailWraps(text: string, f: nat, scale: nat)
    requires f <= |text|
  {
    || scale > INT_MAX + 1
    || (StartsExponent(Peek(text, f)) && DigitAt(text, ExponentDigits(text, f))
        && var u := ExponentDigits(text, f);
           var v := DigitsEnd(text, u);
           if Peek(text, f + 1) == '-' then NegativeWraps(text, u, v, scale) else PositiveWraps(text, u, v, scale))
  }

  /** Where the mantissa of a number ends, and how many digits of its fraction move the exponent. */
  datatype Mantissa = Mantissa(end: nat, scale: nat) | NoMantissa

  ghost function MantissaOf(text: string, p: nat, big: Overflow): (m: Mantissa)
    requires p <= |text|
    ensures m.Mantissa? ==> p < m.end <= |text|
  {
    var minus := Peek(text, p) == '-';
    var s := if minus then p + 1 else p;
    if !DigitAt(text, s) then NoMantissa
    else
      var q := IntegerEnd(text, s);
      if DoubleOverflows(text, s, q, minus, big) then NoMantissa
      else if Peek(text, q) != '.' then Mantissa(q, 0)
      else if !DigitAt(text, q + 1) then NoMantissa
      else
        var f := DigitsEnd(text, q + 1);
        Mantissa(f, Kept(text, q + 1, f, Magnitude(text, s, q), q - s - 1))
  }

  /** Whether reading a number makes some `int` of the code leave 32 bits, which the language leaves undefined. */
  ghost predicate NumberWraps(text: string, p: nat, big: Overflow)
    requires p <= |text|
  {
    var m := MantissaOf(text, p, big);
    m.Mantissa? && TailWraps(text, m.end, m.scale)
  }

  // ---- The loops over the accumulators

  newtype uint32 = x: int | 0 <= x < 0x1_0000_0000
  newtype uint64 = x: int | 0 <= x < 0x1_0000_0000_0000_0000
  newtype int32 = x: int | -0x8000_0000 <= x < 0x8000_0000

  /** Digits accumulated in 32 bits, as far as they fit; the value of its type keeps every step from wrapping. */
  method ReadDigits32(text: string, s: nat, minus: bool) returns (i: uint32, pos: nat)
    requires s < |text| && '1' <= text[s] <= '9'
    ensures s < pos <= DigitsEnd(text, s) && i as nat == Magnitude(text, s, pos)
    ensures DigitAt(text, pos) ==> Magnitude(text, s, pos + 1) > if minus then 0x8000_0000 else 0xFFFF_FFFF
    ensures i as nat <= if minus then 0x8000_0000 else 0xFFFF_FFFF
    ensures i > 0
  {
    i, pos := Digit(text[s]) as uint32, s + 1;
    while DigitAt(text, pos)
      invariant s < pos <= |text| && DigitsEnd(text, pos) == DigitsEnd(text, s)
      invariant AllDigits(text, s, pos)
      invariant i as nat == Magnitude(text, s, pos) && i > 0
      invariant i as nat <= if minus then 0x8000_0000 else 0xFFFF_FFFF
      decreases |text| - pos
    {
      if minus {
        if i >= 214748364 && (i != 214748364 || text[pos] > '8') { break; }
      } else {
        if i >= 429496729 && (i != 429496729 || text[pos] > '5') { break; }
      }
      i := i * 10 + Digit(text[pos]) as uint32;
      pos := pos + 1;
    }
  }

  /** Digits accumulated in 64 bits, from where 32 bits were full. */
  method ReadDigits64(text: string, s: nat, minus: bool, i: uint32, start: nat) returns (i64: uint64, pos: nat)
    requires s < start <= |text| && AllDigits(text, s, start) && DigitAt(text, start)
    requires i as nat == Magnitude(text, s, start)
    ensures start < pos <= |text| && AllDigits(text, s, pos) && DigitsEnd(text, pos) == DigitsEnd(text, start)
    ensures i64 as nat == Magnitude(text, s, pos) <= Limit(minus)
    ensures DigitAt(text, pos) ==> Magnitude(text, s, pos + 1) > Limit(minus) && pos - s >= 18
  {
    i64, pos := i as uint64, start;
    while DigitAt(text, pos)
      invariant start <= pos <= |text| && DigitsEnd(text, pos) == DigitsEnd(text, start)
      invariant AllDigits(text, s, pos)
      invariant i64 as nat == Magnitude(text, s, pos) <= Limit(minus)
      decreases |text| - pos
    {
      if minus {
        if i64 >= 0x0CCC_CCCC_CCCC_CCCC && (i64 != 0x0CCC_CCCC_CCCC_CCCC || text[pos] > '8') {
          Long(text, s, pos);
          break;
        }
      } else {
        if i64 >= 0x1999_9999_9999_9999 && (i64 != 0x1999_9999_9999_9999 || text[pos] > '5') {
          Long(text, s, pos);
          break;
        }
      }
      i64 := i64 * 10 + Digit(text[pos]) as uint64;
      pos := pos + 1;
    }
  }

  function Power10(n: nat): (r: nat)
    ensures r > 0
  {
    if n == 0 then 1 else 10 * Power10(n - 1)
  }

  lemma {:induction false} BelowPower(text: string, s: nat, q: nat)
    requires s <= q <= |text| && AllDigits(text, s, q)
    ensures Magnitude(text, s, q) < Power10(q - s)
    decreases q
  {
    if s < q { BelowPower(text, s, q - 1); }
  }

  lemma {:induction false} PowerGrows(m: nat, n: nat)
    requires m <= n
    ensures Power10(m) <= Power10(n)
    decreases n
  {
    if m < n { PowerGrows(m, n - 1); }
  }

  /** Digits that nearly fill 64 bits are at least eighteen. */
  lemma Long(text: string, s: nat, q: nat)
    requires s <= q <= |text| && AllDigits(text, s, q) && Magnitude(text, s, q) >= 0x0CCC_CCCC_CCCC_CCCC
    ensures q - s >= 18
  {
    BelowPower(text, s, q);
    assert Power10(17) == 100_000_000_000_000_000 by {
      assert Power10(8) == 100_000_000;
      assert Power10(16) == 10_000_000_000_000_000;
    }
    if q - s < 18 { PowerGrows(q - s, 17); }
  }

  /** The digits that no 64 bits hold, into a double, until it has no room. */
  method ReadDigitsDouble(text: string, s: nat, minus: bool, start: nat, big: Overflow) returns (tooBig: bool, pos: nat)
    requires s < start <= |text| && AllDigits(text, s, start)
    requires DigitAt(text, start) && Magnitude(text, s, start) <= Limit(minus) < Magnitude(text, s, start + 1)
    requires AllDigits(text, s, DigitsEnd(text, start))
    ensures tooBig <==> DoubleOverflows(text, s, DigitsEnd(text, start), minus, big)
    ensures !tooBig ==> pos == DigitsEnd(text, start)
  {
    ghost var q := DigitsEnd(text, start);
    forall j | s <= j <= start ensures Magnitude(text, s, j) <= Limit(minus) { MagnitudeGrows(text, s, j, start); }
    pos := start;
    while DigitAt(text, pos)
      invariant start <= pos <= q && DigitsEnd(text, pos) == q
      invariant forall k :: start <= k < pos ==> !big(text[s..k])
      decreases |text| - pos
    {
      if big(text[s..pos]) {
        MagnitudeGrows(text, s, start + 1, pos + 1);
        return true, pos;
      }
      pos := pos + 1;
    }
    tooBig := false;
  }

  /** The accumulators after the integer part. */
  datatype Accumulated = InInt(i: uint32) | InInt64(i64: uint64) | InDouble

  ghost predicate Holds(a: Accumulated, minus: bool, m: nat) {
    match a
    case InInt(i) => i as nat == m <= if minus then 0x8000_0000 else 0xFFFF_FFFF
    case InInt64(i64) => i64 as nat == m <= Limit(minus) && m > if minus then 0x8000_0000 else 0xFFFF_FFFF
    case InDouble => m > Limit(minus)
  }

  /** The integer part; `significant` counts its digits but the first, as far as they were accumulated. */
  method ReadInteger(text: string, s: nat, minus: bool, big: Overflow)
    returns (tooBig: bool, a: Accumulated, pos: nat, significant: nat)
    requires s <= |text| && DigitAt(text, s)
    ensures tooBig <==> DoubleOverflows(text, s, IntegerEnd(text, s), minus, big)
    ensures !tooBig ==> pos == IntegerEnd(text, s) && Holds(a, minus, Magnitude(text, s, pos))
    ensures !tooBig ==> if a.InDouble? then 17 <= significant <= pos - s - 1 else significant == pos - s - 1
  {
    tooBig := false;
    if text[s] == '0' {
      assert Magnitude(text, s, s + 1) == 0;
      return false, InInt(0), s + 1, 0;
    }
    var i;
    i, pos := ReadDigits32(text, s, minus);
    SameEnd(text, s, pos);
    a, significant := InInt(i), pos - s - 1;
    NoOverflowUpTo(text, s, pos, minus, big);
    if DigitAt(text, pos) {
      var i64;
      ghost var start := pos;
      i64, pos := ReadDigits64(text, s, minus, i, pos);
      MagnitudeGrows(text, s, start + 1, pos);
      a, significant := InInt64(i64), pos - s - 1;
      NoOverflowUpTo(text, s, pos, minus, big);
      if DigitAt(text, pos) {
        ghost var from := pos;
        a := InDouble;
        tooBig, pos := ReadDigitsDouble(text, s, minus, pos, big);
        if !tooBig { MagnitudeGrows(text, s, from + 1, pos); }
      }
    }
  }

  lemma {:induction false} SameEnd(text: string, p: nat, q: nat)
    requires p <= |text| && p <= q <= DigitsEnd(text, p)
    ensures DigitsEnd(text, q) == DigitsEnd(text, p) && AllDigits(text, p, q)
    decreases q - p
  {
    if p < q { SameEnd(text, p + 1, q); }
  }

  lemma NoOverflowUpTo(text: string, s: nat, q: nat, minus: bool, big: Overflow)
    requires s <= q <= |text| && AllDigits(text, s, q) && Magnitude(text, s, q) <= Limit(minus)
    ensures !DoubleOverflows(text, s, q, minus, big)
  {
    forall j | s <= j <= q ensures Magnitude(text, s, j) <= Limit(minus) { MagnitudeGrows(text, s, j, q); }
  }

  /** The digits of a fraction, and how many of them move the decimal exponent. */
  method ReadFraction(text: string, k: nat, a: Accumulated, ghost m: nat, start: nat)
    returns (pos: nat, scale: nat)
    requires k <= |text|
    requires match a
             case InInt(i) => i as nat == m
             case InInt64(i64) => i64 as nat == m
             case InDouble => m >= 0x20_0000_0000_0000 && start >= 17
    ensures pos == DigitsEnd(text, k) && scale == Kept(text, k, pos, m, start)
  {
    ghost var f := DigitsEnd(text, k);
    var significant := start;
    ghost var d := m;  // the significand the double stands for, as far as digits are kept
    pos, scale := k, 0;
    if !a.InDouble? {
      var i64: uint64 := if a.InInt? then a.i as uint64 else a.i64;
      while DigitAt(text, pos)
        invariant k <= pos <= f && DigitsEnd(text, pos) == f && i64 as nat == d
        invariant scale + Kept(text, pos, f, d, significant) == Kept(text, k, f, m, start)
        decreases |text| - pos
      {
        if i64 > 0x1F_FFFF_FFFF_FFFF { break; }
        i64 := i64 * 10 + Digit(text[pos]) as uint64;
        d := d * 10 + Digit(text[pos]);
        if i64 != 0 { significant := significant + 1; }
        scale, pos := scale + 1, pos + 1;
      }
    }
    while DigitAt(text, pos)
      invariant k <= pos <= f && DigitsEnd(text, pos) == f && (pos < f ==> d >= 0x20_0000_0000_0000)
      invariant scale + Kept(text, pos, f, d, significant) == Kept(text, k, f, m, start)
      decreases |text| - pos
    {
      if significant < 17 {
        scale, significant := scale + 1, significant + 1;
      }
      pos := pos + 1;
    }
  }

  /** The digits of a negative exponent: the accumulator keeps within 32 bits, whatever their number. */
  method ReadNegativeExponent(text: string, u: nat) returns (exp: int32, v: nat)
    requires u < |text| && DigitAt(text, u)
    ensures v == DigitsEnd(text, u) && exp as int == Capped(text, u, v)
  {
    exp, v := Digit(text[u]) as int32, u + 1;
    while DigitAt(text, v)
      invariant u < v <= DigitsEnd(text, u) && DigitsEnd(text, v) == DigitsEnd(text, u) && AllDigits(text, u, v)
      invariant exp as int == Capped(text, u, v) && (exp < 214748364 || !DigitAt(text, v))
      decreases |text| - v
    {
      exp := exp * 10 + Digit(text[v]) as int32;
      v := v + 1;
      if exp >= 214748364 {
        while DigitAt(text, v)
          invariant u < v <= DigitsEnd(text, u) && DigitsEnd(text, v) == DigitsEnd(text, u) && AllDigits(text, u, v)
          invariant exp as int == Capped(text, u, v) >= 214748364
          decreases |text| - v
        {
          v := v + 1;
        }
      }
    }
  }

  /** Once the digits leave 31 bits, the run that is held stays the same. */
  lemma {:induction false} HeldStays(text: string, u: nat, k: nat, v: nat)
    requires u < k <= v <= |text| && AllDigits(text, u, v) && Magnitude(text, u, k) > INT_MAX
    ensures Magnitude(text, u, v) > INT_MAX && Held(text, u, v) == Held(text, u, k)
    decreases v
  {
    if k < v { HeldStays(text, u, k, v - 1); }
  }

  /** Digits found too great in time are held beyond the bound. */
  lemma {:induction false} HeldGrows(text: string, u: nat, k: nat, v: nat)
    requires u <= k <= v <= |text| && AllDigits(text, u, v) && Magnitude(text, u, k) <= INT_MAX
    ensures Held(text, u, v) >= Magnitude(text, u, k)
    decreases v
  {
    MagnitudeGrows(text, u, k, v);
    if Magnitude(text, u, v) > INT_MAX { HeldGrows(text, u, k, v - 1); }
  }

  /** The digits of a positive exponent, up to the first that makes the number too big.  Where the code would leave 32
      bits, which is undefined, the method says so and stops. */
  method ReadPositiveExponent(text: string, u: nat, scale: nat) returns (wraps: bool, tooBig: bool, exp: int32, v: nat)
    requires u < |text| && DigitAt(text, u)
    ensures wraps <==> PositiveWraps(text, u, DigitsEnd(text, u), scale)
    ensures !wraps ==> (tooBig <==> Magnitude(text, u, DigitsEnd(text, u)) > 308 + scale)
    ensures !wraps && !tooBig ==> v == DigitsEnd(text, u) && exp as int == Magnitude(text, u, v)
  {
    wraps, tooBig := false, false;
    ghost var end := DigitsEnd(text, u);
    exp, v := Digit(text[u]) as int32, u + 1;
    if 308 + scale > INT_MAX { return true, false, exp, v; }
    var maxExp: int32 := (308 + scale) as int32;
    while DigitAt(text, v)
      invariant u < v <= end && DigitsEnd(text, v) == end && AllDigits(text, u, v)
      invariant exp as int == Magnitude(text, u, v) <= maxExp as int
      decreases |text| - v
    {
      if exp as int * 10 + Digit(text[v]) > INT_MAX {
        assert Magnitude(text, u, v + 1) == exp as int * 10 + Digit(text[v]) && Held(text, u, v + 1) == exp as int;
        HeldStays(text, u, v + 1, end);
        return true, false, exp, v;
      }
      exp := exp * 10 + Digit(text[v]) as int32;
      v := v + 1;
      if exp > maxExp {
        MagnitudeGrows(text, u, v, end);
        HeldGrows(text, u, v, end);
        return false, true, exp, v;
      }
    }
  }

  /** What is behind the mantissa, and the decimal exponent of the double as the code computes it. */
  method ReadTail(text: string, p: nat, f: nat, scale: nat) returns (wraps: bool, r: LeafResult)
    requires p <= f < |text| && StartsExponent(Peek(text, f))
    ensures wraps <==> TailWraps(text, f, scale)
    ensures !wraps ==> r == AfterMantissa(text, p, f, scale)
  {
    wraps, r := false, LeafErr(NUMBER_MISS_EXPONENT);
    if scale > INT_MAX + 1 { return true, r; }
    var expFrac: int32 := (-(scale as int)) as int32;
    var u := f + 1;
    var expMinus := false;
    if Peek(text, u) == '+' {
      u := u + 1;
    } else if Peek(text, u) == '-' {
      u, expMinus := u + 1, true;
    }
    if !DigitAt(text, u) { return; }
    var v;
    var exp: int32;
    if expMinus {
      exp, v := ReadNegativeExponent(text, u);
      exp := -exp;
    } else {
      var tooBig;
      wraps, tooBig, exp, v := ReadPositiveExponent(text, u, scale);
      if wraps { return; }
      if tooBig { return false, LeafErr(NUMBER_TOO_BIG); }
    }
    if exp as int + expFrac as int < -INT_MAX - 1 { return true, r; }
    var decimalExponent: int32 := exp + expFrac;
    r := LeafOk(Double(text[p..v]), v);
  }

  /** The two's complement of an accumulator, taken as signed. */
  function Negated32(i: uint32): (n: int32)
    requires i <= 0x8000_0000
    ensures n as int == -(i as int)
  {
    var c := (0xFFFF_FFFF - i as int + 1) % 0x1_0000_0000;
    (if c >= 0x8000_0000 then c - 0x1_0000_0000 else c) as int32
  }

  /** The two's complement in 64 bits, taken as signed. */
  function Negated64(i: uint64): (n: int)
    requires i <= 0x8000_0000_0000_0000
    ensures n == -(i as int)
  {
    var c := (0xFFFF_FFFF_FFFF_FFFF - i as int + 1) % 0x1_0000_0000_0000_0000;
    if c >= 0x8000_0000_0000_0000 then c - 0x1_0000_0000_0000_0000 else c
  }

  /** `ParseNumber`: the result is the exact integer, or the text of a double, or the error; unless an `int` leaves 32
      bits, which it does exactly as the specification says. */
  method ReadNumber(text: string, p: nat, big: Overflow) returns (wraps: bool, r: LeafResult)
    requires p <= |text|
    ensures wraps <==> NumberWraps(text, p, big)
    ensures !wraps ==> r == NumberLeaf(text, p, big)
  {
    hide Magnitude, AfterMantissa, DoubleOverflows, IntegerEnd, DigitsEnd, TailWraps;
    var minus := Peek(text, p) == '-';
    var s := if minus then p + 1 else p;
    if !DigitAt(text, s) { return false, LeafErr(ValueInvalid); }
    var tooBig, a, pos, significant := ReadInteger(text, s, minus, big);
    if tooBig { return false, LeafErr(NUMBER_TOO_BIG); }
    ghost var m := Magnitude(text, s, pos);
    var scale := 0;
    var useDouble := a.InDouble?;
    if Peek(text, pos) == '.' {
      pos := pos + 1;
      if !DigitAt(text, pos) { return false, LeafErr(NUMBER_MISS_FRACTION); }
      pos, scale := ReadFraction(text, pos, a, m, significant);
      useDouble := true;
    }
    if StartsExponent(Peek(text, pos)) {
      wraps, r := ReadTail(text, p, pos, scale);
      return;
    }
    WithoutExponent(text, pos, scale);
    wraps, r := scale > INT_MAX + 1, LeafOk(Double(text[p..pos]), pos);
    if !wraps && !useDouble {
      match a {
        case InInt(i) => r := LeafOk(if minus then Int(Negated32(i) as int) else Uint(i as nat), pos);
        case InInt64(i64) => r := LeafOk(if minus then Int64(Negated64(i64)) else Uint64(i64 as nat), pos);
        case InDouble => assert false;
      }
    }
  }

  lemma WithoutExponent(text: string, f: nat, scale: nat)
    requires f <= |text| && !StartsExponent(Peek(text, f))
    ensures TailWraps(text, f, scale) <==> scale > INT_MAX + 1
  {
  }

  // ---- Which numbers make the code leave 32 bits

  /** A number whose fraction moves the exponent by a number of digits. */
  ghost predicate Moves(text: string, big: Overflow, scale: nat) {
    MantissaOf(text, 0, big).Mantissa? && MantissaOf(text, 0, big).scale == scale
  }

  ghost predicate NegativeExponent(text: string, big: Overflow) {
    var m := MantissaOf(text, 0, big);
    m.Mantissa? && Peek(text, m.end + 1) == '-'
  }

  lemma {:induction false} HeldIsGreat(text: string, u: nat, v: nat)
    requires u <= v <= |text| && AllDigits(text, u, v) && Magnitude(text, u, v) > INT_MAX
    ensures Held(text, u, v) >= 214748364
    decreases v
  {
    if Magnitude(text, u, v - 1) > INT_MAX { HeldIsGreat(text, u, v - 1); }
  }

  /** No number leaves 32 bits whose fraction moves the exponent by few digits. */
  lemma ShortFractionsAreSafe(text: string, p: nat, big: Overflow)
    requires p <= |text| && NumberWraps(text, p, big)
    ensures var m := MantissaOf(text, p, big);
      m.scale > if Peek(text, m.end + 1) == '-' then 9 else 214748055
  {
    hide MantissaOf, Magnitude, Capped, Held, DigitsEnd;
    var m := MantissaOf(text, p, big);
    var u := ExponentDigits(text, m.end);
    if m.scale <= INT_MAX + 1 && Peek(text, m.end + 1) != '-' {
      var v := DigitsEnd(text, u);
      if Magnitude(text, u, v) > INT_MAX { HeldIsGreat(text, u, v); }
    }
  }

  lemma {:induction false} DigitsEndIs(text: string, s: nat, q: nat)
    requires s <= q <= |text| && AllDigits(text, s, q) && !DigitAt(text, q)
    ensures DigitsEnd(text, s) == q
    decreases q - s
  {
    if s < q { DigitsEndIs(text, s + 1, q); }
  }

  function Zeros(n: nat): string {
    seq(n, _ => '0')
  }

  /** Every digit of a fraction of zeros moves the exponent. */
  lemma {:induction false} KeptZeros(text: string, k: nat, f: nat, significant: nat)
    requires k <= f <= |text| && forall i :: k <= i < f ==> text[i] == '0'
    ensures Kept(text, k, f, 0, significant) == f - k
    decreases f - k
  {
    if k < f { KeptZeros(text, k + 1, f, significant); }
  }

  lemma ZeroFraction(text: string, n: nat, tail: string, big: Overflow)
    requires text == "0." + Zeros(n) + tail && n > 0 && !DigitAt(tail, 0)
    ensures MantissaOf(text, 0, big) == Mantissa(n + 2, n)
    ensures forall i :: 0 <= i <= |tail| ==> Peek(text, n + 2 + i) == Peek(tail, i)
  {
    hide Kept;
    assert text[0] == '0' && text[1] == '.' && forall i :: 2 <= i < n + 2 ==> text[i] == '0';
    DigitsEndIs(text, 2, n + 2);
    KeptZeros(text, 2, n + 2, 0);
    assert Magnitude(text, 0, 1) == 0;
  }

  /** Digits have the same value wherever they stand. */
  lemma {:induction false} ValueMoves(text: string, u: nat, w: string, n: nat)
    requires u + |w| <= |text| && text[u..u + |w|] == w && AllDigits(w, 0, |w|) && n <= |w|
    ensures AllDigits(text, u, u + |w|)
    ensures Magnitude(text, u, u + n) == Magnitude(w, 0, n) && Capped(text, u, u + n) == Capped(w, 0, n)
    decreases n
  {
    assert forall i :: 0 <= i < |w| ==> text[u + i] == w[i];
    assert forall i :: u <= i < u + |w| ==> text[i] == w[i - u];
    if n > 0 { ValueMoves(text, u, w, n - 1); }
  }

  lemma HeldBelow(text: string, u: nat, v: nat)
    requires u < v <= |text| && AllDigits(text, u, v)
    requires Magnitude(text, u, v) > INT_MAX >= Magnitude(text, u, v - 1)
    ensures Held(text, u, v) == Magnitude(text, u, v - 1)
  {
  }

  lemma GreatExponent()
    ensures Magnitude("2147483648", 0, 9) == 214748364 && Magnitude("2147483648", 0, 10) == 2147483648
  {
    var w := "2147483648";
    assert Magnitude(w, 0, 3) == 214;
    assert Magnitude(w, 0, 6) == 214748;
  }

  lemma PositiveTail(text: string, f: nat, scale: nat)
    requires f + 11 == |text| && text[f] == 'e' && text[f + 1..f + 11] == "2147483648" && scale > 214748055
    ensures TailWraps(text, f, scale)
  {
    hide Magnitude, Capped, Held;
    var w := "2147483648";
    var u := f + 1;
    assert text[u] == w[0];
    ValueMoves(text, u, w, 9);
    ValueMoves(text, u, w, 10);
    GreatExponent();
    DigitsEndIs(text, u, u + 10);
    HeldBelow(text, u, u + 10);
  }

  /** A fraction of many zeros makes the bound or the accumulator of a positive exponent leave 32 bits. */
  lemma LongFractionWraps(n: nat, big: Overflow)
    requires n > 214748055
    ensures var text := "0." + Zeros(n) + "e2147483648";
      Moves(text, big, n) && !NegativeExponent(text, big) && NumberWraps(text, 0, big)
  {
    hide MantissaOf, TailWraps;
    var tail := "e2147483648";
    var text := "0." + Zeros(n) + tail;
    ZeroFraction(text, n, tail, big);
    assert Peek(text, n + 2 + 0) == Peek(tail, 0) && Peek(text, n + 2 + 1) == Peek(tail, 1);
    assert text[n + 3..n + 13] == "2147483648";
    PositiveTail(text, n + 2, n);
  }

  lemma GreatNegative()
    ensures Capped("2147483639", 0, 10) == 2147483639
  {
    var w := "2147483639";
    assert Capped(w, 0, 3) == 214;
    assert Capped(w, 0, 6) == 214748;
    assert Capped(w, 0, 9) == 214748363;
  }

  lemma NegativeTail(text: string, f: nat, scale: nat)
    requires f + 12 == |text| && text[f] == 'e' && text[f + 1] == '-' && text[f + 2..f + 12] == "2147483639"
      && scale > 9
    ensures TailWraps(text, f, scale)
  {
    hide Magnitude, Capped;
    ValueMoves(text, f + 2, "2147483639", 10);
    GreatNegative();
    DigitsEndIs(text, f + 2, f + 12);
    assert text[f + 2] == "2147483639"[0];
  }

  /** Ten digits of a fraction are enough for the sum with a negative exponent. */
  lemma SumWraps(n: nat, big: Overflow)
    requires n > 9
    ensures var text := "0." + Zeros(n) + "e-2147483639";
      Moves(text, big, n) && NegativeExponent(text, big) && NumberWraps(text, 0, big)
  {
    hide MantissaOf, TailWraps;
    var tail := "e-2147483639";
    var text := "0." + Zeros(n) + tail;
    ZeroFraction(text, n, tail, big);
    assert text[n + 4..n + 14] == "2147483639";
    NegativeTail(text, n + 2, n);
  }

  /** Some number whose fraction moves the exponent by `scale` digits makes the code leave 32 bits if and only if these
      are more than nine; with a positive exponent, if and only if they are more than 214748055. */
  lemma SomeNumberWraps(scale: nat, big: Overflow)
    ensures (exists text :: Moves(text, big, scale) && NumberWraps(text, 0, big)) <==> scale > 9
    ensures (exists text :: Moves(text, big, scale) && !NegativeExponent(text, big) && NumberWraps(text, 0, big))
       <==> scale > 214748055
  {
    hide NumberWraps, MantissaOf;
    if scale > 214748055 { LongFractionWraps(scale, big); }
    if scale > 9 { SumWraps(scale, big); }
    forall text: string | Moves(text, big, scale) && NumberWraps(text, 0, big)
      ensures scale > if Peek(text, MantissaOf(text, 0, big).end + 1) == '-' then 9 else 214748055
    {
      ShortFractionsAreSafe(text, 0, big);
    }
  }

  /** A number of 24 characters that leaves 32 bits. */
  lemma ShortTextWraps(big: Overflow)
    ensures NumberWraps("1.0000000000e-2147483639", 0, big)
  {
    hide MantissaOf, TailWraps;
    var text := "1.0000000000e-2147483639";
    assert |text| == 24 && text[14..24] == "2147483639";
    TenZeros(text, big);
    NegativeTail(text, 12, 10);
  }

  lemma TenZeros(text: string, big: Overflow)
    requires |text| > 12 && text[0] == '1' && text[1] == '.' && (forall i :: 2 <= i < 12 ==> text[i] == '0')
    requires !DigitAt(text, 12)
    ensures MantissaOf(text, 0, big) == Mantissa(12, 10)
  {
    hide Magnitude, Kept;
    DigitsEndIs(text, 0, 1);
    DigitsEndIs(text, 2, 12);
    OneFollowedByZeros(text);
  }

  lemma OneFollowedByZeros(text: string)
    requires |text| >= 12 && text[0] == '1' && forall i :: 2 <= i < 12 ==> text[i] == '0'
    ensures Magnitude(text, 0, 1) == 1 && Kept(text, 2, 12, 1, 0) == 10
  {
    hide Kept;
    assert Magnitude(text, 0, 0) == 0;
    ZeroKept(text, 2, 1, 0);
    ZeroKept(text, 3, 10, 1);
    ZeroKept(text, 4, 100, 2);
    ZeroKept(text, 5, 1000, 3);
    ZeroKept(text, 6, 10000, 4);
    ZeroKept(text, 7, 100000, 5);
    ZeroKept(text, 8, 1000000, 6);
    ZeroKept(text, 9, 10000000, 7);
    ZeroKept(text, 10, 100000000, 8);
    ZeroKept(text, 11, 1000000000, 9);
  }

  lemma ZeroKept(text: string, k: nat, m: nat, significant: nat)
    requires k < 12 <= |text| && (forall i :: k <= i < 12 ==> text[i] == '0') && 0 < m < 0x20_0000_0000_0000
    ensures Kept(text, k, 12, m, significant)
         == 1 + if k == 11 then 0 else Kept(text, k + 1, 12, m * 10, significant + 1)
  {
    NoneKept(text, m * 10, significant + 1);
    assert text[k] == '0' && Digit(text[k]) == 0;
  }

  lemma NoneKept(text: string, m: nat, significant: nat)
    requires |text| >= 12
    ensures Kept(text, 12, 12, m, significant) == 0
  {
  }
}
