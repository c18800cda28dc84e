/** How the writer turns integers into digits: two at a time from a table, without a loop. */
module JsonItoa {

  /** The decimal digits of a number. */
  function Decimal(n: nat): (d: string)
    ensures d != ""
  {
    if n < 10 then [DigitChar(n)] else Decimal(n / 10) + [DigitChar(n % 10)]
  }

  function DigitChar(d: nat): char
    requires d < 10
  {
    (d + '0' as nat) as char
  }

  function IntegerText(i: int): string {
    if i < 0 then "-" + Decimal(-i) else Decimal(i)
  }

  /** The last four digits of a number. */
  function Four(v: nat): (d: string)
    ensures |d| == 4
  {
    [DigitChar(v / 1000 % 10), DigitChar(v / 100 % 10), DigitChar(v / 10 % 10), DigitChar(v % 10)]
  }

  /** The table of the digits of 0 to 99, two each. */
  const LUT := seq(200, i requires 0 <= i < 200 => DigitChar(if i % 2 == 0 then i / 20 else i / 2 % 10))

  lemma Pair(k: nat)
    requires k < 100
    ensures LUT[k * 2] == DigitChar(k / 10) && LUT[k * 2 + 1] == DigitChar(k % 10)
  {
  }

  /** A number below ten thousand in decimal is its four digits without the leading zeros. */
  lemma ShortDecimal(v: nat)
    requires v < 10000
    ensures v >= 1000 ==> Decimal(v) == Four(v)
    ensures 100 <= v < 1000 ==> Decimal(v) == Four(v)[1..]
    ensures 10 <= v < 100 ==> Decimal(v) == Four(v)[2..]
    ensures v < 10 ==> Decimal(v) == Four(v)[3..]
  {
    hide DigitChar;
    Places(v);
    SmallQuotient(v / 1000);
    assert v >= 10 ==> Decimal(v) == Decimal(v / 10) + [DigitChar(v % 10)];
    assert v >= 100 ==> Decimal(v / 10) == Decimal(v / 100) + [DigitChar(v / 10 % 10)];
    assert v >= 1000 ==> Decimal(v / 100) == Decimal(v / 1000) + [DigitChar(v / 100 % 10)];
  }

  lemma SmallQuotient(d: nat)
    requires d < 10
    ensures d % 10 == d && Decimal(d) == [DigitChar(d)]
  {
  }

  lemma By10(q: nat, r: nat)
    requires r < 10
    ensures (q * 10 + r) / 10 == q && (q * 10 + r) % 10 == r
  {
  }

  lemma By100(q: nat, r: nat)
    requires r < 100
    ensures (q * 100 + r) / 100 == q && (q * 100 + r) % 100 == r
  {
  }

  lemma By1000(q: nat, r: nat)
    requires r < 1000
    ensures (q * 1000 + r) / 1000 == q
  {
  }

  /** Decimal places, one after the other. */
  lemma Places(v: nat)
    ensures v / 10 / 10 == v / 100 && v / 100 / 10 == v / 1000
    ensures v % 100 / 10 == v / 10 % 10 && v % 100 % 10 == v % 10
    ensures v < 10000 ==> v / 1000 < 10
  {
    var a, d0 := v / 10, v % 10;
    var b, d1 := a / 10, a % 10;
    var c, d2 := b / 10, b % 10;
    assert v == b * 100 + (d1 * 10 + d0);
    By100(b, d1 * 10 + d0);
    By10(d1, d0);
    assert v == c * 1000 + (d2 * 100 + d1 * 10 + d0);
    By1000(c, d2 * 100 + d1 * 10 + d0);
  }

  /** Ten thousands and the four digits behind them. */
  lemma SplitFour(n: nat)
    requires n >= 10000
    ensures Decimal(n) == Decimal(n / 10000) + Four(n % 10000)
  {
    var a, b, c := n / 10, n / 100, n / 1000;
    assert a / 10 == b && b / 10 == c && c / 10 == n / 10000;
    FourOfRest(n);
    assert Decimal(n) == Decimal(a) + [DigitChar(n % 10)];
    assert Decimal(a) == Decimal(b) + [DigitChar(a % 10)];
    assert Decimal(b) == Decimal(c) + [DigitChar(b % 10)];
    assert Decimal(c) == Decimal(n / 10000) + [DigitChar(c % 10)];
  }

  lemma FourOfRest(n: nat)
    ensures Four(n % 10000) == Four(n)
  {
    var q, r := n / 10000, n % 10000;
    assert n == q * 10000 + r;
    Thousands(q, r);
    HundredsOf(q, r);
    Tens(q, r);
  }

  lemma Thousands(q: nat, r: nat)
    ensures (q * 10000 + r) / 1000 % 10 == r / 1000 % 10
  {
    var a, d := r / 1000, r % 1000;
    assert q * 10000 + r == (q * 10 + a) * 1000 + d;
    By1000(q * 10 + a, d);
    assert q * 10 + a == (q + a / 10) * 10 + a % 10;
    By10(q + a / 10, a % 10);
  }

  lemma HundredsOf(q: nat, r: nat)
    ensures (q * 10000 + r) / 100 % 10 == r / 100 % 10
  {
    var a, d := r / 100, r % 100;
    assert q * 10000 + r == (q * 100 + a) * 100 + d;
    By100(q * 100 + a, d);
    assert q * 100 + a == (q * 10 + a / 10) * 10 + a % 10;
    By10(q * 10 + a / 10, a % 10);
  }

  lemma Tens(q: nat, r: nat)
    ensures (q * 10000 + r) / 10 % 10 == r / 10 % 10 && (q * 10000 + r) % 10 == r % 10
  {
    var a, d := r / 10, r % 10;
    assert q * 10000 + r == (q * 1000 + a) * 10 + d;
    By10(q * 1000 + a, d);
    assert q * 1000 + a == (q * 100 + a / 10) * 10 + a % 10;
    By10(q * 100 + a / 10, a % 10);
  }

  /** Eight digits. */
  function Eight(v: nat): (d: string)
    ensures |d| == 8
  {
    Four(v / 10000) + Four(v)
  }

  lemma SplitEight(n: nat)
    requires n >= 1_0000_0000
    ensures Decimal(n) == Decimal(n / 1_0000_0000) + Eight(n % 1_0000_0000)
  {
    var q, r := n / 1_0000_0000, n % 1_0000_0000;
    assert n / 10000 == q * 10000 + r / 10000 && n / 10000 / 10000 == q && n / 10000 % 10000 == r / 10000;
    assert n % 10000 == r % 10000;
    SplitFour(n);
    SplitFour(n / 10000);
    FourOfRest(r);
    assert Decimal(q) + Four(r / 10000) + Four(r) == Decimal(q) + Eight(r);
  }

  /** Numbers of up to eight digits that have more than four. */
  lemma UpToEight(n: nat)
    requires 10000 <= n < 1_0000_0000
    ensures Decimal(n) == Decimal(n / 10000) + Four(n)
  {
    SplitFour(n);
    FourOfRest(n);
  }

  // ---- The buffer

  /** Two digits of a pair, each if it is wanted. */
  method PutPair(buffer: array<char>, p: nat, k: nat, tens: bool, ones: bool) returns (end: nat)
    requires k < 100 && p + 2 <= buffer.Length && (tens ==> ones)
    modifies buffer
    ensures end == p + (if tens then 2 else if ones then 1 else 0)
    ensures buffer[..end] == old(buffer[..p]) + [DigitChar(k / 10), DigitChar(k % 10)][2 - (end - p)..]
  {
    Pair(k);
    var d := k * 2;
    end := p;
    if tens {
      buffer[end] := LUT[d];
      end := end + 1;
    }
    if ones {
      buffer[end] := LUT[d + 1];
      end := end + 1;
    }
  }

  /** The last `count` of the four digits of a number. */
  method PutFour(buffer: array<char>, p: nat, v: nat, count: nat) returns (end: nat)
    requires v < 10000 && p + 4 <= buffer.Length && count <= 4
    modifies buffer
    ensures end == p + count
    ensures buffer[..end] == old(buffer[..p]) + Four(v)[4 - count..]
  {
    ghost var before := buffer[..p];
    PairsOfFour(v);
    end := PutPair(buffer, p, v / 100, count >= 4, count >= 3);
    ghost var middle := buffer[..end];
    end := PutPair(buffer, end, v % 100, count >= 2, count >= 1);
    JoinPairs(before, middle, buffer[..end], v, count);
  }

  lemma PairsOfFour(v: nat)
    requires v < 10000
    ensures Four(v) == [DigitChar(v / 100 / 10), DigitChar(v / 100 % 10), DigitChar(v % 100 / 10),
      DigitChar(v % 100 % 10)]
  {
    hide DigitChar;
    Places(v);
    SmallQuotient(v / 1000);
  }

  lemma JoinPairs(before: string, middle: string, after: string, v: nat, count: nat)
    requires v < 10000 && count <= 4
    requires var first := if count >= 4 then 2 else if count >= 3 then 1 else 0;
      middle == before + [DigitChar(v / 100 / 10), DigitChar(v / 100 % 10)][2 - first..]
    requires var second := if count >= 2 then 2 else count;
      after == middle + [DigitChar(v % 100 / 10), DigitChar(v % 100 % 10)][2 - second..]
    ensures after == before + Four(v)[4 - count..]
  {
    PairsOfFour(v);
  }

  /** How many of four digits a value reaches, the lowest of which counts units. */
  function Reached(value: nat, units: nat): (count: nat)
    ensures count <= 4
  {
    if value >= 1000 * units then 4 else if value >= 100 * units then 3 else if value >= 10 * units then 2
    else if value >= units then 1 else 0
  }

  lemma ShortByCount(v: nat)
    requires v < 10000
    ensures Decimal(v) == Four(v)[4 - (if v < 10 then 1 else Reached(v, 1))..]
  {
    ShortDecimal(v);
  }

  lemma CountOfHigh(v: nat)
    requires 10000 <= v < 1_0000_0000
    ensures v >= 100000 ==> Reached(v, 10000) == Reached(v / 10000, 1)
    ensures v < 100000 <==> v / 10000 < 10
  {
  }

  /** A number below ten thousand, its leading zeros left out but not its last digit. */
  method PutShort(buffer: array<char>, p: nat, v: nat) returns (end: nat)
    requires v < 10000 && p + 4 <= buffer.Length
    modifies buffer
    ensures end <= p + 4 && buffer[..end] == old(buffer[..p]) + Decimal(v)
  {
    hide Decimal, Four;
    ShortByCount(v);
    end := PutFour(buffer, p, v, if v < 10 then 1 else Reached(v, 1));
  }

  method PutEight(buffer: array<char>, p: nat, v: nat) returns (end: nat)
    requires v < 1_0000_0000 && p + 8 <= buffer.Length
    modifies buffer
    ensures end == p + 8 && buffer[..end] == old(buffer[..p]) + Eight(v)
  {
    ghost var before := buffer[..p];
    FourOfRest(v);
    end := PutFour(buffer, p, v / 10000, 4);
    end := PutFour(buffer, end, v % 10000, 4);
    assert before + Four(v / 10000) + Four(v) == before + Eight(v);
  }

  /** A number of up to eight digits. */
  method PutUpToEight(buffer: array<char>, p: nat, v: nat) returns (end: nat)
    requires v < 1_0000_0000 && p + 8 <= buffer.Length
    modifies buffer
    ensures end <= p + 8 && buffer[..end] == old(buffer[..p]) + Decimal(v)
  {
    if v < 10000 {
      end := PutShort(buffer, p, v);
    } else {
      hide Decimal, Four, Reached;
      ghost var before := buffer[..p];
      var b, c := v / 10000, v % 10000;
      ShortByCount(b);
      CountOfHigh(v);
      UpToEight(v);
      FourOfRest(v);
      end := PutFour(buffer, p, b, if v < 100000 then 1 else Reached(v, 10000));
      end := PutFour(buffer, end, c, 4);
      assert before + Decimal(b) + Four(v) == before + Decimal(v);
    }
  }

  lemma TwoDigits(a: nat)
    requires a < 100
    ensures Decimal(a) == if a < 10 then [DigitChar(a)] else [DigitChar(a / 10), DigitChar(a % 10)]
  {
  }

  /** One or two digits. */
  method PutOneOrTwo(buffer: array<char>, p: nat, a: nat) returns (end: nat)
    requires a < 100 && p + 2 <= buffer.Length
    modifies buffer
    ensures end <= p + 2 && buffer[..end] == old(buffer[..p]) + Decimal(a)
  {
    hide Decimal;
    TwoDigits(a);
    if a >= 10 {
      end := PutBoth(buffer, p, a);
    } else {
      end := PutDigit(buffer, p, a);
    }
  }

  /** `u32toa`: ten characters are enough. */
  method U32ToA(value: nat, buffer: array<char>, p: nat) returns (end: nat)
    requires value < 0x1_0000_0000 && p + 10 <= buffer.Length
    modifies buffer
    ensures end <= p + 10 && buffer[..end] == old(buffer[..p]) + Decimal(value)
  {
    hide Decimal, Eight;
    if value < 1_0000_0000 {
      end := PutUpToEight(buffer, p, value);
    } else {
      ghost var before := buffer[..p];
      var a, rest := value / 1_0000_0000, value % 1_0000_0000;
      SplitEight(value);
      end := PutOneOrTwo(buffer, p, a);
      end := PutEight(buffer, end, rest);
      assert before + Decimal(a) + Eight(rest) == before + (Decimal(a) + Eight(rest));
    }
  }

  /** Up to eight digits above the last eight of a value. */
  method PutHigh(buffer: array<char>, p: nat, value: nat) returns (end: nat)
    requires 1_0000_0000 <= value < 1_0000_0000_0000_0000 && p + 8 <= buffer.Length
    modifies buffer
    ensures end <= p + 8 && buffer[..end] == old(buffer[..p]) + Decimal(value / 1_0000_0000)
  {
    hide Decimal, Four, Reached;
    ghost var before := buffer[..p];
    var v0 := value / 1_0000_0000;
    var b0, c0 := v0 / 10000, v0 % 10000;
    var high := Reached(value, 1_0000_0000_0000);
    var low := Reached(value, 1_0000_0000);
    Heights(value);
    HighDigits(v0);
    end := PutFour(buffer, p, b0, high);
    end := PutFour(buffer, end, c0, low);
    assert before + Four(b0)[4 - high..] + Four(c0)[4 - low..] == before + (Four(b0)[4 - high..] + Four(c0)[4 - low..]);
  }

  /** The digits that a number of up to eight reaches are its decimal digits. */
  lemma HighDigits(v0: nat)
    requires 1 <= v0 < 1_0000_0000
    ensures var b0, c0 := v0 / 10000, v0 % 10000;
      Decimal(v0) == Four(b0)[4 - Reached(b0, 1)..] + Four(c0)[4 - Reached(v0, 1)..]
  {
    hide Decimal, Four;
    var b0, c0 := v0 / 10000, v0 % 10000;
    if v0 >= 10000 {
      ShortByCount(b0);
      UpToEight(v0);
      FourOfRest(v0);
      assert Reached(v0, 1) == 4 && Four(c0)[0..] == Four(c0);
    } else {
      ShortByCount(v0);
      assert Four(b0)[4..] == "" && "" + Four(c0)[4 - Reached(v0, 1)..] == Four(c0)[4 - Reached(v0, 1)..];
    }
  }

  lemma Heights(value: nat)
    requires 1_0000_0000 <= value < 1_0000_0000_0000_0000
    ensures var v0 := value / 1_0000_0000;
      && Reached(value, 1_0000_0000_0000) == Reached(v0 / 10000, 1)
      && Reached(value, 1_0000_0000) == Reached(v0, 1) >= 1
  {
  }

  /** The first one to four digits of a value of more than sixteen. */
  method PutTop(buffer: array<char>, p: nat, a: nat) returns (end: nat)
    requires 1 <= a < 10000 && p + 4 <= buffer.Length
    modifies buffer
    ensures end <= p + 4 && buffer[..end] == old(buffer[..p]) + Decimal(a)
  {
    hide Decimal;
    ghost var before := buffer[..p];
    if a < 100 {
      end := PutOneOrTwo(buffer, p, a);
    } else if a < 1000 {
      hide DigitChar;
      ThreeDigits(a);
      end := PutDigit(buffer, p, a / 100);
      end := PutBoth(buffer, end, a % 100);
      Rejoin(before, [DigitChar(a / 100)], [DigitChar(a % 100 / 10), DigitChar(a % 100 % 10)]);
    } else {
      hide DigitChar;
      FourDigits(a);
      end := PutBoth(buffer, p, a / 100);
      end := PutBoth(buffer, end, a % 100);
      Rejoin(before, [DigitChar(a / 100 / 10), DigitChar(a / 100 % 10)],
        [DigitChar(a % 100 / 10), DigitChar(a % 100 % 10)]);
    }
  }

  method PutDigit(buffer: array<char>, p: nat, d: nat) returns (end: nat)
    requires d < 10 && p < buffer.Length
    modifies buffer
    ensures end == p + 1 && buffer[..end] == old(buffer[..p]) + [DigitChar(d)]
  {
    buffer[p] := DigitChar(d);
    end := p + 1;
  }

  /** Both digits of a pair. */
  method PutBoth(buffer: array<char>, p: nat, k: nat) returns (end: nat)
    requires k < 100 && p + 2 <= buffer.Length
    modifies buffer
    ensures end == p + 2 && buffer[..end] == old(buffer[..p]) + [DigitChar(k / 10), DigitChar(k % 10)]
  {
    end := PutPair(buffer, p, k, true, true);
  }

  lemma Rejoin(a: string, b: string, c: string)
    ensures a + b + c == a + (b + c)
  {
  }

  lemma ThreeDigits(a: nat)
    requires 100 <= a < 1000
    ensures Decimal(a) == [DigitChar(a / 100)] + [DigitChar(a % 100 / 10), DigitChar(a % 100 % 10)]
  {
    hide DigitChar;
    ShortDecimal(a);
    PairsOfFour(a);
    SmallQuotient(a / 100);
  }

  lemma FourDigits(a: nat)
    requires 1000 <= a < 10000
    ensures Decimal(a)
         == [DigitChar(a / 100 / 10), DigitChar(a / 100 % 10)] + [DigitChar(a % 100 / 10), DigitChar(a % 100 % 10)]
  {
    hide DigitChar;
    ShortDecimal(a);
    PairsOfFour(a);
  }

  /** `u64toa`: twenty characters are enough. */
  method U64ToA(value: nat, buffer: array<char>, p: nat) returns (end: nat)
    requires value < 0x1_0000_0000_0000_0000 && p + 20 <= buffer.Length
    modifies buffer
    ensures end <= p + 20 && buffer[..end] == old(buffer[..p]) + Decimal(value)
  {
    hide Decimal, Eight;
    ghost var before := buffer[..p];
    if value < 1_0000_0000 {
      end := PutUpToEight(buffer, p, value);
    } else if value < 1_0000_0000_0000_0000 {
      SplitEight(value);
      end := PutHigh(buffer, p, value);
      end := PutEight(buffer, end, value % 1_0000_0000);
      assert before + Decimal(value / 1_0000_0000) + Eight(value % 1_0000_0000)
          == before + (Decimal(value / 1_0000_0000) + Eight(value % 1_0000_0000));
    } else {
      var a, rest := value / 1_0000_0000_0000_0000, value % 1_0000_0000_0000_0000;
      SplitSixteen(value);
      end := PutTop(buffer, p, a);
      end := PutEight(buffer, end, rest / 1_0000_0000);
      end := PutEight(buffer, end, rest % 1_0000_0000);
      assert before + Decimal(a) + Eight(rest / 1_0000_0000) + Eight(rest % 1_0000_0000)
          == before + (Decimal(a) + Eight(rest / 1_0000_0000) + Eight(rest % 1_0000_0000));
    }
  }

  lemma SplitSixteen(n: nat)
    requires n >= 1_0000_0000_0000_0000
    ensures var a, rest := n / 1_0000_0000_0000_0000, n % 1_0000_0000_0000_0000;
      Decimal(n) == Decimal(a) + Eight(rest / 1_0000_0000) + Eight(rest % 1_0000_0000)
  {
    var a, rest := n / 1_0000_0000_0000_0000, n % 1_0000_0000_0000_0000;
    var m := n / 1_0000_0000;
    assert n == a * 1_0000_0000_0000_0000 + rest;
    assert m == a * 1_0000_0000 + rest / 1_0000_0000;
    assert m / 1_0000_0000 == a && m % 1_0000_0000 == rest / 1_0000_0000;
    assert n % 1_0000_0000 == rest % 1_0000_0000;
    SplitEight(n);
    SplitEight(m);
  }

  method PutMinus(buffer: array<char>, p: nat) returns (end: nat)
    requires p < buffer.Length
    modifies buffer
    ensures end == p + 1 && buffer[..end] == old(buffer[..p]) + "-"
  {
    buffer[p] := '-';
    end := p + 1;
  }

  /** The two's complement of a negative value's bits is its magnitude. */
  function Complement32(value: int): (u: int)
    requires -0x8000_0000 <= value < 0
    ensures u == -value
  {
    (0xFFFF_FFFF - value % 0x1_0000_0000 + 1) % 0x1_0000_0000
  }

  function Complement64(value: int): (u: int)
    requires -0x8000_0000_0000_0000 <= value < 0
    ensures u == -value
  {
    (0xFFFF_FFFF_FFFF_FFFF - value % 0x1_0000_0000_0000_0000 + 1) % 0x1_0000_0000_0000_0000
  }

  /** `i32toa`: the magnitude is the two's complement of a negative value; eleven characters are enough. */
  method I32ToA(value: int, buffer: array<char>, p: nat) returns (end: nat)
    requires -0x8000_0000 <= value < 0x8000_0000 && p + 11 <= buffer.Length
    modifies buffer
    ensures end <= p + 11 && buffer[..end] == old(buffer[..p]) + IntegerText(value)
  {
    hide Decimal;
    if value < 0 {
      end := PutMinus(buffer, p);
      end := U32ToA(Complement32(value), buffer, end);
      Rejoin(old(buffer[..p]), "-", Decimal(-value));
    } else {
      end := U32ToA(value, buffer, p);
    }
  }

  /** `i64toa`: twenty-one characters are enough. */
  method I64ToA(value: int, buffer: array<char>, p: nat) returns (end: nat)
    requires -0x8000_0000_0000_0000 <= value < 0x8000_0000_0000_0000 && p + 21 <= buffer.Length
    modifies buffer
    ensures end <= p + 21 && buffer[..end] == old(buffer[..p]) + IntegerText(value)
  {
    hide Decimal;
    if value < 0 {
      end := PutMinus(buffer, p);
      end := U64ToA(Complement64(value), buffer, end);
      Rejoin(old(buffer[..p]), "-", Decimal(-value));
    } else {
      end := U64ToA(value, buffer, p);
    }
  }
}
