/** How far apart two flipped bits may be for CRC16 to catch them: the order of x modulo its generator. */
module SdCrcDistance {
  import opened PolynomialCrc
  import opened SdCrc

  // ---------- Powers of x modulo the generator ----------

  function Shift(r: bv16): bv16 {
    Shift16(r, false)
  }

  /** The register after `n` zero bits. */
  function Shifted(r: bv16, n: nat): bv16 {
    if n == 0 then r else Shift(Shifted(r, n - 1))
  }

  /** The remainder of x^n. */
  function Power(n: nat): bv16 {
    Shifted(1, n)
  }

  lemma ShiftIsStep(r: bv16)
    ensures Bits16(Shift(r)) == Step(G16, Bits16(r), false)
  {
    hide Bits16, Shift16;
    Shift16IsStep(r, false);
  }

  lemma ShiftLinear(a: bv16, b: bv16)
    ensures Shift(Sum16(a, b)) == Sum16(Shift(a), Shift(b))
  {
    hide Bits16, Shift, Sum16, Step;
    ShiftIsStep(a);
    ShiftIsStep(b);
    ShiftIsStep(Sum16(a, b));
    XorBits(a, b);
    XorBits(Shift(a), Shift(b));
    StepLinear(G16, Bits16(a), Bits16(b));
    Bits16Injective(Shift(Sum16(a, b)), Sum16(Shift(a), Shift(b)));
  }

  lemma ShiftInjective(a: bv16, b: bv16)
    requires Shift(a) == Shift(b)
    ensures a == b
  {
    hide Bits16, Shift, Step;
    ShiftIsStep(a);
    ShiftIsStep(b);
    StepInjective(G16, Bits16(a), Bits16(b), false);
    Bits16Injective(a, b);
  }

  lemma {:induction false} ShiftedLinear(a: bv16, b: bv16, n: nat)
    ensures Shifted(Sum16(a, b), n) == Sum16(Shifted(a, n), Shifted(b, n))
  {
    if n > 0 {
      hide Shift, Sum16;
      ShiftedLinear(a, b, n - 1);
      ShiftLinear(Shifted(a, n - 1), Shifted(b, n - 1));
    }
  }

  lemma {:induction false} ShiftedInjective(a: bv16, b: bv16, n: nat)
    requires Shifted(a, n) == Shifted(b, n)
    ensures a == b
  {
    if n > 0 {
      hide Shift;
      ShiftInjective(Shifted(a, n - 1), Shifted(b, n - 1));
      ShiftedInjective(a, b, n - 1);
    }
  }

  lemma {:induction false} ShiftedTwice(r: bv16, m: nat, n: nat)
    ensures Shifted(r, m + n) == Shifted(Shifted(r, m), n)
  {
    if n > 0 {
      hide Shift;
      ShiftedTwice(r, m, n - 1);
    }
  }

  lemma ShiftedOnce(r: bv16)
    ensures Shifted(r, 1) == Shift(r)
  {
    hide Shift;
    assert Shifted(r, 0) == r;
  }

  // ---------- Products, to compute large powers quickly ----------

  function TimesStep(acc: bv16, bit: bool, b: bv16): bv16 {
    if bit then Sum16(Shift(acc), b) else Shift(acc)
  }

  function Half(a: bv16): bv16 {
    a >> 1
  }

  predicate Odd(a: bv16) {
    a & 1 != 0
  }

  /** The product of two remainders, coefficient by coefficient from the highest. */
  function Times(a: bv16, b: bv16): bv16 {
    var a1 := Half(a);
    var a2 := Half(a1);
    var a3 := Half(a2);
    var a4 := Half(a3);
    var a5 := Half(a4);
    var a6 := Half(a5);
    var a7 := Half(a6);
    var a8 := Half(a7);
    var a9 := Half(a8);
    var a10 := Half(a9);
    var a11 := Half(a10);
    var a12 := Half(a11);
    var a13 := Half(a12);
    var a14 := Half(a13);
    var a15 := Half(a14);
    var t15 := TimesStep(0, Odd(a15), b);
    var t14 := TimesStep(t15, Odd(a14), b);
    var t13 := TimesStep(t14, Odd(a13), b);
    var t12 := TimesStep(t13, Odd(a12), b);
    var t11 := TimesStep(t12, Odd(a11), b);
    var t10 := TimesStep(t11, Odd(a10), b);
    var t9 := TimesStep(t10, Odd(a9), b);
    var t8 := TimesStep(t9, Odd(a8), b);
    var t7 := TimesStep(t8, Odd(a7), b);
    var t6 := TimesStep(t7, Odd(a6), b);
    var t5 := TimesStep(t6, Odd(a5), b);
    var t4 := TimesStep(t5, Odd(a4), b);
    var t3 := TimesStep(t4, Odd(a3), b);
    var t2 := TimesStep(t3, Odd(a2), b);
    var t1 := TimesStep(t2, Odd(a1), b);
    TimesStep(t1, Odd(a), b)
  }

  lemma HalfClear(a: bv16)
    ensures Shift(Half(a)) == Half(a) << 1
  {
  }

  lemma HalfAndOdd(a: bv16)
    ensures a == if Odd(a) then Sum16(Half(a) << 1, 1) else Half(a) << 1
  {
  }

  /** The lowest coefficient behind the others, and then `n` zero bits. */
  lemma TimesNext(a: bv16, n: nat)
    ensures Shifted(a, n) == TimesStep(Shifted(Half(a), n), Odd(a), Power(n))
  {
    HalfClear(a);
    HalfAndOdd(a);
    hide Shift, Half, Odd, Sum16;
    ShiftedOnce(Half(a));
    ShiftedOnce(Shifted(Half(a), n));
    ShiftedTwice(Half(a), 1, n);
    ShiftedTwice(Half(a), n, 1);
    ShiftedLinear(Half(a) << 1, 1, n);
  }

  lemma {:induction false} ZeroShifted(n: nat)
    ensures Shifted(0, n) == 0
  {
    if n > 0 {
      ZeroShifted(n - 1);
    }
  }

  lemma AllHalves(a: bv16)
    ensures Half(Half(Half(Half(Half(Half(Half(Half(
              Half(Half(Half(Half(Half(Half(Half(Half(a)))))))))))))))) == 0
  {
  }

  /** Multiplying by x^n is the same as `n` zero bits. */
  lemma TimesPower(a: bv16, n: nat)
    ensures Times(a, Power(n)) == Shifted(a, n)
  {
    AllHalves(a);
    hide TimesStep, Shifted, Power, Half, Odd;
    TimesNext(a, n);
    var a1 := Half(a);
    TimesNext(a1, n);
    var a2 := Half(a1);
    TimesNext(a2, n);
    var a3 := Half(a2);
    TimesNext(a3, n);
    var a4 := Half(a3);
    TimesNext(a4, n);
    var a5 := Half(a4);
    TimesNext(a5, n);
    var a6 := Half(a5);
    TimesNext(a6, n);
    var a7 := Half(a6);
    TimesNext(a7, n);
    var a8 := Half(a7);
    TimesNext(a8, n);
    var a9 := Half(a8);
    TimesNext(a9, n);
    var a10 := Half(a9);
    TimesNext(a10, n);
    var a11 := Half(a10);
    TimesNext(a11, n);
    var a12 := Half(a11);
    TimesNext(a12, n);
    var a13 := Half(a12);
    TimesNext(a13, n);
    var a14 := Half(a13);
    TimesNext(a14, n);
    var a15 := Half(a14);
    TimesNext(a15, n);
    ZeroShifted(n);
  }

  lemma PowerOne()
    ensures Power(1) == 2
  {
    ShiftedOnce(1);
  }

  /** Twice the exponent, and one more if wanted. */
  lemma Doubled(n: nat, p: bv16, odd: bool, q: bv16)
    requires Power(n) == p && q == if odd then Shift(Times(p, p)) else Times(p, p)
    ensures Power(if odd then 2 * n + 1 else 2 * n) == q
  {
    hide Times, Shift;
    TimesPower(p, n);
    ShiftedTwice(1, n, n);
    ShiftedTwice(1, n + n, 1);
    ShiftedOnce(Power(n + n));
  }

  lemma Power32767()
    ensures Power(32767) == 0x0001
  {
    PowerOne();
    Doubled(1, 0x0002, true, 0x0008);
    Doubled(3, 0x0008, true, 0x0080);
    Doubled(7, 0x0080, true, 0x8000);
    Doubled(15, 0x8000, true, 0x1B98);
    Doubled(31, 0x1B98, true, 0xD420);
    Doubled(63, 0xD420, true, 0x577E);
    Doubled(127, 0x577E, true, 0xCF04);
    Doubled(255, 0xCF04, true, 0x09FE);
    Doubled(511, 0x09FE, true, 0x1B62);
    Doubled(1023, 0x1B62, true, 0x7EA8);
    Doubled(2047, 0x7EA8, true, 0x554F);
    Doubled(4095, 0x554F, true, 0x440E);
    Doubled(8191, 0x440E, true, 0x222C);
    Doubled(16383, 0x222C, true, 0x0001);
  }

  lemma Power4681()
    ensures Power(4681) == 0x2C42
  {
    PowerOne();
    Doubled(1, 0x0002, false, 0x0004);
    Doubled(2, 0x0004, false, 0x0010);
    Doubled(4, 0x0010, true, 0x0200);
    Doubled(9, 0x0200, false, 0x4084);
    Doubled(18, 0x4084, false, 0x4363);
    Doubled(36, 0x4363, true, 0x8FA6);
    Doubled(73, 0x8FA6, false, 0x4388);
    Doubled(146, 0x4388, false, 0x1396);
    Doubled(292, 0x1396, true, 0x4500);
    Doubled(585, 0x4500, false, 0x0163);
    Doubled(1170, 0x0163, false, 0x0424);
    Doubled(2340, 0x0424, true, 0x2C42);
  }

  lemma Power1057()
    ensures Power(1057) == 0xF2AF
  {
    PowerOne();
    Doubled(1, 0x0002, false, 0x0004);
    Doubled(2, 0x0004, false, 0x0010);
    Doubled(4, 0x0010, false, 0x0100);
    Doubled(8, 0x0100, false, 0x1021);
    Doubled(16, 0x1021, true, 0x6E60);
    Doubled(33, 0x6E60, false, 0xC1C6);
    Doubled(66, 0xC1C6, false, 0x4E8A);
    Doubled(132, 0x4E8A, false, 0x5946);
    Doubled(264, 0x5946, false, 0x78B3);
    Doubled(528, 0x78B3, true, 0xF2AF);
  }

  lemma Power217()
    ensures Power(217) == 0x48E3
  {
    PowerOne();
    Doubled(1, 0x0002, true, 0x0008);
    Doubled(3, 0x0008, false, 0x0040);
    Doubled(6, 0x0040, true, 0x2000);
    Doubled(13, 0x2000, true, 0x89A9);
    Doubled(27, 0x89A9, false, 0x1168);
    Doubled(54, 0x1168, false, 0x3750);
    Doubled(108, 0x3750, true, 0x48E3);
  }

  // ---------- The order of x ----------

  const ORDER := 32767 // 7 * 31 * 151

  lemma PowerDifference(a: nat, b: nat)
    requires Power(a) == 1 && Power(b) == 1 && b <= a
    ensures Power(a - b) == 1
  {
    ShiftedTwice(1, a - b, b);
    ShiftedInjective(Power(a - b), 1, b);
  }

  lemma {:induction false} PowerMultiple(m: nat, k: nat)
    requires Power(m) == 1
    ensures Power(m * k) == 1
  {
    if k == 0 {
      assert Power(0) == 1;
    } else {
      PowerMultiple(m, k - 1);
      ShiftedTwice(1, m * (k - 1), m);
      assert m * (k - 1) + m == m * k;
    }
  }

  lemma PowerRemainder(d: nat, m: nat)
    requires m > 0 && Power(m) == 1
    ensures Power(d) == 1 <==> Power(d % m) == 1
  {
    var k := d / m;
    assert d == m * k + d % m;
    PowerMultiple(m, k);
    ShiftedTwice(1, m * k, d % m);
  }

  /** The smallest exponent, up to one that is known, for which the power is 1. */
  lemma {:induction false} LeastPeriod(n: nat) returns (m: nat)
    requires n > 0 && Power(n) == 1
    ensures 0 < m <= n && Power(m) == 1
    ensures forall k :: 0 < k < m ==> Power(k) != 1
    decreases n
  {
    if k :| 0 < k < n && Power(k) == 1 {
      m := LeastPeriod(k);
    } else {
      m := n;
    }
  }

  /** Up to `n`, only these divide the order. */
  predicate FewDivisors(n: nat) {
    forall s :: 0 < s <= n && 32767 % s == 0 ==> s == 1 || s == 7 || s == 31 || s == 151
  }

  predicate Fine(s: nat) {
    s > 0 && (32767 % s != 0 || s == 1 || s == 7 || s == 31 || s == 151)
  }

  lemma TenMore(n: nat)
    requires FewDivisors(n)
    requires Fine(n + 1) && Fine(n + 2) && Fine(n + 3) && Fine(n + 4) && Fine(n + 5)
    requires Fine(n + 6) && Fine(n + 7) && Fine(n + 8) && Fine(n + 9) && Fine(n + 10)
    ensures FewDivisors(n + 10)
  {
  }

  /** 190 is beyond the root of the order. */
  lemma FewDivisors190()
    ensures FewDivisors(190)
  {
    FewDivisors140();
    hide FewDivisors;
    TenMore(140);
    TenMore(150);
    TenMore(160);
    TenMore(170);
    TenMore(180);
  }

  lemma FewDivisors140()
    ensures FewDivisors(140)
  {
    FewDivisors90();
    hide FewDivisors;
    TenMore(90);
    TenMore(100);
    TenMore(110);
    TenMore(120);
    TenMore(130);
  }

  lemma FewDivisors90()
    ensures FewDivisors(90)
  {
    assert FewDivisors(0);
    hide FewDivisors;
    TenMore(0);
    TenMore(10);
    TenMore(20);
    TenMore(30);
    TenMore(40);
    TenMore(50);
    TenMore(60);
    TenMore(70);
    TenMore(80);
  }

  lemma LargeProduct(m: nat, k: nat)
    requires m > 190 && k > 190
    ensures m * k > 36000
  {
    assert m * k >= 191 * k;
  }

  lemma Cofactor(m: nat) returns (k: nat)
    requires 0 < m && ORDER % m == 0
    ensures m * k == ORDER && k > 0 && ORDER % k == 0
  {
    k := ORDER / m;
    assert m * k == ORDER;
    Multiple(k, m);
  }

  lemma Multiple(k: nat, m: nat)
    requires k > 0
    ensures (m * k) % k == 0
  {
    var q, r := (m * k) / k, (m * k) % k;
    assert m * k == k * q + r;
    Distributes(k, m, q);
    Between(k, m - q);
  }

  lemma Distributes(k: int, m: int, q: int)
    ensures k * (m - q) == m * k - k * q
  {
  }

  lemma Between(k: nat, d: int)
    requires 0 <= k * d < k
    ensures d == 0
  {
    if d >= 1 {
      AtLeast(k, d);
    } else if d <= -1 {
      Negated(k, d);
      AtLeast(k, -d);
    }
  }

  lemma Negated(k: int, d: int)
    ensures k * -d == -(k * d)
  {
  }

  lemma AtLeast(k: nat, d: nat)
    requires d >= 1
    ensures k * d >= k
  {
  }

  /** A divisor of the order other than itself divides 217, 1057 or 4681. */
  lemma ProperDivisor(m: nat)
    requires 0 < m < ORDER && ORDER % m == 0
    ensures 217 % m == 0 || 1057 % m == 0 || 4681 % m == 0
  {
    FewDivisors190();
    var k := Cofactor(m);
    if m <= 190 {
      assert m == 1 || m == 7 || m == 31 || m == 151;
    } else {
      if k > 190 {
        LargeProduct(m, k);
        assert false;
      }
      assert k == 1 || k == 7 || k == 31 || k == 151;
    }
  }

  /** The powers of x repeat exactly after each 32767. */
  lemma OrderExact(d: nat)
    ensures Power(d) == 1 <==> d % ORDER == 0
  {
    Power32767();
    Power4681();
    Power1057();
    Power217();
    hide Power;
    var m := LeastPeriod(ORDER);
    PowerRemainder(ORDER, m);
    PowerRemainder(217, m);
    PowerRemainder(1057, m);
    PowerRemainder(4681, m);
    PowerRemainder(d, m);
    PowerZero();
    if m < ORDER {
      ProperDivisor(m);
    }
  }

  lemma PowerZero()
    ensures Power(0) == 1
  {
  }

  // ---------- Two flipped bits ----------

  lemma {:induction false} ShiftedIsRun(r: bv16, n: nat)
    ensures Bits16(Shifted(r, n)) == Run(G16, Bits16(r), Zeros(n))
  {
    hide Bits16, Shift;
    if n > 0 {
      ShiftedIsRun(r, n - 1);
      RunSnoc(G16, Bits16(r), Zeros(n - 1), false);
      assert Zeros(n) == Zeros(n - 1) + [false];
      ShiftIsStep(Shifted(r, n - 1));
    }
  }

  /** The generator comes back to itself exactly after multiples of the order. */
  lemma GeneratorReturns(d: nat)
    ensures Run(G16, G16, Zeros(d)) == G16 <==> d % ORDER == 0
  {
    Power16();
    GeneratorBits();
    ShiftedIsRun(0x1021, d);
    ShiftedTwice(1, 16, d);
    ShiftedTwice(1, d, 16);
    OrderExact(d);
    hide Shifted, Bits16;
    if Run(G16, G16, Zeros(d)) == G16 {
      Bits16Injective(Shifted(0x1021, d), 0x1021);
      ShiftedInjective(Power(d), 1, 16);
    }
  }

  lemma Power16()
    ensures Power(16) == 0x1021
  {
    PowerOne();
    Doubled(1, 0x0002, false, 0x0004);
    Doubled(2, 0x0004, false, 0x0010);
    Doubled(4, 0x0010, false, 0x0100);
    Doubled(8, 0x0100, false, 0x1021);
  }

  /** Two flipped bits go unnoticed exactly when they are a multiple of 32767 bits apart. */
  lemma Crc16TwoBits(sent: seq<bv8>, received: seq<bv8>, i: nat, j: nat)
    requires |sent| == |received| && DifferAt(MessageBits(sent), MessageBits(received), i, j)
    ensures Crc16(sent) == Crc16(received) <==> (j - i) % ORDER == 0
  {
    var a, b := MessageBits(sent), MessageBits(received);
    Crc16IsRun(sent);
    Crc16IsRun(received);
    GeneratorReturns(j - i);
    hide MessageBits, Crc16, Bits16;
    TwoFlips(G16, a, b, i, j);
    if Bits16(Crc16(sent)) == Bits16(Crc16(received)) {
      Bits16Injective(Crc16(sent), Crc16(received));
    }
  }

  /** In particular they never do in a block of up to 4095 bytes, such as a sector with its two bytes of
      check field. */
  lemma Crc16SectorTwoBits(sent: seq<bv8>, received: seq<bv8>, i: nat, j: nat)
    requires |sent| == |received| <= 4095 && DifferAt(MessageBits(sent), MessageBits(received), i, j)
    ensures Crc16(sent) != Crc16(received)
  {
    hide MessageBits, Crc16;
    Crc16TwoBits(sent, received, i, j);
    SmallMod(j - i);
  }

  lemma SmallMod(d: nat)
    requires 0 < d < ORDER
    ensures d % ORDER != 0
  {
  }
}
