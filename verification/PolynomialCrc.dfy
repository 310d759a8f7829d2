/** Cyclic redundancy codes over GF(2), for any generator polynomial.

  A polynomial is a sequence of coefficients, highest power first. A generator of degree `w` is
  x^w + g, so only the `w` low coefficients `g` are kept. `Run` is the bit-by-bit division an SD
  card performs; `IsRemainder` is the textbook meaning of its result.
*/
module PolynomialCrc {

  type Bits = seq<bool>

  function Zeros(n: nat): (z: Bits)
    ensures |z| == n && forall i :: 0 <= i < n ==> !z[i]
  {
    seq(n, i => false)
  }

  function Xor(a: Bits, b: Bits): (c: Bits)
    requires |a| == |b|
    ensures |c| == |a| && forall i :: 0 <= i < |a| ==> c[i] == (a[i] != b[i])
  {
    seq(|a|, i requires 0 <= i < |a| => a[i] != b[i])
  }

  /** One step of the division: shift one message bit in, subtract the generator if needed. */
  function Step(g: Bits, r: Bits, bit: bool): (r': Bits)
    requires |g| == |r| > 0
    ensures |r'| == |r|
  {
    var shifted := r[1..] + [false];
    if r[0] != bit then Xor(shifted, g) else shifted
  }

  /** The register after dividing `bits`, started from register `r`. */
  function Run(g: Bits, r: Bits, bits: Bits): (r': Bits)
    requires |g| == |r| > 0
    ensures |r'| == |r|
    decreases |bits|
  {
    if bits == [] then r else Run(g, Step(g, r, bits[0]), bits[1..])
  }

  /** The product q(x) * (x^w + g(x)). */
  function Product(g: Bits, q: Bits): (p: Bits)
    ensures |p| == |q| + |g|
  {
    if q == [] then
      Zeros(|g|)
    else
      var k := |q| - 1;
      var row := if q[k] then [true] + g else Zeros(|g| + 1);
      Xor(Product(g, q[..k]) + [false], Zeros(k) + row)
  }

  /** `r` is what is left of m(x) * x^w after subtracting q(x) times the generator. */
  ghost predicate Divides(g: Bits, m: Bits, q: Bits, r: Bits) {
    && |q| == |m|
    && |r| == |g|
    && m + Zeros(|g|) == Xor(Product(g, q), Zeros(|m|) + r)
  }

  /** `r` is a remainder of m(x) * x^w by the generator: its degree is below w. */
  ghost predicate IsRemainder(g: Bits, m: Bits, r: Bits) {
    exists q :: Divides(g, m, q, r)
  }

  // ---------- The division computes the unique remainder ----------

  lemma {:induction false} RunAppend(g: Bits, r: Bits, a: Bits, b: Bits)
    requires |g| == |r| > 0
    ensures Run(g, r, a + b) == Run(g, Run(g, r, a), b)
    decreases |a|
  {
    if a == [] {
      assert a + b == b;
    } else {
      assert (a + b)[0] == a[0] && (a + b)[1..] == a[1..] + b;
      RunAppend(g, Step(g, r, a[0]), a[1..], b);
    }
  }

  lemma RunSnoc(g: Bits, r: Bits, a: Bits, bit: bool)
    requires |g| == |r| > 0
    ensures Run(g, r, a + [bit]) == Step(g, Run(g, r, a), bit)
  {
    RunAppend(g, r, a, [bit]);
  }

  lemma RunPrefix(g: Bits, r: Bits, bits: Bits, k: nat)
    requires |g| == |r| > 0 && k < |bits|
    ensures Run(g, r, bits[..k + 1]) == Step(g, Run(g, r, bits[..k]), bits[k])
  {
    assert bits[..k + 1] == bits[..k] + [bits[k]];
    RunSnoc(g, r, bits[..k], bits[k]);
  }

  /** The quotient bits the division produces on the way. */
  function Quotient(g: Bits, m: Bits): (q: Bits)
    requires |g| > 0
    ensures |q| == |m|
  {
    if m == [] then
      []
    else
      var k := |m| - 1;
      Quotient(g, m[..k]) + [Run(g, Zeros(|g|), m[..k])[0] != m[k]]
  }

  lemma ProductAt(g: Bits, q: Bits, bit: bool, i: nat)
    requires i < |q| + 1 + |g|
    ensures var p, p' := Product(g, q), Product(g, q + [bit]);
            var carried := i < |p| && p[i];
            p'[i] == if i < |q| then carried
                     else if i == |q| then carried != bit
                     else carried != (bit && g[i - |q| - 1])
  {
    assert (q + [bit])[..|q|] == q;
  }

  /** One more message bit: the quotient grows by one bit and the remainder takes one step. */
  lemma DividesStep(g: Bits, m: Bits, q: Bits, r: Bits, bit: bool)
    requires |g| > 0
    requires Divides(g, m, q, r)
    ensures Divides(g, m + [bit], q + [r[0] != bit], Step(g, r, bit))
  {
    hide Product;
    var w, k := |g|, |m|;
    var m', q', r' := m + [bit], q + [r[0] != bit], Step(g, r, bit);
    var old_, oldRight := m + Zeros(w), Xor(Product(g, q), Zeros(k) + r);
    var new_, newRight := m' + Zeros(w), Xor(Product(g, q'), Zeros(k + 1) + r');
    forall i | 0 <= i < k + 1 + w
      ensures new_[i] == newRight[i]
    {
      ProductAt(g, q, r[0] != bit, i);
      if i < k + w {
        assert old_[i] == oldRight[i];
      }
    }
    assert new_ == newRight;
  }

  /** What the exact division of a longer message says coefficient by coefficient. */
  lemma DividesAt(g: Bits, m: Bits, bit: bool, q: Bits, top: bool, r': Bits, i: nat)
    requires |g| > 0
    requires Divides(g, m + [bit], q + [top], r')
    requires i < |m| + 1 + |g|
    ensures var p, k := Product(g, q), |m|;
            var carried := i < k + |g| && p[i];
            if i < k then m[i] == carried
            else if i == k then bit == (carried != top)
            else false == ((carried != (top && g[i - k - 1])) != r'[i - k - 1])
  {
    hide Product;
    var left, right := m + [bit] + Zeros(|g|), Xor(Product(g, q + [top]), Zeros(|m| + 1) + r');
    ProductAt(g, q, top, i);
    assert left[i] == right[i];
  }

  /** Conversely, dropping the last message bit leaves an exact division of the shorter message. */
  lemma DividesUnstep(g: Bits, m: Bits, bit: bool, q: Bits, top: bool, r': Bits)
    requires |g| > 0
    requires Divides(g, m + [bit], q + [top], r')
    ensures Divides(g, m, q, Product(g, q)[|m|..])
  {
    hide Product;
    var p, k := Product(g, q), |m|;
    var left, right := m + Zeros(|g|), Xor(p, Zeros(k) + p[k..]);
    forall i | 0 <= i < k + |g|
      ensures left[i] == right[i]
    {
      if i < k {
        DividesAt(g, m, bit, q, top, r', i);
      }
    }
    assert left == right;
  }

  lemma StepAt(g: Bits, r: Bits, bit: bool, i: nat)
    requires |g| > 0 && |r| == |g| && i < |g|
    ensures Step(g, r, bit)[i] == ((i + 1 < |g| && r[i + 1]) != ((r[0] != bit) && g[i]))
  {
  }

  lemma UnstepIsStep(g: Bits, m: Bits, bit: bool, q: Bits, top: bool, r': Bits)
    requires |g| > 0
    requires Divides(g, m + [bit], q + [top], r')
    ensures var r := Product(g, q)[|m|..];
            top == (r[0] != bit) && r' == Step(g, r, bit)
  {
    hide Product;
    var k := |m|;
    DividesAt(g, m, bit, q, top, r', k);
    var r := Product(g, q)[k..];
    var stepped := Step(g, r, bit);
    forall i | 0 <= i < |g|
      ensures r'[i] == stepped[i]
    {
      DividesAt(g, m, bit, q, top, r', k + 1 + i);
      StepAt(g, r, bit, i);
    }
    hide Divides, Step;
    assert r' == stepped;
  }

  lemma {:induction false} RunDivides(g: Bits, m: Bits)
    requires |g| > 0
    ensures Divides(g, m, Quotient(g, m), Run(g, Zeros(|g|), m))
  {
    if m == [] {
      assert m + Zeros(|g|) == Xor(Product(g, []), Zeros(0) + Zeros(|g|));
    } else {
      var k := |m| - 1;
      assert m[..k] + [m[k]] == m;
      RunDivides(g, m[..k]);
      RunSnoc(g, Zeros(|g|), m[..k], m[k]);
      DividesStep(g, m[..k], Quotient(g, m[..k]), Run(g, Zeros(|g|), m[..k]), m[k]);
    }
  }

  lemma {:induction false} DividesIsRun(g: Bits, m: Bits, q: Bits, r: Bits)
    requires |g| > 0
    requires Divides(g, m, q, r)
    ensures r == Run(g, Zeros(|g|), m) && q == Quotient(g, m)
    decreases |m|
  {
    if m == [] {
      var left, right := m + Zeros(|g|), Xor(Product(g, q), Zeros(0) + r);
      assert forall i | 0 <= i < |g| :: left[i] == right[i];
      assert r == Zeros(|g|);
    } else {
      var k := |m| - 1;
      assert m[..k] + [m[k]] == m && q[..k] + [q[k]] == q;
      DividesUnstep(g, m[..k], m[k], q[..k], q[k], r);
      UnstepIsStep(g, m[..k], m[k], q[..k], q[k], r);
      DividesIsRun(g, m[..k], q[..k], Product(g, q[..k])[k..]);
      RunSnoc(g, Zeros(|g|), m[..k], m[k]);
    }
  }

  /** The register after the whole message is the remainder of m(x) * x^w, and the only one. */
  lemma RemainderUnique(g: Bits, m: Bits, r: Bits)
    requires |g| > 0
    ensures IsRemainder(g, m, r) <==> r == Run(g, Zeros(|g|), m)
  {
    RunDivides(g, m);
    if IsRemainder(g, m, r) {
      var q :| Divides(g, m, q, r);
      DividesIsRun(g, m, q, r);
    }
  }

  // ---------- What the code detects ----------

  /** `bits` in the high positions of a register of width w. */
  function High(bits: Bits, w: nat): (r: Bits)
    requires |bits| <= w
    ensures |r| == w
  {
    bits + Zeros(w - |bits|)
  }

  lemma StepAbsorb(g: Bits, r: Bits, bits: Bits)
    requires |g| == |r| && 0 < |bits| <= |r|
    ensures Step(g, Xor(r, High(bits, |r|)), false) == Xor(Step(g, r, bits[0]), High(bits[1..], |r|))
  {
    var w := |r|;
    var left := Step(g, Xor(r, High(bits, w)), false);
    var right := Xor(Step(g, r, bits[0]), High(bits[1..], w));
    forall i | 0 <= i < w ensures left[i] == right[i] {
    }
    assert left == right;
  }

  /** Up to w message bits may be added to the register at once and then shifted through. */
  lemma {:induction false} Absorb(g: Bits, r: Bits, bits: Bits)
    requires |g| == |r| > 0 && |bits| <= |r|
    ensures Run(g, r, bits) == Run(g, Xor(r, High(bits, |r|)), Zeros(|bits|))
    decreases |bits|
  {
    if bits == [] {
      assert Xor(r, High(bits, |r|)) == r;
    } else {
      StepAbsorb(g, r, bits);
      Absorb(g, Step(g, r, bits[0]), bits[1..]);
      assert Zeros(|bits|)[1..] == Zeros(|bits| - 1);
    }
  }

  lemma {:induction false} ZerosStayZero(g: Bits, n: nat)
    requires |g| > 0
    ensures Run(g, Zeros(|g|), Zeros(n)) == Zeros(|g|)
  {
    if n > 0 {
      assert Step(g, Zeros(|g|), false) == Zeros(|g|);
      assert Zeros(n)[1..] == Zeros(n - 1);
      ZerosStayZero(g, n - 1);
    }
  }

  /** With a non-zero constant term a step loses nothing. */
  lemma StepInjective(g: Bits, r1: Bits, r2: Bits, bit: bool)
    requires |g| == |r1| == |r2| > 0 && g[|g| - 1]
    requires Step(g, r1, bit) == Step(g, r2, bit)
    ensures r1 == r2
  {
    var w := |g|;
    var s1, s2 := Step(g, r1, bit), Step(g, r2, bit);
    assert s1[w - 1] == (r1[0] != bit) && s2[w - 1] == (r2[0] != bit);
    forall i | 0 < i < w ensures r1[i] == r2[i] {
      assert s1[i - 1] == s2[i - 1];
    }
    assert r1 == r2;
  }

  lemma {:induction false} RunInjective(g: Bits, r1: Bits, r2: Bits, bits: Bits)
    requires |g| == |r1| == |r2| > 0 && g[|g| - 1]
    requires Run(g, r1, bits) == Run(g, r2, bits)
    ensures r1 == r2
    decreases |bits|
  {
    if bits != [] {
      RunInjective(g, Step(g, r1, bits[0]), Step(g, r2, bits[0]), bits[1..]);
      StepInjective(g, r1, r2, bits[0]);
    }
  }

  /** Up to w message bits can be read back from the register they were shifted into. */
  lemma WindowInjective(g: Bits, r: Bits, a: Bits, b: Bits)
    requires |g| == |r| > 0 && g[|g| - 1]
    requires |a| == |b| <= |g|
    requires Run(g, r, a) == Run(g, r, b)
    ensures a == b
  {
    var w := |g|;
    Absorb(g, r, a);
    Absorb(g, r, b);
    var ra, rb := Xor(r, High(a, w)), Xor(r, High(b, w));
    RunInjective(g, ra, rb, Zeros(|a|));
    forall i | 0 <= i < |a| ensures a[i] == b[i] {
      assert ra[i] == rb[i];
    }
  }

  /** Any change confined to w consecutive bits changes the remainder. */
  lemma BurstDetected(g: Bits, before: Bits, sent: Bits, received: Bits, after: Bits)
    requires |g| > 0 && g[|g| - 1]
    requires |sent| == |received| <= |g| && sent != received
    ensures Run(g, Zeros(|g|), before + sent + after) != Run(g, Zeros(|g|), before + received + after)
  {
    var z := Zeros(|g|);
    var r := Run(g, z, before);
    if Run(g, z, before + sent + after) == Run(g, z, before + received + after) {
      RunAppend(g, z, before + sent, after);
      RunAppend(g, z, before + received, after);
      RunInjective(g, Run(g, z, before + sent), Run(g, z, before + received), after);
      RunAppend(g, z, before, sent);
      RunAppend(g, z, before, received);
      WindowInjective(g, r, sent, received);
    }
  }

  /** A message followed by a w-bit check field divides evenly exactly when the field is its remainder. */
  lemma CheckFieldExact(g: Bits, m: Bits, check: Bits)
    requires |g| == |check| > 0 && g[|g| - 1]
    ensures Run(g, Zeros(|g|), m + check) == Zeros(|g|) <==> check == Run(g, Zeros(|g|), m)
  {
    var z := Zeros(|g|);
    var r := Run(g, z, m);
    RunAppend(g, z, m, check);
    RunAppend(g, z, m, r);
    Absorb(g, r, r);
    assert Xor(r, High(r, |g|)) == z;
    ZerosStayZero(g, |g|);
    if Run(g, z, m + check) == z {
      WindowInjective(g, r, check, r);
    }
  }

  // ---------- Dividing several bits at a time ----------

  /** Division is linear over GF(2). */
  lemma {:induction false} Linear(g: Bits, r1: Bits, r2: Bits, a: Bits, b: Bits)
    requires |g| == |r1| == |r2| > 0 && |a| == |b|
    ensures Run(g, Xor(r1, r2), Xor(a, b)) == Xor(Run(g, r1, a), Run(g, r2, b))
    decreases |a|
  {
    if a != [] {
      assert Xor(a, b)[1..] == Xor(a[1..], b[1..]);
      assert Step(g, Xor(r1, r2), Xor(a, b)[0]) == Xor(Step(g, r1, a[0]), Step(g, r2, b[0]));
      Linear(g, Step(g, r1, a[0]), Step(g, r2, b[0]), a[1..], b[1..]);
    }
  }

  lemma {:induction false} ShiftOut(g: Bits, low: Bits, n: nat)
    requires |g| == |low| + n > 0
    ensures Run(g, Zeros(n) + low, Zeros(n)) == low + Zeros(n)
    decreases n
  {
    if n == 0 {
      assert Zeros(0) + low == low + Zeros(0);
    } else {
      var r := Zeros(n) + low;
      assert Step(g, r, false) == Zeros(n - 1) + (low + [false]);
      assert Zeros(n)[1..] == Zeros(n - 1);
      ShiftOut(g, low + [false], n - 1);
      assert low + [false] + Zeros(n - 1) == low + Zeros(n);
    }
  }

  lemma MixTop(r: Bits, bits: Bits)
    requires |bits| <= |r|
    ensures Xor(r, High(bits, |r|)) ==
            Xor(Zeros(|bits|) + r[|bits|..], High(Xor(r[..|bits|], bits), |r|))
  {
    var w, n := |r|, |bits|;
    var a, b := Xor(r, High(bits, w)), Xor(Zeros(n) + r[n..], High(Xor(r[..n], bits), w));
    forall i | 0 <= i < w ensures a[i] == b[i] {
      if i < n {
        assert b[i] == High(Xor(r[..n], bits), w)[i];
      } else {
        assert High(bits, w)[i] == Zeros(w - n)[i - n];
      }
    }
  }

  lemma SameMix(g: Bits, r1: Bits, bits1: Bits, r2: Bits, bits2: Bits)
    requires |g| == |r1| == |r2| > 0 && |bits1| == |bits2| <= |g|
    requires Xor(r1, High(bits1, |g|)) == Xor(r2, High(bits2, |g|))
    ensures Run(g, r1, bits1) == Run(g, r2, bits2)
  {
    Absorb(g, r1, bits1);
    Absorb(g, r2, bits2);
  }

  /** The top of the register can be traded for message bits. */
  lemma MoveTop(g: Bits, r: Bits, bits: Bits)
    requires |g| == |r| > 0 && |bits| <= |r|
    ensures Run(g, r, bits) == Run(g, Zeros(|bits|) + r[|bits|..], Xor(r[..|bits|], bits))
  {
    MixTop(r, bits);
    SameMix(g, r, bits, Zeros(|bits|) + r[|bits|..], Xor(r[..|bits|], bits));
  }

  lemma XorZeros(a: Bits)
    ensures Xor(a, Zeros(|a|)) == a && Xor(Zeros(|a|), a) == a
  {
  }

  lemma RunLow(g: Bits, low: Bits, n: nat, index: Bits)
    requires |g| == |low| + n > 0 && |index| == n
    ensures Run(g, Zeros(n) + low, index) == Xor(low + Zeros(n), Run(g, Zeros(|g|), index))
  {
    XorZeros(Zeros(n) + low);
    XorZeros(index);
    Linear(g, Zeros(n) + low, Zeros(|g|), Zeros(n), index);
    ShiftOut(g, low, n);
  }

  /** Up to w bits at once: combine them with the top of the register, divide that from a zero
      register (the table entry), and add the rest of the register moved up. */
  lemma FoldShort(g: Bits, r: Bits, bits: Bits)
    requires |g| == |r| > 0 && |bits| <= |r|
    ensures Run(g, r, bits) ==
            Xor(r[|bits|..] + Zeros(|bits|), Run(g, Zeros(|g|), Xor(r[..|bits|], bits)))
  {
    hide Run;
    MoveTop(g, r, bits);
    RunLow(g, r[|bits|..], |bits|, Xor(r[..|bits|], bits));
  }

  lemma MoveAll(g: Bits, r: Bits, bits: Bits)
    requires |g| == |r| == |bits| > 0
    ensures Run(g, r, bits) == Run(g, Zeros(|g|), Xor(r, bits))
  {
    MoveTop(g, r, bits);
    assert r[..|bits|] == r && Zeros(|bits|) + r[|bits|..] == Zeros(|g|);
  }

  /** At least w bits at once: the whole register moves into the first w of them. */
  lemma FoldLong(g: Bits, r: Bits, first: Bits, rest: Bits)
    requires |g| == |r| == |first| > 0
    ensures Run(g, r, first + rest) == Run(g, Zeros(|g|), Xor(r, first) + rest)
  {
    RunAppend(g, r, first, rest);
    MoveAll(g, r, first);
    RunAppend(g, Zeros(|g|), Xor(r, first), rest);
  }

  // ---------- Parity ----------

  /** True when an odd number of coefficients is set. */
  function Odd(a: Bits): bool {
    if a == [] then false else a[0] != Odd(a[1..])
  }

  lemma {:induction false} OddXor(a: Bits, b: Bits)
    requires |a| == |b|
    ensures Odd(Xor(a, b)) == (Odd(a) != Odd(b))
  {
    if a != [] {
      assert Xor(a, b)[1..] == Xor(a[1..], b[1..]);
      OddXor(a[1..], b[1..]);
    }
  }

  lemma {:induction false} OddAppend(a: Bits, b: Bits)
    ensures Odd(a + b) == (Odd(a) != Odd(b))
  {
    if a == [] {
      assert a + b == b;
    } else {
      assert (a + b)[1..] == a[1..] + b;
      OddAppend(a[1..], b);
    }
  }

  lemma {:induction false} OddZeros(n: nat)
    ensures !Odd(Zeros(n))
  {
    if n > 0 {
      assert Zeros(n)[1..] == Zeros(n - 1);
      OddZeros(n - 1);
    }
  }

  /** A generator with an even number of terms, x^w included, keeps the parity of the message. */
  lemma {:induction false} ParityKept(g: Bits, r: Bits, bits: Bits)
    requires |g| == |r| > 0 && Odd(g)
    ensures Odd(Run(g, r, bits)) == (Odd(r) != Odd(bits))
    decreases |bits|
  {
    if bits != [] {
      var shifted := r[1..] + [false];
      OddAppend(r[1..], [false]);
      OddXor(shifted, g);
      ParityKept(g, Step(g, r, bits[0]), bits[1..]);
    }
  }

  /** Such a generator detects every error pattern that flips an odd number of bits. */
  lemma OddErrorDetected(g: Bits, sent: Bits, received: Bits)
    requires |g| > 0 && Odd(g)
    requires |sent| == |received| && Odd(Xor(sent, received))
    ensures Run(g, Zeros(|g|), sent) != Run(g, Zeros(|g|), received)
  {
    OddXor(sent, received);
    OddZeros(|g|);
    ParityKept(g, Zeros(|g|), sent);
    ParityKept(g, Zeros(|g|), received);
  }

  // ---------- Two flipped bits ----------

  lemma StepOne(g: Bits, r: Bits)
    requires |g| == |r| > 0
    ensures Step(g, r, true) == Xor(Step(g, r, false), g)
  {
  }

  lemma FirstOne(g: Bits)
    requires |g| > 0
    ensures Step(g, Zeros(|g|), true) == g
  {
  }

  lemma XorIsZero(a: Bits, b: Bits)
    requires |a| == |b|
    ensures Xor(a, b) == Zeros(|a|) <==> a == b
  {
    if Xor(a, b) == Zeros(|a|) {
      forall i | 0 <= i < |a| ensures a[i] == b[i] {
        assert !Xor(a, b)[i];
      }
    }
  }

  /** Two set bits `d` apart, with zeros before, between and after. */
  function TwoSet(i: nat, d: nat, k: nat): (e: Bits)
    requires d > 0
    ensures |e| == i + d + 1 + k
  {
    Zeros(i) + [true] + Zeros(d - 1) + [true] + Zeros(k)
  }

  /** The register after two set bits `d` apart, and zeros before, between and after. */
  lemma TwoOnes(g: Bits, i: nat, d: nat, k: nat)
    requires |g| > 0 && g[|g| - 1] && d > 0
    ensures Run(g, Zeros(|g|), TwoSet(i, d, k)) == Zeros(|g|) <==>
            Run(g, g, Zeros(d)) == g
  {
    var zero := Zeros(|g|);
    var r := Run(g, g, Zeros(d - 1));
    ZerosStayZero(g, i);
    RunSnoc(g, zero, Zeros(i), true);
    FirstOne(g);
    RunAppend(g, zero, Zeros(i) + [true], Zeros(d - 1));
    RunSnoc(g, zero, Zeros(i) + [true] + Zeros(d - 1), true);
    StepOne(g, r);
    RunSnoc(g, g, Zeros(d - 1), false);
    assert Zeros(d) == Zeros(d - 1) + [false];
    var end := Step(g, r, true);
    RunAppend(g, zero, Zeros(i) + [true] + Zeros(d - 1) + [true], Zeros(k));
    hide Run, Step;
    XorIsZero(Run(g, g, Zeros(d)), g);
    if Run(g, end, Zeros(k)) == zero {
      ZerosStayZero(g, k);
      RunInjective(g, end, zero, Zeros(k));
    } else if end == zero {
      ZerosStayZero(g, k);
    }
  }

  lemma TwoOnesAt(i: nat, d: nat, k: nat)
    requires d > 0
    ensures var e := TwoSet(i, d, k);
            forall x :: 0 <= x < |e| ==> (e[x] <==> x == i || x == i + d)
  {
  }

  lemma StepLinear(g: Bits, r1: Bits, r2: Bits)
    requires |g| == |r1| == |r2| > 0
    ensures Step(g, Xor(r1, r2), false) == Xor(Step(g, r1, false), Step(g, r2, false))
  {
  }

  /** The two differ in places `i` and `j`, and nowhere else. */
  ghost predicate DifferAt(sent: Bits, received: Bits, i: nat, j: nat) {
    && |sent| == |received| && i < j < |sent|
    && forall k :: 0 <= k < |sent| ==> (sent[k] != received[k] <==> k == i || k == j)
  }

  lemma DifferenceIs(sent: Bits, received: Bits, i: nat, j: nat)
    requires DifferAt(sent, received, i, j)
    ensures Xor(sent, received) == TwoSet(i, j - i, |sent| - j - 1)
  {
    TwoOnesAt(i, j - i, |sent| - j - 1);
    var e := TwoSet(i, j - i, |sent| - j - 1);
    hide TwoSet;
    forall k | 0 <= k < |sent| ensures Xor(sent, received)[k] == e[k] {
    }
  }

  /** Messages have the same remainder exactly when their difference leaves none. */
  lemma SameRemainder(g: Bits, sent: Bits, received: Bits)
    requires |g| > 0 && |sent| == |received|
    ensures Run(g, Zeros(|g|), sent) == Run(g, Zeros(|g|), received) <==>
            Run(g, Zeros(|g|), Xor(sent, received)) == Zeros(|g|)
  {
    var zero := Zeros(|g|);
    XorZeros(zero);
    Linear(g, zero, zero, sent, received);
    XorIsZero(Run(g, zero, sent), Run(g, zero, received));
    hide *;
  }

  lemma TwoSetDifference(g: Bits, sent: Bits, received: Bits, i: nat, d: nat, k: nat)
    requires |g| > 0 && g[|g| - 1] && |sent| == |received| && d > 0
    requires Xor(sent, received) == TwoSet(i, d, k)
    ensures Run(g, Zeros(|g|), sent) == Run(g, Zeros(|g|), received) <==> Run(g, g, Zeros(d)) == g
  {
    hide *;
    SameRemainder(g, sent, received);
    TwoOnes(g, i, d, k);
  }

  /** Two messages that differ in just two places have the same remainder exactly when the generator,
      shifted on by their distance, comes back to itself. */
  lemma TwoFlips(g: Bits, sent: Bits, received: Bits, i: nat, j: nat)
    requires |g| > 0 && g[|g| - 1] && DifferAt(sent, received, i, j)
    ensures Run(g, Zeros(|g|), sent) == Run(g, Zeros(|g|), received) <==> Run(g, g, Zeros(j - i)) == g
  {
    hide Run, Xor, Zeros, TwoSet;
    DifferenceIs(sent, received, i, j);
    hide DifferAt;
    TwoSetDifference(g, sent, received, i, j - i, |sent| - j - 1);
  }
}
