/** The clock divider search of the SPI driver.

  A divider register holds a pre-scaler and a counter; the bus runs at
  clock / ((pre + 1) * (n + 1)), rounded down. The search tries four pre-scalers for each n.
*/
module SpiClock {

  /** The fields of the clock register. */
  datatype ClockReg = ClockReg(l: nat, h: nat, n: nat, pre: nat, equ: nat)

  predicate InFields(reg: ClockReg) {
    reg.l < 64 && reg.h < 64 && reg.n < 64 && reg.pre < 8192 && reg.equ < 2
  }

  function Pack(reg: ClockReg): nat {
    reg.l + 0x40 * reg.h + 0x1000 * reg.n + 0x4_0000 * reg.pre + 0x8000_0000 * reg.equ
  }

  function Unpack(value: nat): ClockReg {
    ClockReg(value % 64, value / 0x40 % 64, value / 0x1000 % 64, value / 0x4_0000 % 8192, value / 0x8000_0000 % 2)
  }

  /** The source's CPU_CLK_FREQ is 80 MHz; every clock the search can serve is allowed here. */
  predicate UsableClock(clock: nat) {
    0x8_0000 <= clock < 0x8000_0000
  }

  function RegFrequency(clock: nat, n: nat, pre: nat): nat {
    clock / ((pre + 1) * (n + 1))
  }

  function ClockDivToFrequency(clock: nat, value: nat): nat {
    RegFrequency(clock, Unpack(value).n, Unpack(value).pre)
  }

  const EQU_SYSCLK := 0x8000_0000
  const MIN_FREQ_REG := 0x7FFF_F000

  /** Settings the search considers: counter 1..63, pre-scaler 0..8191. */
  predicate InSearch(n: nat, pre: nat) {
    1 <= n < 64 && pre < 8192
  }

  /** `f` is a frequency not above `freq`, and no setting comes closer from below. */
  ghost predicate Best(clock: nat, freq: nat, f: nat) {
    && f <= freq
    && (exists n: nat, pre: nat :: InSearch(n, pre) && RegFrequency(clock, n, pre) == f)
    && (forall n: nat, pre: nat :: InSearch(n, pre) && RegFrequency(clock, n, pre) <= freq ==>
          RegFrequency(clock, n, pre) <= f)
  }

  /** The word for a counter and a pre-scaler: the clock low phase, in the lowest six bits, takes half
      of the counter period; the counter is in bits 12 to 17, the pre-scaler in bits 18 to 30. */
  ghost predicate WordFor(n: nat, pre: nat, value: nat) {
    value == (n + 1) / 2 + 0x1000 * n + 0x4_0000 * pre
  }

  /** No setting with a smaller counter runs at frequency `f`. */
  ghost predicate FirstAt(clock: nat, n: nat, f: nat) {
    forall m: nat, pre: nat :: InSearch(m, pre) && m < n ==> RegFrequency(clock, m, pre) != f
  }

  /** The register the search owes for a request: one of two fixed words outside the range of the
      divider, and otherwise the word of a setting that runs at the best frequency, with the smallest
      counter that does. */
  ghost predicate Serves(clock: nat, freq: nat, value: nat) {
    if freq >= clock then value == 0x8000_0000
    else if freq < clock / 0x8_0000 then value == 0x7FFF_F000
    else
      && Best(clock, freq, ClockDivToFrequency(clock, value))
      && exists n: nat, pre: nat :: InSearch(n, pre) && WordFor(n, pre, value) &&
                                    FirstAt(clock, n, ClockDivToFrequency(clock, value))
  }

  /** The clock low phase takes half of the counter period; the other fields stay clear. */
  predicate Shaped(reg: ClockReg) {
    reg.l == (reg.n + 1) / 2 && reg.h == 0 && reg.equ == 0
  }

  // ---------- Rounding division ----------

  lemma DivBounds(a: nat, b: nat)
    requires b > 0
    ensures b * (a / b) <= a < b * (a / b + 1)
  {
  }

  lemma DivUnique(a: nat, b: nat, q: nat)
    requires b > 0 && b * q <= a < b * (q + 1)
    ensures a / b == q
  {
    DivBounds(a, b);
    if a / b < q {
      MulOrder(b, a / b + 1, q);
    } else if q < a / b {
      MulOrder(b, q + 1, a / b);
    }
  }

  lemma MulOrder(x: nat, y: nat, z: nat)
    requires y <= z
    ensures x * y <= x * z
  {
  }

  lemma DivTwice(a: nat, b: nat, c: nat)
    requires b > 0 && c > 0
    ensures c * b > 0 && a / (c * b) == a / b / c
  {
    var x := a / b;
    var q := x / c;
    DivBounds(a, b);
    DivBounds(x, c);
    MulOrder(b, c * q, x);
    MulOrder(b, x + 1, c * (q + 1));
    assert b * (c * q) == c * b * q;
    assert b * (c * (q + 1)) == c * b * (q + 1);
    MulPositive(c, b);
    DivUnique(a, c * b, q);
  }

  lemma MulPositive(a: nat, b: nat)
    requires a > 0 && b > 0
    ensures a * b > 0
  {
  }

  /** A larger divisor gives no larger quotient. */
  lemma DivAntitone(a: nat, b: nat, c: nat)
    requires 0 < b <= c
    ensures a / c <= a / b
  {
    DivBounds(a, b);
    DivBounds(a, c);
    if a / b < a / c {
      MulOrder(b, a / b + 1, a / c);
      MulOrder(a / c, b, c);
    }
  }

  lemma DivAtLeast(a: nat, b: nat, q: nat)
    requires b > 0 && b * q <= a
    ensures q <= a / b
  {
    DivBounds(a, b);
    if a / b < q {
      MulOrder(b, a / b + 1, q);
    }
  }

  lemma DivAtMost(a: nat, b: nat, q: nat)
    requires b > 0 && a < b * (q + 1)
    ensures a / b <= q
  {
    DivBounds(a, b);
    if q < a / b {
      MulOrder(b, q + 1, a / b);
    }
  }

  lemma FrequencyIs(clock: nat, n: nat, pre: nat)
    ensures RegFrequency(clock, n, pre) == clock / (n + 1) / (pre + 1)
  {
    DivTwice(clock, n + 1, pre + 1);
  }

  lemma UnpackPack(reg: ClockReg)
    requires InFields(reg)
    ensures Unpack(Pack(reg)) == reg
  {
    var v := Pack(reg);
    var v1 := reg.h + 64 * (reg.n + 64 * (reg.pre + 8192 * reg.equ));
    var v2 := reg.n + 64 * (reg.pre + 8192 * reg.equ);
    var v3 := reg.pre + 8192 * reg.equ;
    DivUnique(v, 64, v1);
    DivUnique(v, 0x1000, v2);
    DivUnique(v, 0x4_0000, v3);
    DivUnique(v, 0x8000_0000, reg.equ);
    DivUnique(v1, 64, v2);
    DivUnique(v2, 64, v3);
    DivUnique(v3, 8192, reg.equ);
  }

  // ---------- Two candidates per counter suffice ----------

  /** The pre-scaler tried for a variation, forced into the 13-bit field. */
  function Candidate(clock: nat, freq: nat, n: nat, vari: int): nat
    requires freq > 0
  {
    var pre := clock / (n + 1) / freq - 1 + vari;
    if pre > 0x1FFF then 0x1FFF else if pre <= 0 then 0 else pre
  }

  lemma MulCommutes(x: nat, y: nat)
    ensures x * y == y * x
  {
  }

  lemma MulNext(x: nat, y: nat)
    ensures x * y <= x * (y + 1)
  {
  }

  /** Up to q = a/freq the quotient is at least freq, and beyond q at most freq. */
  lemma AroundQuotient(a: nat, freq: nat, q: nat)
    requires freq > 0 && q == a / freq
    ensures q > 0 ==> freq <= a / q
    ensures a / (q + 1) <= freq
  {
    DivBounds(a, freq);
    MulCommutes(q, freq);
    MulCommutes(q + 1, freq);
    MulNext(q + 1, freq);
    hide *;
    if q > 0 {
      DivAtLeast(a, q, freq);
    }
    DivAtMost(a, q + 1, freq);
  }

  /** The same on plain quotients: `c` is the clipped candidate. */
  lemma ClippedBest(a: nat, freq: nat, q: nat, pre: nat, c: nat)
    requires freq > 0 && q == a / freq
    requires a / (pre + 1) <= freq && pre < 8192
    requires c == if pre + 1 <= q then (if q - 1 > 0x1FFF then 0x1FFF else q - 1) else q
    ensures a / (pre + 1) <= a / (c + 1) <= freq
  {
    AroundQuotient(a, freq, q);
    if pre + 1 <= q {
      // every divisor up to q gives freq or more, so this setting gives exactly freq
      DivAntitone(a, pre + 1, c + 1);
      DivAntitone(a, c + 1, q);
    } else {
      DivAntitone(a, c + 1, pre + 1);
    }
  }

  /** With a = clock/(n+1) and q = a/freq: no pre-scaler beats both q - 1 and q. */
  lemma CandidatesSuffice(clock: nat, freq: nat, n: nat, pre: nat)
    requires freq > 0 && pre < 8192
    requires RegFrequency(clock, n, pre) <= freq
    ensures exists vari :: 0 <= vari <= 1 &&
              RegFrequency(clock, n, pre) <= RegFrequency(clock, n, Candidate(clock, freq, n, vari)) <= freq
  {
    var a := clock / (n + 1);
    var q := a / freq;
    var vari := if pre + 1 <= q then 0 else 1;
    var c := Candidate(clock, freq, n, vari);
    FrequencyIs(clock, n, pre);
    FrequencyIs(clock, n, c);
    hide RegFrequency;
    ClippedBest(a, freq, q, pre, c);
  }

  // ---------- The search ----------

  /** What the best register so far stands for. */
  ghost predicate Tracked(clock: nat, freq: nat, reg: ClockReg, bestFreq: nat, exact: bool) {
    && InFields(reg) && Shaped(reg)
    && (exact ==> InSearch(reg.n, reg.pre) && RegFrequency(clock, reg.n, reg.pre) == freq)
    && (!exact ==> bestFreq < freq)
    && (!exact && bestFreq > 0 ==> InSearch(reg.n, reg.pre) && RegFrequency(clock, reg.n, reg.pre) == bestFreq)
  }

  /** No setting with a counter below `limit` beats `best`. */
  ghost predicate Covered(clock: nat, freq: nat, limit: nat, best: nat) {
    forall n: nat, pre: nat :: InSearch(n, pre) && n < limit && RegFrequency(clock, n, pre) <= freq ==>
      RegFrequency(clock, n, pre) <= best
  }

  /** No candidate for counter `n` up to variation `vari` beats `best`. */
  ghost predicate TriedUpTo(clock: nat, freq: nat, n: nat, vari: int, best: nat)
    requires freq > 0
  {
    forall v :: -1 <= v <= vari && RegFrequency(clock, n, Candidate(clock, freq, n, v)) <= freq ==>
      RegFrequency(clock, n, Candidate(clock, freq, n, v)) <= best
  }

  lemma CounterCovered(clock: nat, freq: nat, n: nat, best: nat)
    requires freq > 0 && Covered(clock, freq, n, best) && TriedUpTo(clock, freq, n, 2, best)
    ensures Covered(clock, freq, n + 1, best)
  {
    hide RegFrequency, Candidate;
    forall m: nat, pre: nat | InSearch(m, pre) && m < n + 1 && RegFrequency(clock, m, pre) <= freq
      ensures RegFrequency(clock, m, pre) <= best
    {
      if m == n {
        CandidatesSuffice(clock, freq, n, pre);
      }
    }
  }

  /** The slowest setting is always low enough, so something has been found. */
  lemma SomethingFound(clock: nat, freq: nat, best: nat)
    requires UsableClock(clock) && clock / 0x8_0000 <= freq
    requires Covered(clock, freq, 64, best)
    ensures best > 0
  {
    assert InSearch(63, 8191) && RegFrequency(clock, 63, 8191) == clock / 0x8_0000;
    DivAtLeast(clock, 0x8_0000, 1);
  }

  lemma FixedRegisters(clock: nat)
    ensures ClockDivToFrequency(clock, EQU_SYSCLK) == clock
    ensures ClockDivToFrequency(clock, MIN_FREQ_REG) == clock / 0x8_0000
  {
    UnpackPack(ClockReg(0, 0, 63, 8191, 0));
    UnpackPack(ClockReg(0, 0, 0, 0, 1));
  }

  /** The inner loop: the four candidates for one counter value. */
  method TryCounter(clock: nat, freq: nat, calN: nat, reg0: ClockReg, freq0: nat)
    returns (bestReg: ClockReg, bestFreq: nat, exact: bool)
    requires freq > 0 && 1 <= calN < 64
    requires Tracked(clock, freq, reg0, freq0, false)
    ensures Tracked(clock, freq, bestReg, bestFreq, exact)
    ensures !exact ==> freq0 <= bestFreq && TriedUpTo(clock, freq, calN, 2, bestFreq)
    ensures (!exact && bestReg == reg0 && bestFreq == freq0) || (bestReg.n == calN && (exact || bestFreq > freq0))
  {
    hide RegFrequency;
    bestReg, bestFreq, exact := reg0, freq0, false;
    var vari := -2;
    while vari <= 1
      invariant -2 <= vari <= 2 && !exact && freq0 <= bestFreq
      invariant Tracked(clock, freq, bestReg, bestFreq, false)
      invariant TriedUpTo(clock, freq, calN, vari, bestFreq)
      invariant (bestReg == reg0 && bestFreq == freq0) || (bestReg.n == calN && bestFreq > freq0)
    {
      vari := vari + 1;
      var calPre := clock / (calN + 1) / freq - 1 + vari;
      var pre := if calPre > 0x1FFF then 0x1FFF else if calPre <= 0 then 0 else calPre;
      assert pre == Candidate(clock, freq, calN, vari);
      var reg := ClockReg((calN + 1) / 2, 0, calN, pre, 0);
      var calFreq := RegFrequency(clock, calN, pre);
      if calFreq == freq {
        bestReg, exact := reg, true;
        break;
      } else if calFreq < freq {
        if freq - calFreq < freq - bestFreq {
          bestFreq := calFreq;
          bestReg := reg;
        }
      }
    }
  }

  method FrequencyToClockDiv(clock: nat, freq: nat) returns (value: nat)
    requires UsableClock(clock)
    ensures Serves(clock, freq, value)
  {
    FixedRegisters(clock);
    if freq >= clock {
      return EQU_SYSCLK;
    }
    var minFreq := ClockDivToFrequency(clock, MIN_FREQ_REG);
    if freq < minFreq {
      return MIN_FREQ_REG;
    }
    DivAtLeast(clock, 0x8_0000, 1);
    hide RegFrequency, ClockDivToFrequency;
    var calN := 1;
    var bestReg := ClockReg(0, 0, 0, 0, 0);
    var bestFreq: nat := 0;
    var exact := false;
    while calN <= 0x3F
      invariant 1 <= calN <= 64 && !exact
      invariant Tracked(clock, freq, bestReg, bestFreq, false)
      invariant Covered(clock, freq, calN, bestFreq) && FirstAt(clock, bestReg.n, bestFreq)
    {
      bestReg, bestFreq, exact := TryCounter(clock, freq, calN, bestReg, bestFreq);
      if exact {
        assert FirstAt(clock, bestReg.n, freq);
        break;
      }
      CounterCovered(clock, freq, calN, bestFreq);
      calN := calN + 1;
    }
    if !exact {
      SomethingFound(clock, freq, bestFreq);
    }
    value := Pack(bestReg);
    PackedFrequency(clock, bestReg);
    assert WordFor(bestReg.n, bestReg.pre, value);
  }

  lemma PackedFrequency(clock: nat, reg: ClockReg)
    requires InFields(reg)
    ensures Unpack(Pack(reg)) == reg
    ensures ClockDivToFrequency(clock, Pack(reg)) == RegFrequency(clock, reg.n, reg.pre)
  {
    UnpackPack(reg);
  }

  /** What a register word stands for, whatever is in its other fields. */
  lemma WordFrequency(clock: nat, l: nat, h: nat, n: nat, pre: nat, equ: nat)
    requires l < 64 && h < 64 && n < 64 && pre < 8192 && equ < 2
    ensures ClockDivToFrequency(clock, l + 0x40 * h + 0x1000 * n + 0x4_0000 * pre + 0x8000_0000 * equ) ==
            clock / ((pre + 1) * (n + 1))
  {
    PackedFrequency(clock, ClockReg(l, h, n, pre, equ));
  }

  // ---------- What this gives the caller ----------

  /** Every setting of the search is slower than the clock and no slower than the slowest one. */
  lemma SearchRange(clock: nat, n: nat, pre: nat)
    requires UsableClock(clock) && InSearch(n, pre)
    ensures clock / 0x8_0000 <= RegFrequency(clock, n, pre) < clock
  {
    MulOrder(pre + 1, 2, n + 1);
    MulOrder(pre + 1, n + 1, 64);
    var d := (pre + 1) * (n + 1);
    assert 2 <= d <= 0x8_0000;
    DivAntitone(clock, d, 0x8_0000);
    DivAntitone(clock, 2, d);
  }

  /** The frequency a served request runs at: between the slowest setting and the clock, and not
      above the request unless the request is below the slowest setting. */
  lemma ServedRange(clock: nat, freq: nat, value: nat)
    requires UsableClock(clock) && Serves(clock, freq, value)
    ensures var f := ClockDivToFrequency(clock, value);
            && clock / 0x8_0000 <= f <= clock
            && (freq >= clock ==> f == clock)
            && (freq < clock / 0x8_0000 ==> f == clock / 0x8_0000)
            && (f <= freq || freq < clock / 0x8_0000)
  {
    FixedRegisters(clock);
    if clock / 0x8_0000 <= freq < clock {
      hide RegFrequency, ClockDivToFrequency;
      var f := ClockDivToFrequency(clock, value);
      var n: nat, pre: nat :| InSearch(n, pre) && RegFrequency(clock, n, pre) == f;
      SearchRange(clock, n, pre);
    } else {
      DivAtMost(clock, 0x8_0000, clock);
    }
  }

  /** A higher request never gives a slower bus. */
  lemma ServedMonotone(clock: nat, freq1: nat, value1: nat, freq2: nat, value2: nat)
    requires UsableClock(clock) && freq1 <= freq2
    requires Serves(clock, freq1, value1) && Serves(clock, freq2, value2)
    ensures ClockDivToFrequency(clock, value1) <= ClockDivToFrequency(clock, value2)
  {
    ServedRange(clock, freq1, value1);
    ServedRange(clock, freq2, value2);
    if clock / 0x8_0000 <= freq1 && freq2 < clock {
      hide RegFrequency, ClockDivToFrequency;
      var f1, f2 := ClockDivToFrequency(clock, value1), ClockDivToFrequency(clock, value2);
      var n: nat, pre: nat :| InSearch(n, pre) && RegFrequency(clock, n, pre) == f1;
      assert RegFrequency(clock, n, pre) <= f2;
    }
  }

  /** A request is met to the hertz exactly when it is the clock itself or some setting reaches it. */
  lemma ServedExact(clock: nat, freq: nat, value: nat)
    requires UsableClock(clock) && Serves(clock, freq, value)
    ensures ClockDivToFrequency(clock, value) == freq <==>
            freq == clock || exists n: nat, pre: nat :: InSearch(n, pre) && RegFrequency(clock, n, pre) == freq
  {
    ServedRange(clock, freq, value);
    hide RegFrequency, ClockDivToFrequency;
    if n: nat, pre: nat :| InSearch(n, pre) && RegFrequency(clock, n, pre) == freq {
      SearchRange(clock, n, pre);
      assert RegFrequency(clock, n, pre) <= ClockDivToFrequency(clock, value);
    }
  }

  /** Converting a register word to a frequency and back keeps the frequency exactly if the counter is
      not zero, or the clock is not divided at all, or a setting of the search has this frequency. */
  lemma ConversionsReproduce(clock: nat, word: nat, value: nat)
    requires UsableClock(clock) && Serves(clock, ClockDivToFrequency(clock, word), value)
    ensures var f := ClockDivToFrequency(clock, word);
            ClockDivToFrequency(clock, value) == f <==>
              || Unpack(word).n > 0 || Unpack(word).pre == 0
              || exists n: nat, pre: nat :: InSearch(n, pre) && RegFrequency(clock, n, pre) == f
  {
    var reg := Unpack(word);
    ServedExact(clock, ClockDivToFrequency(clock, word), value);
    if reg.n > 0 {
      assert InSearch(reg.n, reg.pre);
    } else if reg.pre > 0 {
      DivAntitone(clock, 2, reg.pre + 1);
      assert clock / 2 < clock;
    } else {
      assert RegFrequency(clock, 0, 0) == clock;
    }
  }
}
