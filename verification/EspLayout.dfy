/** Arranging the segments of an ESP32 firmware image.

  A flash-mapped segment must lie in the file at an offset congruent to its address modulo 64 KiB.
  The gaps in front of them are filled with pieces cut from the RAM segments, or with zeros.
*/
module EspLayout {
  import opened LittleEndian

  const IROM_ALIGN := 0x1_0000
  const SEG_HEADER_LEN := 8

  datatype Segment = Segment(addr: nat, data: seq<byte>)

  function Zeros(n: nat): (z: seq<byte>)
    ensures |z| == n && forall i :: 0 <= i < n ==> z[i] == 0
  {
    seq(n, i => 0)
  }

  /** The constructor pads all data with zeros to a multiple of four bytes. */
  function MakeSegment(addr: nat, data: seq<byte>): (s: Segment)
    ensures |s.data| % 4 == 0 && data <= s.data && |s.data| < |data| + 4
    ensures |data| % 4 == 0 ==> s == Segment(addr, data)
  {
    if |data| % 4 == 0 then Segment(addr, data) else Segment(addr, data + Zeros(4 - |data| % 4))
  }

  predicate IsFlash(s: Segment) {
    0x400D_0000 <= s.addr < 0x4040_0000 || 0x3F40_0000 <= s.addr < 0x3F80_0000
  }

  /** In pages of 64 KiB: 0x400D to 0x403F for instructions, 0x3F40 to 0x3F7F for data. */
  lemma FlashPages(s: Segment)
    ensures IsFlash(s) <==>
            0x400D <= s.addr / 0x1_0000 <= 0x403F || 0x3F40 <= s.addr / 0x1_0000 <= 0x3F7F
  {
  }

  // ---------- The gap in front of a flash segment ----------

  /** Data bytes of padding needed at file position `pos`, as the source computes them. */
  function AlignmentNeeded(pos: nat, addr: nat): nat {
    var alignPast := addr % IROM_ALIGN - SEG_HEADER_LEN;
    var padLen := IROM_ALIGN - pos % IROM_ALIGN + alignPast;
    if padLen == 0 || padLen == IROM_ALIGN then 0
    else if padLen - SEG_HEADER_LEN < 0 then padLen - SEG_HEADER_LEN + IROM_ALIGN
    else padLen - SEG_HEADER_LEN
  }

  /** The data of a segment whose header starts at `pos` lands congruent to its address. */
  predicate Aligned(pos: nat, addr: nat) {
    (pos + SEG_HEADER_LEN) % IROM_ALIGN == addr % IROM_ALIGN
  }

  /** The one position where no padding is asked for although the segment is not aligned: the gap
      is exactly one header. */
  predicate HeaderGap(pos: nat, addr: nat) {
    pos % IROM_ALIGN == IROM_ALIGN - 2 * SEG_HEADER_LEN + addr % IROM_ALIGN
  }

  lemma NeededExact(pos: nat, addr: nat)
    ensures AlignmentNeeded(pos, addr) == 0 <==> Aligned(pos, addr) || HeaderGap(pos, addr)
    ensures !(Aligned(pos, addr) && HeaderGap(pos, addr))
  {
    AlignedMeans(pos, addr);
  }

  lemma AlignedMeans(pos: nat, addr: nat)
    ensures var p, a := pos % IROM_ALIGN, addr % IROM_ALIGN;
            Aligned(pos, addr) <==> p + 8 == a || p + 8 == a + IROM_ALIGN
  {
    var q, p := pos / IROM_ALIGN, pos % IROM_ALIGN;
    assert pos + 8 == IROM_ALIGN * q + (p + 8);
    if p + 8 < IROM_ALIGN {
      ModIs(pos + 8, q, p + 8);
    } else {
      ModIs(pos + 8, q + 1, p + 8 - IROM_ALIGN);
    }
  }

  lemma ModIs(x: nat, q: nat, r: nat)
    requires x == IROM_ALIGN * q + r && r < IROM_ALIGN
    ensures x % IROM_ALIGN == r
  {
  }

  /** Writing a segment with as many data bytes as asked for aligns the next header. */
  lemma PaddingAligns(pos: nat, addr: nat)
    requires AlignmentNeeded(pos, addr) > 0
    ensures Aligned(pos + SEG_HEADER_LEN + AlignmentNeeded(pos, addr), addr)
    ensures !Aligned(pos, addr)
  {
    NeededExact(pos, addr);
    var n := AlignmentNeeded(pos, addr);
    var q, p, a := pos / IROM_ALIGN, pos % IROM_ALIGN, addr % IROM_ALIGN;
    var x := pos + SEG_HEADER_LEN + n + SEG_HEADER_LEN;
    assert pos == IROM_ALIGN * q + p;
    var raw := IROM_ALIGN - p + a - 8;
    if raw - 8 < 0 {
      assert x == IROM_ALIGN * (q + 2) + a;
      ModIs(x, q + 2, a);
    } else {
      assert x == IROM_ALIGN * (q + 1) + a;
      ModIs(x, q + 1, a);
    }
  }

  /** The padding is less than a page exactly when the address is not too far behind the position, each
      taken within its page. */
  lemma NeededPages(pos: nat, addr: nat)
    ensures AlignmentNeeded(pos, addr) < IROM_ALIGN <==> addr % IROM_ALIGN < pos % IROM_ALIGN + 2 * SEG_HEADER_LEN
    ensures AlignmentNeeded(pos, addr) < 2 * IROM_ALIGN
  {
    var p, a := pos % IROM_ALIGN, addr % IROM_ALIGN;
    assert 0 <= p < IROM_ALIGN && 0 <= a < IROM_ALIGN;
  }

  /** The size asked for is the least that aligns, exactly under that condition. */
  lemma NeededLeastExact(pos: nat, addr: nat)
    requires AlignmentNeeded(pos, addr) > 0
    ensures addr % IROM_ALIGN < pos % IROM_ALIGN + 2 * SEG_HEADER_LEN <==>
            forall next: nat :: next >= pos + SEG_HEADER_LEN && Aligned(next, addr) ==>
              next >= pos + SEG_HEADER_LEN + AlignmentNeeded(pos, addr)
  {
    var need := AlignmentNeeded(pos, addr);
    var end := pos + SEG_HEADER_LEN + need;
    PaddingAligns(pos, addr);
    NeededPages(pos, addr);
    hide AlignmentNeeded;
    if need >= IROM_ALIGN {
      OnePageLess(end, addr);
      assert Aligned(end - IROM_ALIGN, addr);
    } else {
      forall next: nat | next >= pos + SEG_HEADER_LEN && Aligned(next, addr)
        ensures next >= end
      {
        if next < end {
          AlignedApart(next, end, addr);
        }
      }
    }
  }

  lemma OnePageLess(pos: nat, addr: nat)
    requires pos >= IROM_ALIGN && Aligned(pos, addr)
    ensures Aligned(pos - IROM_ALIGN, addr)
  {
    var x := pos + SEG_HEADER_LEN;
    ModIs(x - IROM_ALIGN, x / IROM_ALIGN - 1, x % IROM_ALIGN);
  }

  /** Aligned positions are whole pages apart. */
  lemma AlignedApart(a: nat, b: nat, addr: nat)
    requires Aligned(a, addr) && Aligned(b, addr) && a < b
    ensures b - a >= IROM_ALIGN
  {
    var x, y := a + SEG_HEADER_LEN, b + SEG_HEADER_LEN;
    assert y - x == IROM_ALIGN * (y / IROM_ALIGN - x / IROM_ALIGN);
  }

  // ---------- The loop ----------

  /** What a written segment is: a flash segment, a piece of a RAM segment, or zero padding. */
  datatype Kind = Flash | Ram | Pad

  datatype Piece = Piece(kind: Kind, seg: Segment)

  /** File position, segments still to place, and what has been written. */
  datatype Layout = Layout(pos: nat, flash: seq<Segment>, ram: seq<Segment>, out: seq<Piece>) {
    function Write(p: Piece): Layout {
      this.(pos := pos + SEG_HEADER_LEN + |p.seg.data|, out := out + [p])
    }
  }

  datatype Step = Next(l: Layout) | Finished | AssertionFailed

  /** `split_image`: the first `n` bytes, and the rest at an address moved by `n`. */
  function SplitOff(s: Segment, n: nat): (Segment, Segment) {
    var k := if n < |s.data| then n else |s.data|;
    (Segment(s.addr, s.data[..k]), Segment(s.addr + n, s.data[k..]))
  }

  /** One iteration of the loop that places the flash segments. */
  function OneStep(l: Layout): Step {
    if l.flash == [] then Finished else
    var segment := l.flash[0];
    var need := AlignmentNeeded(l.pos, segment.addr);
    if need > 0 then
      if l.ram != [] && need > SEG_HEADER_LEN then
        var (piece, rest) := SplitOff(l.ram[0], need);
        var ram := if rest.data == [] then l.ram[1..] else [rest] + l.ram[1..];
        Next(l.(ram := ram).Write(Piece(Ram, piece)))
      else
        Next(l.Write(Piece(Pad, MakeSegment(0, Zeros(need)))))
    else if Aligned(l.pos, segment.addr) then
      Next(l.(flash := l.flash[1..]).Write(Piece(Flash, segment)))
    else
      AssertionFailed
  }

  /** The assertion in the loop fires exactly when the gap is one header. */
  lemma AssertionExact(l: Layout)
    requires l.flash != []
    ensures OneStep(l).AssertionFailed? <==> HeaderGap(l.pos, l.flash[0].addr)
  {
    NeededExact(l.pos, l.flash[0].addr);
    hide AlignmentNeeded, Aligned, HeaderGap;
  }

  // ---------- When the loop ends ----------

  /** The source loops for ever on such a state: no RAM segment is left to cut from, and zero padding
      comes in multiples of four bytes, so the next flash segment is never aligned. */
  predicate Stuck(l: Layout) {
    l.ram == [] && l.flash != [] && l.flash[0].addr % 4 != l.pos % 4
  }

  /** 0 when the next flash segment needs no padding, 2 when the gap is at most a header. */
  function Rank(l: Layout): nat {
    if l.flash == [] || AlignmentNeeded(l.pos, l.flash[0].addr) == 0 then 0
    else if AlignmentNeeded(l.pos, l.flash[0].addr) > SEG_HEADER_LEN then 1
    else 2
  }

  /** A few bytes too many leave the longest gap. */
  lemma Overshoot(pos: nat, addr: nat, d: nat)
    requires Aligned(pos, addr) && 1 <= d <= 3
    ensures AlignmentNeeded(pos + d, addr) == IROM_ALIGN - SEG_HEADER_LEN - d
  {
    AlignedMeans(pos, addr);
    var q, p, a := pos / IROM_ALIGN, pos % IROM_ALIGN, addr % IROM_ALIGN;
    assert pos == IROM_ALIGN * q + p;
    if p + d < IROM_ALIGN {
      ModIs(pos + d, q, p + d);
    } else {
      ModIs(pos + d, q + 1, p + d - IROM_ALIGN);
    }
  }

  lemma PageMod4(x: nat)
    ensures x % IROM_ALIGN % 4 == x % 4
  {
    var q, r := x / IROM_ALIGN, x % IROM_ALIGN;
    var c, d := r / 4, r % 4;
    assert x == 4 * (0x4000 * q + c) + d;
    Mod4Is(x, 0x4000 * q + c, d);
  }

  lemma Mod4Is(x: nat, q: nat, r: nat)
    requires x == 4 * q + r && r < 4
    ensures x % 4 == r
  {
  }

  lemma NeededMod4(pos: nat, addr: nat)
    requires pos % 4 == addr % 4
    ensures AlignmentNeeded(pos, addr) % 4 == 0
  {
    PageMod4(pos);
    PageMod4(addr);
    hide *;
    NeededOfPages(pos, addr);
  }

  lemma NeededOfPages(pos: nat, addr: nat)
    requires pos % IROM_ALIGN % 4 == addr % IROM_ALIGN % 4
    ensures AlignmentNeeded(pos, addr) % 4 == 0
  {
    var d := addr % IROM_ALIGN - pos % IROM_ALIGN;
    assert d % 4 == 0;
  }

  /** A segment of the size asked for needs no further padding behind it. */
  lemma PaddedNeedsNothing(pos: nat, addr: nat)
    requires AlignmentNeeded(pos, addr) > 0
    ensures AlignmentNeeded(pos + SEG_HEADER_LEN + AlignmentNeeded(pos, addr), addr) == 0
  {
    PaddingAligns(pos, addr);
    NeededExact(pos + SEG_HEADER_LEN + AlignmentNeeded(pos, addr), addr);
    hide AlignmentNeeded, Aligned, HeaderGap;
  }

  /** Zeros in front of a flash segment: aligned if the gap is a multiple of four, and otherwise a
      little too long. */
  lemma ZerosLeave(pos: nat, addr: nat)
    requires AlignmentNeeded(pos, addr) > 0
    ensures var need := AlignmentNeeded(pos, addr);
            var after := AlignmentNeeded(pos + SEG_HEADER_LEN + |MakeSegment(0, Zeros(need)).data|, addr);
            if need % 4 == 0 then after == 0 else after > SEG_HEADER_LEN
  {
    var need := AlignmentNeeded(pos, addr);
    PaddedNeedsNothing(pos, addr);
    PaddingAligns(pos, addr);
    if need % 4 != 0 {
      ZerosLength(need);
      Overshoot(pos + SEG_HEADER_LEN + need, addr, 4 - need % 4);
    }
    hide AlignmentNeeded, Aligned;
  }

  lemma ZerosLength(n: nat)
    requires n % 4 != 0
    ensures |MakeSegment(0, Zeros(n)).data| == n + (4 - n % 4)
  {
  }

  /** Unless it is stuck, each iteration places a flash segment, uses up a RAM segment, or improves
      the gap. */
  lemma StepDecreases(l: Layout)
    requires !Stuck(l) && OneStep(l).Next?
    ensures var l' := OneStep(l).l;
            || |l'.flash| < |l.flash|
            || (l'.flash == l.flash &&
                 (|l'.ram| < |l.ram| || (|l'.ram| == |l.ram| && Rank(l') < Rank(l))))
  {
    var addr := l.flash[0].addr;
    var need := AlignmentNeeded(l.pos, addr);
    if need > 0 {
      PaddedNeedsNothing(l.pos, addr);
      ZerosLeave(l.pos, addr);
      if l.ram == [] {
        NeededMod4(l.pos, addr);
      }
    }
    hide AlignmentNeeded, Aligned;
  }

  /** What the loop comes to. */
  datatype Arrangement = Arranged(l: Layout) | Asserted | Endless

  /** The whole loop. */
  function Arrange(l: Layout): Arrangement
    decreases |l.flash|, |l.ram|, Rank(l)
  {
    if Stuck(l) then Endless
    else match OneStep(l)
      case Finished => Arranged(l)
      case AssertionFailed => Asserted
      case Next(l') => StepDecreases(l); Arrange(l')
  }

  /** The loop as it runs: `n` iterations, with no view to its end. */
  function Iterate(l: Layout, n: nat): Step {
    if n == 0 then Next(l)
    else match Iterate(l, n - 1)
      case Next(l') => OneStep(l')
      case other => other
  }

  lemma {:induction false} IterateFront(l: Layout, n: nat)
    requires OneStep(l).Next?
    ensures Iterate(l, n + 1) == Iterate(OneStep(l).l, n)
  {
    hide OneStep;
    if n == 0 {
      assert Iterate(l, 0) == Next(l);
    } else {
      IterateFront(l, n - 1);
    }
  }

  lemma StillStuck(l: Layout)
    requires Stuck(l)
    ensures OneStep(l).Next? && Stuck(OneStep(l).l)
  {
    var addr := l.flash[0].addr;
    NotAlignedMod4(l.pos, addr);
    NeededExact(l.pos, addr);
    hide AlignmentNeeded, Aligned, HeaderGap;
    SameMod4(l.pos, |MakeSegment(0, Zeros(AlignmentNeeded(l.pos, addr))).data|);
  }

  lemma SameMod4(pos: nat, n: nat)
    requires n % 4 == 0
    ensures (pos + SEG_HEADER_LEN + n) % 4 == pos % 4
  {
  }

  lemma NotAlignedMod4(pos: nat, addr: nat)
    requires pos % 4 != addr % 4
    ensures !Aligned(pos, addr) && !HeaderGap(pos, addr)
  {
    PageMod4(pos);
    PageMod4(addr);
    AlignedMeans(pos, addr);
    hide Aligned;
    var p, a := pos % IROM_ALIGN, addr % IROM_ALIGN;
    PagesDiffer(p, a);
  }

  lemma PagesDiffer(p: nat, a: nat)
    requires p % 4 != a % 4
    ensures p + 8 != a && p + 8 != a + IROM_ALIGN && p != IROM_ALIGN - 2 * SEG_HEADER_LEN + a
  {
  }

  lemma {:induction false} StuckForEver(l: Layout, n: nat)
    requires Stuck(l)
    ensures Iterate(l, n).Next? && Stuck(Iterate(l, n).l)
  {
    if n > 0 {
      StuckForEver(l, n - 1);
      StillStuck(Iterate(l, n - 1).l);
      hide Stuck, OneStep;
    }
  }

  /** Running the loop long enough shows what it comes to. */
  lemma {:induction false} ArrangeIterates(l: Layout) returns (n: nat)
    ensures Iterate(l, n).Next?
    ensures var last := Iterate(l, n).l;
            match Arrange(l)
            case Arranged(end) => last == end && OneStep(last).Finished?
            case Asserted => OneStep(last).AssertionFailed?
            case Endless => Stuck(last)
    decreases |l.flash|, |l.ram|, Rank(l)
  {
    if Stuck(l) || !OneStep(l).Next? {
      n := 0;
      assert Iterate(l, 0) == Next(l);
    } else {
      StepDecreases(l);
      n := ArrangeIterates(OneStep(l).l);
      IterateFront(l, n);
      n := n + 1;
    }
  }

  lemma {:induction false} IterateFrom(l: Layout, n: nat, k: nat)
    requires Iterate(l, n).Next?
    ensures Iterate(l, n + k) == Iterate(Iterate(l, n).l, k)
  {
    hide OneStep;
    if k > 0 {
      IterateFrom(l, n, k - 1);
    }
  }

  /** The loop runs for ever exactly when it comes to a stuck state: one with no RAM segment left and
      a next flash address that differs from the file position modulo four. */
  lemma EndlessExact(l: Layout)
    ensures (forall n: nat :: Iterate(l, n).Next?) <==> Arrange(l).Endless?
    ensures Arrange(l).Endless? <==> exists n: nat :: Iterate(l, n).Next? && Stuck(Iterate(l, n).l)
  {
    var n := ArrangeIterates(l);
    hide OneStep, Stuck;
    if Arrange(l).Endless? {
      assert Iterate(l, n).Next? && Stuck(Iterate(l, n).l);
      StuckMeansForEver(l, n);
    } else {
      assert !Iterate(l, n + 1).Next?;
      if m: nat :| Iterate(l, m).Next? && Stuck(Iterate(l, m).l) {
        StuckMeansForEver(l, m);
      }
    }
  }

  lemma StuckMeansForEver(l: Layout, m: nat)
    requires Iterate(l, m).Next? && Stuck(Iterate(l, m).l)
    ensures forall k: nat :: Iterate(l, k).Next?
  {
    hide Stuck, Iterate;
    forall k: nat ensures Iterate(l, k).Next? {
      StuckThenNext(l, m, k);
    }
  }

  lemma StuckThenNext(l: Layout, m: nat, k: nat)
    requires Iterate(l, m).Next? && Stuck(Iterate(l, m).l)
    ensures Iterate(l, k).Next?
  {
    hide Stuck, Iterate;
    StuckForEver(Iterate(l, m).l, k);
    IterateFrom(l, m, k);
    LaterNext(l, k, m + k);
  }

  lemma {:induction false} LaterNext(l: Layout, k: nat, n: nat)
    requires k <= n && Iterate(l, n).Next?
    ensures Iterate(l, k).Next?
  {
    if k < n {
      LaterNext(l, k, n - 1);
    }
  }

  // ---------- What the caller can see beforehand ----------

  /** The segment constructor guarantees this of its own objects. */
  predicate WordSized(list: seq<Segment>) {
    forall i :: 0 <= i < |list| ==> |list[i].data| % 4 == 0
  }

  /** Flash addresses and all data come in multiples of four, and so does the file position. */
  predicate Tidy(l: Layout) {
    l.pos % 4 == 0 && FlashTidy(l.flash) && WordSized(l.ram)
  }

  predicate FlashTidy(flash: seq<Segment>) {
    forall i :: 0 <= i < |flash| ==> flash[i].addr % 4 == 0 && |flash[i].data| % 4 == 0
  }

  lemma Split4(s: Segment, n: nat)
    requires |s.data| % 4 == 0 && n % 4 == 0
    ensures var (piece, rest) := SplitOff(s, n);
            && |piece.data| % 4 == 0 && |rest.data| % 4 == 0
            && (rest.data != [] ==> |piece.data| == n)
  {
    if n < |s.data| {
      Sub4(|s.data|, n);
    }
  }

  lemma Sub4(x: nat, y: nat)
    requires x % 4 == 0 && y % 4 == 0 && y <= x
    ensures (x - y) % 4 == 0
  {
  }

  lemma Advance4(pos: nat, n: nat)
    requires pos % 4 == 0 && n % 4 == 0
    ensures (pos + SEG_HEADER_LEN + n) % 4 == 0
  {
  }

  lemma StepTidy(l: Layout)
    requires Tidy(l) && OneStep(l).Next?
    ensures Tidy(OneStep(l).l)
  {
    var need := AlignmentNeeded(l.pos, l.flash[0].addr);
    NeededMod4(l.pos, l.flash[0].addr);
    hide AlignmentNeeded, Aligned, SplitOff;
    if need == 0 {
      Advance4(l.pos, |l.flash[0].data|);
    } else if l.ram != [] && need > SEG_HEADER_LEN {
      Split4(l.ram[0], need);
      Advance4(l.pos, |SplitOff(l.ram[0], need).0.data|);
    } else {
      Advance4(l.pos, need);
    }
  }

  /** With flash addresses that are multiples of four the loop always ends. */
  lemma {:induction false} TidyEnds(l: Layout)
    requires Tidy(l)
    ensures !Arrange(l).Endless?
    decreases |l.flash|, |l.ram|, Rank(l)
  {
    assert !Stuck(l);
    if OneStep(l).Next? {
      StepDecreases(l);
      StepTidy(l);
      hide Stuck, OneStep, Tidy;
      TidyEnds(OneStep(l).l);
    }
  }

  /** All flash segments start at least 16 bytes into their page. */
  predicate ClearOfHeader(flash: seq<Segment>) {
    forall i :: 0 <= i < |flash| ==> flash[i].addr % IROM_ALIGN >= 2 * SEG_HEADER_LEN
  }

  /** For such segments the assertion never fires. */
  lemma {:induction false} ClearNeverAsserts(l: Layout)
    requires ClearOfHeader(l.flash)
    ensures !Arrange(l).Asserted?
    decreases |l.flash|, |l.ram|, Rank(l)
  {
    if !Stuck(l) && l.flash != [] {
      AssertionExact(l);
      StepDecreases(l);
      FlashShrinks(l);
      ClearNeverAsserts(OneStep(l).l);
    }
  }

  lemma FlashShrinks(l: Layout)
    requires OneStep(l).Next?
    ensures OneStep(l).l.flash == l.flash || (l.flash != [] && OneStep(l).l.flash == l.flash[1..])
  {
  }

  predicate AddressesTidy(flash: seq<Segment>) {
    forall i :: 0 <= i < |flash| ==> flash[i].addr % 4 == 0
  }

  /** Without RAM segments, and clear of the header gap, the loop ends exactly when all flash
      addresses are multiples of four. */
  lemma {:induction false} NoRamExact(l: Layout)
    requires l.ram == [] && l.pos % 4 == 0 && WordSized(l.flash) && ClearOfHeader(l.flash)
    ensures if AddressesTidy(l.flash) then Arrange(l).Arranged? else Arrange(l).Endless?
    decreases |l.flash|, |l.ram|, Rank(l)
  {
    ClearNeverAsserts(l);
    if l.flash != [] && !Stuck(l) {
      AssertionExact(l);
      StepDecreases(l);
      NoRamStep(l);
      hide Stuck, OneStep, AddressesTidy, WordSized, ClearOfHeader;
      NoRamExact(OneStep(l).l);
    }
  }

  lemma NoRamStep(l: Layout)
    requires l.ram == [] && l.pos % 4 == 0 && WordSized(l.flash) && ClearOfHeader(l.flash)
    requires !Stuck(l) && OneStep(l).Next?
    ensures var l' := OneStep(l).l;
            && l'.ram == [] && l'.pos % 4 == 0 && WordSized(l'.flash) && ClearOfHeader(l'.flash)
            && (AddressesTidy(l'.flash) <==> AddressesTidy(l.flash))
  {
    var addr := l.flash[0].addr;
    var need := AlignmentNeeded(l.pos, addr);
    hide AlignmentNeeded, Aligned;
    if need == 0 {
      Advance4(l.pos, |l.flash[0].data|);
      assert l.flash == [l.flash[0]] + l.flash[1..];
    } else {
      Advance4(l.pos, |MakeSegment(0, Zeros(need)).data|);
    }
  }

  // ---------- Exactly which flash segments are safe from the assertion ----------

  /** The same place within a page. */
  predicate SameOffset(a: nat, b: nat) {
    a % IROM_ALIGN == b % IROM_ALIGN
  }

  /** The padding depends on the position within its page only. */
  lemma SamePageOffset(pos: nat, pos': nat, addr: nat)
    requires SameOffset(pos, pos')
    ensures AlignmentNeeded(pos, addr) == AlignmentNeeded(pos', addr)
    ensures Aligned(pos, addr) <==> Aligned(pos', addr)
    ensures HeaderGap(pos, addr) <==> HeaderGap(pos', addr)
  {
    AlignedMeans(pos, addr);
    AlignedMeans(pos', addr);
  }

  /** No RAM segment can bring about the header gap in front of this segment: the gap needs an address
      within 16 bytes of its page start, and nothing is cut from RAM when the segment is aligned
      already or a short padding aligns it. */
  predicate HeadSafe(pos: nat, addr: nat) {
    || addr % IROM_ALIGN >= 2 * SEG_HEADER_LEN
    || Aligned(pos, addr)
    || 0 < AlignmentNeeded(pos, addr) <= SEG_HEADER_LEN
  }

  /** The same for all: behind a flash segment the file position is, within its page, where the
      segment ends in memory. */
  predicate AllSafe(pos: nat, flash: seq<Segment>)
    decreases |flash|
  {
    flash == [] || (HeadSafe(pos, flash[0].addr) && AllSafe(flash[0].addr + |flash[0].data|, flash[1..]))
  }

  lemma AllSafeSame(pos: nat, pos': nat, flash: seq<Segment>)
    requires SameOffset(pos, pos')
    ensures AllSafe(pos, flash) <==> AllSafe(pos', flash)
  {
    if flash != [] {
      SamePageOffset(pos, pos', flash[0].addr);
    }
  }

  lemma BehindPlaced(pos: nat, s: Segment)
    requires Aligned(pos, s.addr)
    ensures SameOffset(pos + SEG_HEADER_LEN + |s.data|, s.addr + |s.data|)
  {
    var x, n := pos + SEG_HEADER_LEN, |s.data|;
    assert x - s.addr == IROM_ALIGN * (x / IROM_ALIGN - s.addr / IROM_ALIGN);
    var q, r := (s.addr + n) / IROM_ALIGN, (s.addr + n) % IROM_ALIGN;
    ModIs(x + n, q + x / IROM_ALIGN - s.addr / IROM_ALIGN, r);
  }

  lemma StepSafe(l: Layout)
    requires Tidy(l) && l.flash != [] && AllSafe(l.pos, l.flash)
    ensures OneStep(l).Next? && AllSafe(OneStep(l).l.pos, OneStep(l).l.flash)
  {
    var s := l.flash[0];
    var need := AlignmentNeeded(l.pos, s.addr);
    NeededExact(l.pos, s.addr);
    NeededMod4(l.pos, s.addr);
    if need == 0 {
      if HeaderGap(l.pos, s.addr) {
        GapMeansLow(l.pos, s.addr);
      }
      BehindPlaced(l.pos, s);
      AllSafeSame(l.pos + SEG_HEADER_LEN + |s.data|, s.addr + |s.data|, l.flash[1..]);
    } else {
      PaddingAligns(l.pos, s.addr);
    }
    hide AlignmentNeeded, Aligned, HeaderGap;
  }

  lemma GapMeansLow(pos: nat, addr: nat)
    requires HeaderGap(pos, addr)
    ensures addr % IROM_ALIGN < 2 * SEG_HEADER_LEN
  {
  }

  lemma {:induction false} SafeNeverAsserts(l: Layout)
    requires Tidy(l) && AllSafe(l.pos, l.flash)
    ensures !Arrange(l).Asserted?
    decreases |l.flash|, |l.ram|, Rank(l)
  {
    if !Stuck(l) && l.flash != [] {
      StepSafe(l);
      StepDecreases(l);
      StepTidy(l);
      hide OneStep, Tidy, AllSafe, Stuck;
      SafeNeverAsserts(OneStep(l).l);
    }
  }

  /** What is used up in front of a segment, if anything is cut from RAM there. */
  function Filling(need: nat): seq<Segment> {
    if need > SEG_HEADER_LEN then [Segment(0, Zeros(need))] else []
  }

  /** RAM segments that lead into the header gap: one to fill each gap before the first segment that
      is not safe, and one that leaves a header's gap in front of that. */
  function Trap(pos: nat, flash: seq<Segment>): seq<Segment>
    requires !AllSafe(pos, flash)
    decreases |flash|
  {
    var need := AlignmentNeeded(pos, flash[0].addr);
    if HeadSafe(pos, flash[0].addr) then
      Filling(need) + Trap(flash[0].addr + |flash[0].data|, flash[1..])
    else if need > SEG_HEADER_LEN then [Segment(0, Zeros(need - SEG_HEADER_LEN))]
    else []
  }

  /** Segments of whole words, at address 0. */
  predicate Fillers(list: seq<Segment>) {
    forall i :: 0 <= i < |list| ==> |list[i].data| % 4 == 0 && list[i].addr == 0
  }

  lemma FillersAppend(a: seq<Segment>, b: seq<Segment>)
    requires Fillers(a) && Fillers(b)
    ensures Fillers(a + b)
  {
  }

  lemma {:induction false} TrapFillers(pos: nat, flash: seq<Segment>)
    requires !AllSafe(pos, flash) && FlashTidy(flash) && pos % 4 == 0
    ensures Fillers(Trap(pos, flash)) && WordSized(Trap(pos, flash))
    decreases |flash|
  {
    var need := AlignmentNeeded(pos, flash[0].addr);
    NeededMod4(pos, flash[0].addr);
    hide AlignmentNeeded, Aligned;
    if HeadSafe(pos, flash[0].addr) {
      TailTidy(flash);
      hide FlashTidy;
      TrapFillers(flash[0].addr + |flash[0].data|, flash[1..]);
      FillersAppend(Filling(need), Trap(flash[0].addr + |flash[0].data|, flash[1..]));
    }
  }

  lemma TailTidy(flash: seq<Segment>)
    requires FlashTidy(flash) && flash != []
    ensures FlashTidy(flash[1..]) && flash[0].addr % 4 == 0 && |flash[0].data| % 4 == 0
    ensures (flash[0].addr + |flash[0].data|) % 4 == 0
  {
  }

  lemma SplitWhole(s: Segment, n: nat)
    requires n >= |s.data|
    ensures SplitOff(s, n).0 == s && SplitOff(s, n).1.data == []
  {
  }

  lemma GapAsserts(l: Layout)
    requires l.flash != [] && HeaderGap(l.pos, l.flash[0].addr) && l.pos % 4 == l.flash[0].addr % 4
    ensures Arrange(l).Asserted?
  {
    AssertionExact(l);
    hide HeaderGap, OneStep;
  }

  lemma NextArranged(l: Layout)
    requires !Stuck(l) && OneStep(l).Next?
    ensures Arrange(l) == Arrange(OneStep(l).l)
  {
  }

  /** A whole RAM segment written into the gap. */
  lemma WholeCut(l: Layout) returns (l': Layout)
    requires l.flash != [] && l.ram != [] && l.pos % 4 == l.flash[0].addr % 4
    requires AlignmentNeeded(l.pos, l.flash[0].addr) > SEG_HEADER_LEN
    requires |l.ram[0].data| <= AlignmentNeeded(l.pos, l.flash[0].addr)
    ensures Arrange(l) == Arrange(l') && l'.flash == l.flash && l'.ram == l.ram[1..]
    ensures l'.pos == l.pos + SEG_HEADER_LEN + |l.ram[0].data|
  {
    hide AlignmentNeeded, Aligned, SplitOff, Arrange;
    SplitWhole(l.ram[0], AlignmentNeeded(l.pos, l.flash[0].addr));
    NextArranged(l);
    l' := OneStep(l).l;
  }

  /** A head that is not safe fails its assertion behind its trap. */
  lemma HeadTrapped(l: Layout)
    requires l.pos % 4 == 0 && l.flash != [] && l.flash[0].addr % 4 == 0
    requires !HeadSafe(l.pos, l.flash[0].addr) && l.ram == Trap(l.pos, l.flash)
    ensures Arrange(l).Asserted?
  {
    var addr := l.flash[0].addr;
    var need := AlignmentNeeded(l.pos, addr);
    NeededExact(l.pos, addr);
    hide AlignmentNeeded, HeaderGap, Aligned, Arrange;
    if need == 0 {
      GapAsserts(l);
    } else {
      assert l.ram == [Segment(0, Zeros(need - SEG_HEADER_LEN))] && addr % IROM_ALIGN < 2 * SEG_HEADER_LEN;
      NeededMod4(l.pos, addr);
      PaddingAligns(l.pos, addr);
      HeaderBefore(l.pos + need, addr);
      hide HeadSafe, AllSafe, Trap;
      SumMod4(l.pos, need);
      var l' := WholeCut(l);
      GapAsserts(l');
    }
  }

  lemma SumMod4(a: nat, b: nat)
    requires a % 4 == 0 && b % 4 == 0
    ensures (a + b) % 4 == 0
  {
  }

  /** One header in front of an aligned position, close to the page start. */
  lemma HeaderBefore(pos: nat, addr: nat)
    requires Aligned(pos + SEG_HEADER_LEN, addr) && addr % IROM_ALIGN < 2 * SEG_HEADER_LEN
    ensures HeaderGap(pos, addr)
  {
    AlignedMeans(pos + SEG_HEADER_LEN, addr);
    var q, p := pos / IROM_ALIGN, pos % IROM_ALIGN;
    if p + SEG_HEADER_LEN < IROM_ALIGN {
      ModIs(pos + SEG_HEADER_LEN, q, p + SEG_HEADER_LEN);
    } else {
      ModIs(pos + SEG_HEADER_LEN, q + 1, p + SEG_HEADER_LEN - IROM_ALIGN);
    }
  }

  lemma NothingFilled(need: nat, rest: seq<Segment>)
    requires need <= SEG_HEADER_LEN
    ensures Filling(need) + rest == rest
  {
  }

  lemma FillingFirst(need: nat, rest: seq<Segment>)
    requires need > SEG_HEADER_LEN
    ensures var ram := Filling(need) + rest; |ram| > 0 && ram[0] == Segment(0, Zeros(need)) && ram[1..] == rest
  {
  }

  /** A short padding, which leaves the RAM segments alone. */
  lemma ShortPadding(l: Layout) returns (l': Layout)
    requires l.flash != [] && l.pos % 4 == l.flash[0].addr % 4
    requires 0 < AlignmentNeeded(l.pos, l.flash[0].addr) <= SEG_HEADER_LEN
    requires AlignmentNeeded(l.pos, l.flash[0].addr) % 4 == 0
    ensures Arrange(l) == Arrange(l') && l'.flash == l.flash && l'.ram == l.ram
    ensures l'.pos == l.pos + SEG_HEADER_LEN + AlignmentNeeded(l.pos, l.flash[0].addr)
  {
    hide AlignmentNeeded, Aligned, Arrange;
    NextArranged(l);
    l' := OneStep(l).l;
  }

  /** The filling of a gap is used up exactly. */
  lemma GapFilled(l: Layout, rest: seq<Segment>) returns (l': Layout)
    requires l.pos % 4 == 0 && l.flash != [] && FlashTidy(l.flash)
    requires AlignmentNeeded(l.pos, l.flash[0].addr) > 0
    requires l.ram == Filling(AlignmentNeeded(l.pos, l.flash[0].addr)) + rest
    ensures Arrange(l) == Arrange(l') && l'.flash == l.flash && l'.ram == rest && l'.pos % 4 == 0
    ensures Aligned(l'.pos, l.flash[0].addr)
  {
    hide AlignmentNeeded, Aligned, FlashTidy, Arrange, Filling, OneStep;
    var addr := l.flash[0].addr;
    var need := AlignmentNeeded(l.pos, addr);
    TailTidy(l.flash);
    NeededMod4(l.pos, addr);
    PaddingAligns(l.pos, addr);
    Advance4(l.pos, need);
    if need > SEG_HEADER_LEN {
      FillingFirst(need, rest);
      l' := WholeCut(l);
    } else {
      NothingFilled(need, rest);
      l' := ShortPadding(l);
    }
  }

  /** A safe head is placed behind its filling. */
  lemma HeadFilled(l: Layout, rest: seq<Segment>) returns (l': Layout)
    requires l.pos % 4 == 0 && l.flash != [] && FlashTidy(l.flash) && HeadSafe(l.pos, l.flash[0].addr)
    requires l.ram == Filling(AlignmentNeeded(l.pos, l.flash[0].addr)) + rest
    ensures Arrange(l) == Arrange(l') && l'.flash == l.flash[1..] && l'.ram == rest && l'.pos % 4 == 0
    ensures SameOffset(l'.pos, l.flash[0].addr + |l.flash[0].data|)
  {
    hide AlignmentNeeded, Aligned, HeadSafe, Arrange, FlashTidy, SameOffset, Filling;
    if AlignmentNeeded(l.pos, l.flash[0].addr) == 0 {
      SafeUnpadded(l.pos, l.flash[0].addr);
      NothingFilled(AlignmentNeeded(l.pos, l.flash[0].addr), rest);
      l' := AlignedPlaced(l);
    } else {
      var l1 := GapFilled(l, rest);
      l' := AlignedPlaced(l1);
    }
  }

  lemma SafeUnpadded(pos: nat, addr: nat)
    requires HeadSafe(pos, addr) && AlignmentNeeded(pos, addr) == 0
    ensures Aligned(pos, addr)
  {
    NeededExact(pos, addr);
    if HeaderGap(pos, addr) {
      GapMeansLow(pos, addr);
    }
    hide AlignmentNeeded, Aligned, HeaderGap;
  }

  lemma AlignedPlaced(l: Layout) returns (l': Layout)
    requires l.pos % 4 == 0 && l.flash != [] && FlashTidy(l.flash) && Aligned(l.pos, l.flash[0].addr)
    ensures Arrange(l) == Arrange(l') && l'.flash == l.flash[1..] && l'.ram == l.ram && l'.pos % 4 == 0
    ensures SameOffset(l'.pos, l.flash[0].addr + |l.flash[0].data|)
  {
    var s := l.flash[0];
    TailTidy(l.flash);
    NeededExact(l.pos, s.addr);
    BehindPlaced(l.pos, s);
    Advance4(l.pos, |s.data|);
    hide AlignmentNeeded, Aligned, HeaderGap, FlashTidy, Arrange, SameOffset;
    NextArranged(l);
    l' := OneStep(l).l;
  }

  lemma OffsetsAgree(a: nat, b: nat)
    requires SameOffset(a, b)
    ensures SameOffset(b, a)
  {
  }

  lemma {:induction false} Trapped(l: Layout, pos: nat)
    requires l.pos % 4 == 0 && SameOffset(pos, l.pos) && FlashTidy(l.flash)
    requires !AllSafe(pos, l.flash) && l.ram == Trap(pos, l.flash)
    ensures Arrange(l).Asserted?
    decreases |l.flash|
  {
    var s := l.flash[0];
    SamePageOffset(pos, l.pos, s.addr);
    AllSafeSame(pos, l.pos, l.flash);
    hide AlignmentNeeded, Aligned, HeaderGap;
    TailTidy(l.flash);
    if HeadSafe(pos, s.addr) {
      var rest := Trap(s.addr + |s.data|, l.flash[1..]);
      assert l.ram == Filling(AlignmentNeeded(l.pos, s.addr)) + rest && !AllSafe(s.addr + |s.data|, l.flash[1..]);
      hide HeadSafe, Trap, Arrange, FlashTidy, AllSafe, Filling, SameOffset;
      var l' := HeadFilled(l, rest);
      OffsetsAgree(l'.pos, s.addr + |s.data|);
      Trapped(l', s.addr + |s.data|);
    } else {
      HeadTrapped(l);
    }
  }

  /** For word-aligned flash segments: the assertion stays silent whatever the RAM segments are,
      exactly when all flash segments are safe. */
  lemma AssertionFreeExact(pos: nat, flash: seq<Segment>)
    requires FlashTidy(flash) && pos % 4 == 0
    ensures AllSafe(pos, flash) <==>
            forall ram :: WordSized(ram) ==> !Arrange(Layout(pos, flash, ram, [])).Asserted?
  {
    if AllSafe(pos, flash) {
      forall ram | WordSized(ram) ensures !Arrange(Layout(pos, flash, ram, [])).Asserted? {
        SafeNeverAsserts(Layout(pos, flash, ram, []));
      }
    } else {
      TrapFillers(pos, flash);
      Trapped(Layout(pos, flash, Trap(pos, flash), []), pos);
    }
  }

  /** An example of such RAM segments, for an image with one flash segment. */
  lemma GapReached(addr: nat, flashData: seq<byte>, ramAddr: nat)
    requires addr % IROM_ALIGN < 2 * SEG_HEADER_LEN && addr % 4 == 0
    ensures var ram := Segment(ramAddr, Zeros(65488 + addr % IROM_ALIGN));
            |ram.data| % 4 == 0 && Arrange(Layout(24, [Segment(addr, flashData)], [ram], [])).Asserted?
  {
    var a := addr % IROM_ALIGN;
    PageMod4(addr);
    var ram := Segment(ramAddr, Zeros(65488 + a));
    var l := Layout(24, [Segment(addr, flashData)], [ram], []);
    assert AlignmentNeeded(24, addr) == 65496 + a;
    var l' := WholeCut(l);
    assert HeaderGap(l'.pos, addr);
    GapAsserts(l');
  }

  /** The first flash segment of an image comes at position 24, which is never aligned for an address
      within 16 bytes of its page start: there the bound on the address is exact. */
  lemma FirstSafeExact(addr: nat)
    requires addr % 4 == 0
    ensures HeadSafe(24, addr) <==> addr % IROM_ALIGN >= 2 * SEG_HEADER_LEN
  {
    AlignedMeans(24, addr);
  }

  /** With flash addresses clear of the page start the loop ends whatever the RAM segments are, exactly
      when all those addresses are multiples of four. */
  lemma EndsForAllRam(pos: nat, flash: seq<Segment>)
    requires WordSized(flash) && ClearOfHeader(flash) && pos % 4 == 0
    ensures AddressesTidy(flash) <==>
            forall ram :: WordSized(ram) ==> !Arrange(Layout(pos, flash, ram, [])).Endless?
  {
    if AddressesTidy(flash) {
      forall ram | WordSized(ram) ensures !Arrange(Layout(pos, flash, ram, [])).Endless? {
        TidyEnds(Layout(pos, flash, ram, []));
      }
    } else {
      NoRamExact(Layout(pos, flash, [], []));
      assert WordSized([]);
    }
  }

  // ---------- How many segments it takes ----------

  /** How many more pieces than segments there can still be: each flash segment costs at most one,
      and the next one nothing when it is already aligned. */
  function Extra(l: Layout): nat {
    if l.flash == [] then 0 else if Rank(l) == 0 then |l.flash| - 1 else |l.flash|
  }

  lemma StepCounts(l: Layout)
    requires Tidy(l) && OneStep(l).Next?
    ensures var l' := OneStep(l).l;
            |l'.out| + |l'.ram| + |l'.flash| + Extra(l') <= |l.out| + |l.ram| + |l.flash| + Extra(l)
  {
    var addr := l.flash[0].addr;
    var need := AlignmentNeeded(l.pos, addr);
    NeededMod4(l.pos, addr);
    if need > 0 {
      PaddedNeedsNothing(l.pos, addr);
      ZerosLeave(l.pos, addr);
    }
    hide AlignmentNeeded, Aligned;
  }

  lemma {:induction false} ArrangeCounts(l: Layout)
    requires Tidy(l) && Arrange(l).Arranged?
    ensures var end := Arrange(l).l;
            |end.out| + |end.ram| <= |l.out| + |l.ram| + |l.flash| + Extra(l)
    decreases |l.flash|, |l.ram|, Rank(l)
  {
    if OneStep(l).Next? {
      StepDecreases(l);
      StepTidy(l);
      StepCounts(l);
      hide OneStep, Tidy, Extra, Stuck;
      ArrangeCounts(OneStep(l).l);
    }
  }
}
