/** What arranging does to the program: which byte is loaded to which address, and the checksum. */
module EspContent {
  import opened LittleEndian
  import opened Sequences
  import opened StableSort
  import opened Wrappers
  import opened EspLayout

  /** A byte at an address. */
  datatype Cell = Cell(addr: nat, value: byte)

  function Cells(s: Segment): (c: seq<Cell>)
    ensures |c| == |s.data|
  {
    seq(|s.data|, i requires 0 <= i < |s.data| => Cell(s.addr + i, s.data[i]))
  }

  function AllCells(list: seq<Segment>): seq<Cell> {
    if list == [] then [] else AllCells(list[..|list| - 1]) + Cells(list[|list| - 1])
  }

  /** The segments of one kind among the written pieces. */
  function OfKind(out: seq<Piece>, kind: Kind): seq<Segment> {
    if out == [] then
      []
    else
      var k := |out| - 1;
      OfKind(out[..k], kind) + if out[k].kind == kind then [out[k].seg] else []
  }

  /** Bytes the pieces take in the file, headers included. */
  function Size(out: seq<Piece>): nat {
    if out == [] then 0 else Size(out[..|out| - 1]) + SEG_HEADER_LEN + |out[|out| - 1].seg.data|
  }

  const START: nat := 24 // common and extended header

  /** Everything written so far is where it belongs. */
  ghost predicate WellPlaced(out: seq<Piece>) {
    && (forall k :: 0 <= k < |out| && out[k].kind == Flash ==> Aligned(START + Size(out[..k]), out[k].seg.addr))
    && (forall k :: 0 <= k < |out| && out[k].kind == Pad ==> AllZero(out[k].seg))
  }

  predicate AllZero(s: Segment) {
    s.addr == 0 && forall i :: 0 <= i < |s.data| ==> s.data[i] == 0
  }

  // ---------- Small facts ----------

  lemma OfKindSnoc(out: seq<Piece>, p: Piece, kind: Kind)
    ensures OfKind(out + [p], kind) == OfKind(out, kind) + if p.kind == kind then [p.seg] else []
  {
    assert (out + [p])[..|out|] == out;
  }

  lemma AllCellsSnoc(list: seq<Segment>, s: Segment)
    ensures AllCells(list + [s]) == AllCells(list) + Cells(s)
  {
    assert (list + [s])[..|list|] == list;
  }

  lemma {:induction false} AllCellsAppend(a: seq<Segment>, b: seq<Segment>)
    ensures AllCells(a + b) == AllCells(a) + AllCells(b)
  {
    if b == [] {
      assert a + b == a;
    } else {
      hide Cells, AllCells;
      var k := |b| - 1;
      var init, last := b[..k], b[k];
      assert b == init + [last];
      AllCellsAppend(a, init);
      Associates(a, init, [last]);
      AllCellsSnoc(a + init, last);
      AllCellsSnoc(init, last);
      Associates(AllCells(a), AllCells(init), Cells(last));
    }
  }

  lemma AllCellsOne(s: Segment)
    ensures AllCells([s]) == Cells(s)
  {
    AllCellsSnoc([], s);
    assert [] + [s] == [s];
  }

  /** Splitting a segment splits its cells. */
  lemma SplitCells(s: Segment, n: nat)
    ensures var (piece, rest) := SplitOff(s, n);
            Cells(s) == Cells(piece) + if rest.data == [] then [] else Cells(rest)
  {
  }

  lemma WellPlacedSnoc(out: seq<Piece>, p: Piece)
    requires WellPlaced(out)
    requires p.kind == Flash ==> Aligned(START + Size(out), p.seg.addr)
    requires p.kind == Pad ==> AllZero(p.seg)
    ensures WellPlaced(out + [p]) && Size(out + [p]) == Size(out) + SEG_HEADER_LEN + |p.seg.data|
  {
    hide Aligned, AllZero;
    var r := out + [p];
    assert r[..|out|] == out;
    forall k | 0 <= k < |r| && r[k].kind == Flash
      ensures Aligned(START + Size(r[..k]), r[k].seg.addr)
    {
      if k < |out| {
        assert r[..k] == out[..k];
      }
    }
  }

  // ---------- The loop keeps all of it ----------

  /** What the loop has to preserve, relative to the segments it started with. */
  ghost predicate Faithful(l: Layout, flash: seq<Segment>, ram: seq<Segment>) {
    && l.pos == START + Size(l.out)
    && WellPlaced(l.out)
    && OfKind(l.out, Flash) + l.flash == flash
    && AllCells(OfKind(l.out, Ram)) + AllCells(l.ram) == AllCells(ram)
  }

  lemma StepFaithful(l: Layout, flash: seq<Segment>, ram: seq<Segment>)
    requires Faithful(l, flash, ram) && OneStep(l).Next?
    ensures Faithful(OneStep(l).l, flash, ram)
  {
    var p, l' := NewPiece(l), OneStep(l).l;
    StepMoves(l);
    hide OneStep, WellPlaced, NewPiece;
    WellPlacedSnoc(l.out, p);
    OfKindSnoc(l.out, p, Flash);
    OfKindSnoc(l.out, p, Ram);
    var flashOut, ramOut := OfKind(l.out, Flash), OfKind(l.out, Ram);
    hide OfKind, AllCells, Cells;
    AppendNothing(flashOut);
    AppendNothing(ramOut);
    if p.kind == Flash {
      Associates(flashOut, [p.seg], l'.flash);
    } else if p.kind == Ram {
      AllCellsSnoc(ramOut, p.seg);
      Associates(AllCells(ramOut), Cells(p.seg), AllCells(l'.ram));
    }
  }

  /** Where the piece of an iteration comes from. */
  lemma StepMoves(l: Layout)
    requires OneStep(l).Next?
    ensures var p, l' := NewPiece(l), OneStep(l).l;
            && l'.pos == l.pos + SEG_HEADER_LEN + |p.seg.data| && l'.out == l.out + [p]
            && (p.kind == Flash ==> l.flash == [p.seg] + l'.flash && l'.ram == l.ram)
            && (p.kind != Flash ==> l'.flash == l.flash)
            && (p.kind == Ram ==> Cells(p.seg) + AllCells(l'.ram) == AllCells(l.ram))
            && (p.kind == Pad ==> l'.ram == l.ram)
  {
    var need := AlignmentNeeded(l.pos, l.flash[0].addr);
    if need > 0 && l.ram != [] {
      RamPiece(l, need);
    }
    hide AlignmentNeeded, Aligned, SplitOff, AllCells, Cells;
  }

  /** The piece written by an iteration. */
  function NewPiece(l: Layout): (p: Piece)
    requires OneStep(l).Next?
    ensures OneStep(l).l.out == l.out + [p]
    ensures p.kind == Flash ==> Aligned(l.pos, p.seg.addr)
    ensures p.kind == Pad ==> AllZero(p.seg)
  {
    var need := AlignmentNeeded(l.pos, l.flash[0].addr);
    if need == 0 then Piece(Flash, l.flash[0])
    else if l.ram != [] && need > SEG_HEADER_LEN then Piece(Ram, SplitOff(l.ram[0], need).0)
    else Piece(Pad, MakeSegment(0, Zeros(need)))
  }

  lemma RamPiece(l: Layout, need: nat)
    requires l.ram != []
    ensures var (piece, rest) := SplitOff(l.ram[0], need);
            var ram := if rest.data == [] then l.ram[1..] else [rest] + l.ram[1..];
            Cells(piece) + AllCells(ram) == AllCells(l.ram)
  {
    var (piece, rest) := SplitOff(l.ram[0], need);
    SplitCells(l.ram[0], need);
    AllCellsOne(l.ram[0]);
    AllCellsOne(rest);
    AllCellsAppend([l.ram[0]], l.ram[1..]);
    AllCellsAppend([rest], l.ram[1..]);
    assert l.ram == [l.ram[0]] + l.ram[1..];
    hide Cells, AllCells, SplitOff;
    AppendNothing(Cells(piece));
    Associates(Cells(piece), Cells(rest), AllCells(l.ram[1..]));
  }

  // ---------- RAM contents are used before zeros ----------

  /** A piece is cut off a RAM segment only when it is worth its header, and zeros are written only
      for a gap that is not, or when no RAM segment is left. */
  lemma StepEconomical(l: Layout)
    requires OneStep(l).Next?
    ensures NewPiece(l).kind == Ram ==> |NewPiece(l).seg.data| > SEG_HEADER_LEN || |OneStep(l).l.ram| < |l.ram|
    ensures NewPiece(l).kind == Pad ==> |NewPiece(l).seg.data| <= SEG_HEADER_LEN || l.ram == []
    ensures l.ram == [] ==> OneStep(l).l.ram == [] && NewPiece(l).kind != Ram
  {
    hide AlignmentNeeded, Aligned;
  }

  predicate LongPad(p: Piece) {
    p.kind == Pad && |p.seg.data| > SEG_HEADER_LEN
  }

  /** After a longer run of zeros there is no RAM piece any more. */
  predicate ZerosLast(out: seq<Piece>) {
    forall i, j :: 0 <= i < j < |out| && LongPad(out[i]) ==> out[j].kind != Ram
  }

  predicate Thrifty(l: Layout) {
    ZerosLast(l.out) && forall i :: 0 <= i < |l.out| && LongPad(l.out[i]) ==> l.ram == []
  }

  lemma StepThrifty(l: Layout)
    requires Thrifty(l) && OneStep(l).Next?
    ensures Thrifty(OneStep(l).l)
  {
    var p, l' := NewPiece(l), OneStep(l).l;
    StepEconomical(l);
    hide OneStep, NewPiece;
    forall i, j | 0 <= i < j < |l'.out| && LongPad(l'.out[i])
      ensures l'.out[j].kind != Ram
    {
      assert l'.out[i] == l.out[i];
    }
  }

  lemma {:induction false} ArrangeThrifty(l: Layout)
    requires Thrifty(l) && Arrange(l).Arranged?
    ensures Thrifty(Arrange(l).l)
    decreases |l.flash|, |l.ram|, Rank(l)
  {
    hide Thrifty;
    if OneStep(l).Next? {
      StepDecreases(l);
      StepThrifty(l);
      ArrangeThrifty(OneStep(l).l);
    }
  }

  lemma {:induction false} ArrangeFaithful(l: Layout, flash: seq<Segment>, ram: seq<Segment>)
    requires Faithful(l, flash, ram)
    ensures Arrange(l).Arranged? ==> Faithful(Arrange(l).l, flash, ram) && Arrange(l).l.flash == []
    decreases |l.flash|, |l.ram|, Rank(l)
  {
    hide Faithful;
    if !Stuck(l) && OneStep(l).Next? {
      StepDecreases(l);
      StepFaithful(l, flash, ram);
      ArrangeFaithful(OneStep(l).l, flash, ram);
    }
  }

  // ---------- The whole image ----------

  /** The RAM segments left over follow the flash segments. */
  function RamPieces(ram: seq<Segment>): (r: seq<Piece>)
    ensures |r| == |ram|
  {
    if ram == [] then [] else RamPieces(ram[..|ram| - 1]) + [Piece(Ram, ram[|ram| - 1])]
  }

  function ByAddress(s: Segment): int {
    s.addr
  }

  function Select(list: seq<Segment>, flash: bool): seq<Segment> {
    if list == [] then
      []
    else
      var k := |list| - 1;
      Select(list[..k], flash) + if IsFlash(list[k]) == flash then [list[k]] else []
  }

  function FlashPart(segments: seq<Segment>): seq<Segment> {
    Select(Sorted(segments, ByAddress), true)
  }

  function RamPart(segments: seq<Segment>): seq<Segment> {
    Select(Sorted(segments, ByAddress), false)
  }

  /** The flash addresses are multiples of four. */
  predicate WordAligned(list: seq<Segment>) {
    forall i :: 0 <= i < |list| && IsFlash(list[i]) ==> list[i].addr % 4 == 0
  }

  lemma {:induction false} SelectMembers(list: seq<Segment>, flash: bool, x: Segment)
    requires x in Select(list, flash)
    ensures x in list && IsFlash(x) == flash
  {
    var k := |list| - 1;
    if x in Select(list[..k], flash) {
      SelectMembers(list[..k], flash, x);
    }
  }

  lemma StartTidy(segments: seq<Segment>)
    requires WordSized(segments) && WordAligned(segments)
    ensures Tidy(Layout(START, FlashPart(segments), RamPart(segments), []))
  {
    SortedCorrect(segments, ByAddress);
    var flash, ram := FlashPart(segments), RamPart(segments);
    forall i | 0 <= i < |flash|
      ensures flash[i].addr % 4 == 0 && |flash[i].data| % 4 == 0
    {
      SelectMembers(Sorted(segments, ByAddress), true, flash[i]);
    }
    forall i | 0 <= i < |ram|
      ensures |ram[i].data| % 4 == 0
    {
      SelectMembers(Sorted(segments, ByAddress), false, ram[i]);
    }
  }

  /** The loop over all segments of an image, behind the headers. */
  function Placement(segments: seq<Segment>): Arrangement {
    Arrange(Layout(START, FlashPart(segments), RamPart(segments), []))
  }

  /** All pieces of the image, or None when the assertion fires or the loop does not end. */
  function Pieces(segments: seq<Segment>): Option<seq<Piece>> {
    match Placement(segments)
    case Arranged(l) => Some(l.out + RamPieces(l.ram))
    case _ => None
  }

  lemma {:induction false} RamPiecesPlaced(ram: seq<Segment>, out: seq<Piece>)
    requires WellPlaced(out)
    ensures WellPlaced(out + RamPieces(ram))
  {
    if ram == [] {
      AppendNothing(out);
    } else {
      hide WellPlaced;
      RamPiecesPlaced(ram[..|ram| - 1], out);
      RamPiecesSnoc(ram, out);
      WellPlacedSnoc(out + RamPieces(ram[..|ram| - 1]), Piece(Ram, ram[|ram| - 1]));
    }
  }

  lemma RamPiecesSnoc(ram: seq<Segment>, out: seq<Piece>)
    requires ram != []
    ensures out + RamPieces(ram) == out + RamPieces(ram[..|ram| - 1]) + [Piece(Ram, ram[|ram| - 1])]
  {
    Associates(out, RamPieces(ram[..|ram| - 1]), [Piece(Ram, ram[|ram| - 1])]);
  }

  lemma {:induction false} RamPiecesKinds(ram: seq<Segment>, out: seq<Piece>)
    ensures OfKind(out + RamPieces(ram), Flash) == OfKind(out, Flash)
    ensures OfKind(out + RamPieces(ram), Ram) == OfKind(out, Ram) + ram
  {
    if ram == [] {
      AppendNothing(out);
      AppendNothing(OfKind(out, Ram));
    } else {
      var k := |ram| - 1;
      var init, last := ram[..k], ram[k];
      assert ram == init + [last];
      RamPiecesKinds(init, out);
      RamPiecesSnoc(ram, out);
      hide RamPieces, OfKind;
      var before := out + RamPieces(init);
      OfKindSnoc(before, Piece(Ram, last), Flash);
      OfKindSnoc(before, Piece(Ram, last), Ram);
      AppendNothing(OfKind(before, Flash));
      Associates(OfKind(out, Ram), init, [last]);
    }
  }

  /** Alignment and contents of a finished arrangement: every flash segment is written unchanged, in
      address order, with its data congruent to its address; the RAM pieces are exactly the bytes of
      the RAM segments in address order; everything else is zeros at address 0. */
  lemma PiecesCorrect(segments: seq<Segment>)
    requires Pieces(segments).Some?
    ensures var out := Pieces(segments).value;
            && WellPlaced(out)
            && OfKind(out, Flash) == FlashPart(segments)
            && AllCells(OfKind(out, Ram)) == AllCells(RamPart(segments))
  {
    var flash, ram := FlashPart(segments), RamPart(segments);
    var l := Layout(START, flash, ram, []);
    assert [] + flash == flash && [] + AllCells(ram) == AllCells(ram);
    assert Faithful(l, flash, ram);
    ArrangeFaithful(l, flash, ram);
    hide Arrange, WellPlaced, AllCells;
    var end := Arrange(l).l;
    RamPiecesKinds(end.ram, end.out);
    RamPiecesPlaced(end.ram, end.out);
    AppendNothing(OfKind(end.out, Flash));
    AllCellsAppend(OfKind(end.out, Ram), end.ram);
  }

  /** In a finished arrangement more zeros than a header takes are only written once all RAM segments
      have been used up. */
  lemma PiecesThrifty(segments: seq<Segment>)
    requires Pieces(segments).Some?
    ensures ZerosLast(Pieces(segments).value)
  {
    var l := Layout(START, FlashPart(segments), RamPart(segments), []);
    ArrangeThrifty(l);
    hide Arrange, FlashPart, RamPart;
    var end := Arrange(l).l;
    RamPiecesThrifty(end.out, end.ram);
  }

  lemma RamPiecesThrifty(out: seq<Piece>, ram: seq<Segment>)
    requires ZerosLast(out) && forall i :: 0 <= i < |out| && LongPad(out[i]) ==> ram == []
    ensures ZerosLast(out + RamPieces(ram))
  {
    RamPiecesAreRam(ram);
    hide RamPieces;
    var r := out + RamPieces(ram);
    assert forall k :: |out| <= k < |r| ==> r[k] == RamPieces(ram)[k - |out|] && !LongPad(r[k]);
    forall i, j | 0 <= i < j < |r| && LongPad(r[i])
      ensures r[j].kind != Ram
    {
      assert LongPad(out[i]);
    }
  }

  lemma {:induction false} RamPiecesAreRam(ram: seq<Segment>)
    ensures forall i :: 0 <= i < |ram| ==> RamPieces(ram)[i].kind == Ram
  {
    if ram != [] {
      RamPiecesAreRam(ram[..|ram| - 1]);
    }
  }

  predicate ClearSegments(segments: seq<Segment>) {
    forall i :: 0 <= i < |segments| && IsFlash(segments[i]) ==> segments[i].addr % IROM_ALIGN >= 2 * SEG_HEADER_LEN
  }

  lemma StartClear(segments: seq<Segment>)
    requires ClearSegments(segments)
    ensures ClearOfHeader(FlashPart(segments))
  {
    SortedCorrect(segments, ByAddress);
    var flash := FlashPart(segments);
    forall i | 0 <= i < |flash|
      ensures flash[i].addr % IROM_ALIGN >= 2 * SEG_HEADER_LEN
    {
      SelectMembers(Sorted(segments, ByAddress), true, flash[i]);
    }
  }

  /** When every flash segment starts at least 16 bytes into its page, at a multiple of four, there
      is an arrangement. */
  lemma PiecesExist(segments: seq<Segment>)
    requires WordSized(segments) && WordAligned(segments) && ClearSegments(segments)
    ensures Pieces(segments).Some?
  {
    StartTidy(segments);
    StartClear(segments);
    var l := Layout(START, FlashPart(segments), RamPart(segments), []);
    ClearNeverAsserts(l);
    TidyEnds(l);
  }

  /** Flash segments alone, at least 16 bytes into their pages: there is an arrangement exactly when
      all their addresses are multiples of four, and otherwise the loop does not end. */
  lemma FlashOnlyExact(segments: seq<Segment>)
    requires WordSized(segments) && ClearSegments(segments)
    requires forall i :: 0 <= i < |segments| ==> IsFlash(segments[i])
    ensures if WordAligned(segments) then Pieces(segments).Some? else Placement(segments).Endless?
  {
    var flash := FlashPart(segments);
    NoRamLeft(segments);
    StartClear(segments);
    FlashAddresses(segments);
    hide FlashPart, Arrange;
    NoRamExact(Layout(START, flash, RamPart(segments), []));
  }

  lemma FlashAddresses(segments: seq<Segment>)
    requires WordSized(segments)
    ensures AddressesTidy(FlashPart(segments)) <==> WordAligned(segments)
    ensures WordSized(FlashPart(segments))
  {
    var sorted, flash := Sorted(segments, ByAddress), FlashPart(segments);
    SortedCorrect(segments, ByAddress);
    forall i | 0 <= i < |flash| ensures flash[i] in segments && IsFlash(flash[i]) {
      SelectMembers(sorted, true, flash[i]);
    }
    forall i | 0 <= i < |segments| && IsFlash(segments[i]) ensures segments[i] in flash {
      SelectKeeps(sorted, segments[i]);
    }
    hide FlashPart;
  }

  lemma NoRamLeft(segments: seq<Segment>)
    requires forall i :: 0 <= i < |segments| ==> IsFlash(segments[i])
    ensures RamPart(segments) == []
  {
    SortedCorrect(segments, ByAddress);
    var ram := RamPart(segments);
    if ram != [] {
      SelectMembers(Sorted(segments, ByAddress), false, ram[0]);
      assert false;
    }
  }

  lemma {:induction false} SelectKeeps(list: seq<Segment>, s: Segment)
    requires s in list && IsFlash(s)
    ensures s in Select(list, true)
  {
    var n := |list| - 1;
    if s != list[n] {
      assert list == list[..n] + [list[n]];
      SelectKeeps(list[..n], s);
    }
  }

  lemma {:induction false} SelectSizes(list: seq<Segment>)
    ensures |Select(list, true)| + |Select(list, false)| == |list|
  {
    if list != [] {
      SelectSizes(list[..|list| - 1]);
    }
  }

  /** With word-aligned flash addresses, saving takes at most one piece more for each flash segment. */
  lemma PiecesCounted(segments: seq<Segment>)
    requires WordSized(segments) && WordAligned(segments) && Pieces(segments).Some?
    ensures |Pieces(segments).value| <= |segments| + |FlashPart(segments)|
  {
    var l := Layout(START, FlashPart(segments), RamPart(segments), []);
    StartTidy(segments);
    SelectSizes(Sorted(segments, ByAddress));
    ArrangeCounts(l);
    hide Arrange, Tidy;
  }

  // ---------- No byte of the program is lost, duplicated or moved ----------

  lemma {:induction false} CellsInserted(x: Segment, s: seq<Segment>)
    ensures multiset(AllCells(Insert(x, s, ByAddress))) == multiset(AllCells(s)) + multiset(Cells(x))
  {
    if s == [] {
      AllCellsOne(x);
    } else {
      var k := |s| - 1;
      hide Cells;
      if s[k].addr <= x.addr {
        AllCellsSnoc(s, x);
      } else {
        InsertLast(x, s, ByAddress);
        CellsInserted(x, s[..k]);
        AllCellsSnoc(Insert(x, s[..k], ByAddress), s[k]);
      }
    }
  }

  lemma {:induction false} CellsSorted(s: seq<Segment>)
    ensures multiset(AllCells(Sorted(s, ByAddress))) == multiset(AllCells(s))
  {
    if s != [] {
      var k := |s| - 1;
      CellsSorted(s[..k]);
      CellsInserted(s[k], Sorted(s[..k], ByAddress));
    }
  }

  lemma {:induction false} CellsSelected(s: seq<Segment>)
    ensures multiset(AllCells(Select(s, true))) + multiset(AllCells(Select(s, false))) == multiset(AllCells(s))
  {
    if s != [] {
      var k := |s| - 1;
      hide Cells;
      CellsSelected(s[..k]);
      AllCellsSnoc(Select(s[..k], IsFlash(s[k])), s[k]);
      AppendNothing(Select(s[..k], !IsFlash(s[k])));
    }
  }

  /** The address-to-byte map of the image, padding aside, is that of the input segments. */
  lemma CellsPreserved(segments: seq<Segment>)
    requires Pieces(segments).Some?
    ensures var out := Pieces(segments).value;
            multiset(AllCells(OfKind(out, Flash))) + multiset(AllCells(OfKind(out, Ram))) ==
            multiset(AllCells(segments))
  {
    PiecesCorrect(segments);
    CellsSorted(segments);
    CellsSelected(Sorted(segments, ByAddress));
  }

  // ---------- The checksum ----------

  function XorCells(c: seq<Cell>): nat {
    if c == [] then 0 else Xor(XorCells(c[..|c| - 1]), c[|c| - 1].value)
  }

  lemma {:induction false} XorCellsAppend(a: seq<Cell>, b: seq<Cell>)
    ensures XorCells(a + b) == Xor(XorCells(a), XorCells(b))
  {
    if b == [] {
      assert a + b == a;
      XorZero(XorCells(a));
    } else {
      var k := |b| - 1;
      XorCellsAppend(a, b[..k]);
      assert (a + b)[..|a + b| - 1] == a + b[..k];
      XorAssociative(XorCells(a), XorCells(b[..k]), b[k].value);
    }
  }

  lemma XorCellsOne(x: Cell)
    ensures XorCells([x]) == x.value
  {
    assert [x][..0] == [];
    XorSymmetric(0, x.value);
    XorZero(x.value);
  }

  /** The order of the bytes does not matter. */
  lemma {:induction false} XorCellsPermuted(a: seq<Cell>, b: seq<Cell>)
    requires multiset(a) == multiset(b)
    ensures XorCells(a) == XorCells(b)
    decreases |a|
  {
    if a == [] {
      assert |multiset(b)| == 0;
    } else {
      var k, x := |a| - 1, a[|a| - 1];
      assert a == a[..k] + [x];
      assert x in multiset(b);
      var i :| 0 <= i < |b| && b[i] == x;
      var rest := b[..i] + b[i + 1..];
      assert b == b[..i] + [x] + b[i + 1..];
      assert multiset(a) == multiset(a[..k]) + multiset{x};
      assert multiset(b) == multiset(b[..i]) + multiset{x} + multiset(b[i + 1..]);
      assert multiset(rest) == multiset(b[..i]) + multiset(b[i + 1..]);
      CancelOne(multiset(a[..k]), multiset(rest), x);
      XorCellsPermuted(a[..k], rest);
      MoveToEnd(b[..i], x, b[i + 1..]);
    }
  }

  lemma CancelOne(a: multiset<Cell>, b: multiset<Cell>, x: Cell)
    requires a + multiset{x} == b + multiset{x}
    ensures a == b
  {
    assert a == a + multiset{x} - multiset{x};
    assert b == b + multiset{x} - multiset{x};
  }

  lemma MoveToEnd(p: seq<Cell>, x: Cell, q: seq<Cell>)
    ensures XorCells(p + [x] + q) == Xor(XorCells(p + q), x.value)
  {
    var a, b, c := XorCells(p), x.value, XorCells(q);
    XorCellsAppend(p + [x], q);
    XorCellsAppend(p, [x]);
    XorCellsOne(x);
    XorCellsAppend(p, q);
    XorAssociative(a, b, c);
    XorSymmetric(b, c);
    XorAssociative(a, c, b);
  }

  /** `ESPLoader.checksum`. */
  function Checksum(data: seq<byte>, state: nat): nat {
    if data == [] then state else Xor(Checksum(data[..|data| - 1], state), data[|data| - 1])
  }

  const CHECKSUM_MAGIC := 0xEF

  /** The checksum over segments one after the other, as `save` and `calculate_checksum` run it. */
  function ChecksumOf(list: seq<Segment>): nat {
    if list == [] then CHECKSUM_MAGIC
    else Checksum(list[|list| - 1].data, ChecksumOf(list[..|list| - 1]))
  }

  lemma {:induction false} ChecksumIsXor(s: Segment, state: nat, n: nat)
    requires n <= |s.data|
    ensures Checksum(s.data[..n], state) == Xor(state, XorCells(Cells(s)[..n]))
  {
    if n == 0 {
      XorZero(state);
    } else {
      ChecksumIsXor(s, state, n - 1);
      assert s.data[..n][..n - 1] == s.data[..n - 1];
      assert Cells(s)[..n][..n - 1] == Cells(s)[..n - 1];
      XorAssociative(state, XorCells(Cells(s)[..n - 1]), s.data[n - 1]);
    }
  }

  lemma {:induction false} ChecksumOfIsXor(list: seq<Segment>)
    ensures ChecksumOf(list) == Xor(CHECKSUM_MAGIC, XorCells(AllCells(list)))
  {
    if list == [] {
      XorZero(CHECKSUM_MAGIC);
    } else {
      var k := |list| - 1;
      var s := list[k];
      ChecksumOfIsXor(list[..k]);
      ChecksumIsXor(s, ChecksumOf(list[..k]), |s.data|);
      assert s.data[..|s.data|] == s.data && Cells(s)[..|s.data|] == Cells(s);
      XorCellsAppend(AllCells(list[..k]), Cells(s));
      XorAssociative(CHECKSUM_MAGIC, XorCells(AllCells(list[..k])), XorCells(Cells(s)));
    }
  }

  /** The segments of all pieces, padding included. */
  function Segments(out: seq<Piece>): (list: seq<Segment>)
    ensures |list| == |out|
  {
    if out == [] then [] else Segments(out[..|out| - 1]) + [out[|out| - 1].seg]
  }

  lemma {:induction false} ZerosXor(c: seq<Cell>)
    requires forall i :: 0 <= i < |c| ==> c[i].value == 0
    ensures XorCells(c) == 0
  {
    if c != [] {
      ZerosXor(c[..|c| - 1]);
      XorZero(0);
    }
  }

  ghost predicate PadsEmpty(out: seq<Piece>) {
    forall k :: 0 <= k < |out| && out[k].kind == Pad ==> AllZero(out[k].seg)
  }

  /** Padding contributes nothing. */
  lemma {:induction false} PiecesXor(out: seq<Piece>)
    requires PadsEmpty(out)
    ensures XorCells(AllCells(Segments(out))) ==
            Xor(XorCells(AllCells(OfKind(out, Flash))), XorCells(AllCells(OfKind(out, Ram))))
  {
    if out == [] {
      XorZero(0);
    } else {
      hide AllCells, OfKind, Segments, XorCells, AllZero;
      var init, last := out[..|out| - 1], out[|out| - 1];
      assert out == init + [last] && PadsEmpty(init) && (last.kind == Pad ==> AllZero(last.seg));
      hide PadsEmpty;
      PiecesXor(init);
      AddPiece(init, last);
    }
  }

  lemma AddPiece(out: seq<Piece>, p: Piece)
    requires p.kind == Pad ==> AllZero(p.seg)
    requires XorCells(AllCells(Segments(out))) ==
             Xor(XorCells(AllCells(OfKind(out, Flash))), XorCells(AllCells(OfKind(out, Ram))))
    ensures var out' := out + [p];
            XorCells(AllCells(Segments(out'))) ==
            Xor(XorCells(AllCells(OfKind(out', Flash))), XorCells(AllCells(OfKind(out', Ram))))
  {
    var f, r := XorCells(AllCells(OfKind(out, Flash))), XorCells(AllCells(OfKind(out, Ram)));
    var x := XorCells(Cells(p.seg));
    assert (out + [p])[..|out|] == out;
    AllCellsSnoc(Segments(out), p.seg);
    XorCellsAppend(AllCells(Segments(out)), Cells(p.seg));
    OfKindSnoc(out, p, Flash);
    OfKindSnoc(out, p, Ram);
    AppendNothing(OfKind(out, Flash));
    AppendNothing(OfKind(out, Ram));
    XorAssociative(f, r, x);
    match p.kind
    case Flash =>
      AllCellsSnoc(OfKind(out, Flash), p.seg);
      XorCellsAppend(AllCells(OfKind(out, Flash)), Cells(p.seg));
      XorSymmetric(r, x);
      XorAssociative(f, x, r);
    case Ram =>
      AllCellsSnoc(OfKind(out, Ram), p.seg);
      XorCellsAppend(AllCells(OfKind(out, Ram)), Cells(p.seg));
    case Pad =>
      ZerosXor(Cells(p.seg));
      XorZero(Xor(f, r));
  }

  /** The checksum of the image is the checksum of the input, whatever was split or padded. */
  lemma ChecksumPreserved(segments: seq<Segment>)
    requires Pieces(segments).Some?
    ensures ChecksumOf(Segments(Pieces(segments).value)) == ChecksumOf(segments)
  {
    var out := Pieces(segments).value;
    PiecesCorrect(segments);
    CellsPreserved(segments);
    PiecesXor(out);
    var flash, ram := AllCells(OfKind(out, Flash)), AllCells(OfKind(out, Ram));
    XorCellsAppend(flash, ram);
    XorCellsPermuted(flash + ram, AllCells(segments));
    ChecksumOfIsXor(Segments(out));
    ChecksumOfIsXor(segments);
  }

  // ---------- What the flash segments of an image decide by themselves ----------

  lemma {:induction false} SelectAppend(a: seq<Segment>, b: seq<Segment>, flash: bool)
    ensures Select(a + b, flash) == Select(a, flash) + Select(b, flash)
  {
    if b == [] {
      AppendNothing(a);
      AppendNothing(Select(a, flash));
    } else {
      var k := |b| - 1;
      var last := if IsFlash(b[k]) == flash then [b[k]] else [];
      assert (a + b)[..|a| + k] == a + b[..k];
      SelectAppend(a, b[..k], flash);
      Associates(Select(a, flash), Select(b[..k], flash), last);
    }
  }

  lemma {:induction false} SelectAll(list: seq<Segment>, flash: bool)
    requires forall i :: 0 <= i < |list| ==> IsFlash(list[i]) == flash
    ensures Select(list, flash) == list && Select(list, !flash) == []
  {
    if list != [] {
      SelectAll(list[..|list| - 1], flash);
    }
  }

  /** An image with the same flash segments, and other RAM segments in front of them. */
  lemma OtherRam(segments: seq<Segment>, ram: seq<Segment>)
    requires Fillers(ram)
    ensures FlashPart(ram + FlashPart(segments)) == FlashPart(segments)
    ensures RamPart(ram + FlashPart(segments)) == ram
  {
    var flash := FlashPart(segments);
    SortedCorrect(segments, ByAddress);
    SelectAscending(Sorted(segments, ByAddress), true);
    forall i | 0 <= i < |flash| ensures IsFlash(flash[i]) {
      SelectMembers(Sorted(segments, ByAddress), true, flash[i]);
    }
    SortedFixed(ram + flash, ByAddress);
    SelectAppend(ram, flash, true);
    SelectAppend(ram, flash, false);
    SelectAll(flash, true);
    SelectAll(ram, false);
    AppendNothing(ram);
  }

  /** Another image with the same flash segments and any RAM segments of whole words. */
  ghost predicate SameFlash(segments: seq<Segment>, others: seq<Segment>) {
    WordSized(others) && FlashPart(others) == FlashPart(segments)
  }

  lemma SameFlashTidy(segments: seq<Segment>, others: seq<Segment>)
    requires WordSized(segments) && WordAligned(segments) && SameFlash(segments, others)
    ensures Tidy(Layout(START, FlashPart(others), RamPart(others), []))
  {
    StartTidy(segments);
    var ram := RamPart(others);
    SortedCorrect(others, ByAddress);
    forall i | 0 <= i < |ram| ensures |ram[i].data| % 4 == 0 {
      SelectMembers(Sorted(others, ByAddress), false, ram[i]);
    }
  }

  lemma OtherWordSized(segments: seq<Segment>, ram: seq<Segment>)
    requires WordSized(segments) && Fillers(ram)
    ensures SameFlash(segments, ram + FlashPart(segments))
  {
    OtherRam(segments, ram);
    SortedCorrect(segments, ByAddress);
    var flash := FlashPart(segments);
    forall i | 0 <= i < |flash| ensures |flash[i].data| % 4 == 0 {
      SelectMembers(Sorted(segments, ByAddress), true, flash[i]);
    }
  }

  /** With flash addresses that are multiples of four: the assertion stays silent, whatever RAM segments
      the image has besides, exactly when all its flash segments are safe. */
  lemma ImageAssertionFree(segments: seq<Segment>)
    requires WordSized(segments) && WordAligned(segments)
    ensures AllSafe(START, FlashPart(segments)) <==>
            forall others :: SameFlash(segments, others) ==> !Placement(others).Asserted?
  {
    var flash := FlashPart(segments);
    StartTidy(segments);
    if AllSafe(START, flash) {
      forall others | SameFlash(segments, others) ensures !Placement(others).Asserted? {
        SameFlashTidy(segments, others);
        SafeNeverAsserts(Layout(START, FlashPart(others), RamPart(others), []));
      }
    } else {
      var ram := Trap(START, flash);
      TrapFillers(START, flash);
      OtherWordSized(segments, ram);
      OtherRam(segments, ram);
      Trapped(Layout(START, flash, ram, []), START);
      assert SameFlash(segments, ram + flash) && Placement(ram + flash).Asserted?;
    }
  }

  /** With flash addresses at least 16 bytes into their pages: the loop ends, whatever RAM segments the
      image has besides, exactly when all flash addresses are multiples of four. */
  lemma ImageAlwaysEnds(segments: seq<Segment>)
    requires WordSized(segments) && ClearSegments(segments)
    ensures WordAligned(segments) <==>
            forall others :: SameFlash(segments, others) ==> !Placement(others).Endless?
  {
    if WordAligned(segments) {
      forall others | SameFlash(segments, others) ensures !Placement(others).Endless? {
        SameFlashTidy(segments, others);
        TidyEnds(Layout(START, FlashPart(others), RamPart(others), []));
      }
    } else {
      var flash := FlashPart(segments);
      OtherWordSized(segments, []);
      OtherRam(segments, []);
      assert [] + flash == flash;
      StartClear(segments);
      FlashAddresses(segments);
      NoRamExact(Layout(START, flash, [], []));
      assert SameFlash(segments, flash) && Placement(flash).Endless?;
    }
  }

  // ---------- Two segments in one page ----------

  predicate SamePage(a: Segment, b: Segment) {
    IsFlash(a) && IsFlash(b) && a.addr / IROM_ALIGN == b.addr / IROM_ALIGN
  }

  /** The check looks at neighbours in address order only. */
  predicate NeighboursApart(flash: seq<Segment>) {
    forall i :: 0 < i < |flash| ==> flash[i].addr / IROM_ALIGN != flash[i - 1].addr / IROM_ALIGN
  }

  ghost predicate PagesDistinct(segments: seq<Segment>) {
    AllPairs(segments, (a, b) => !SamePage(a, b))
  }

  lemma {:induction false} SelectedPairs(list: seq<Segment>)
    ensures PagesDistinct(Select(list, true)) <==> PagesDistinct(list)
  {
    if list != [] {
      var k := |list| - 1;
      var rel := (a, b) => !SamePage(a, b);
      assert list == list[..k] + [list[k]];
      SelectedPairs(list[..k]);
      PairsSnoc(list[..k], list[k], rel);
      PairsSnoc(Select(list[..k], true), list[k], rel);
      SelectedRelated(list[..k], list[k]);
      AppendNothing(Select(list[..k], true));
    }
  }

  lemma {:induction false} SelectedRelated(list: seq<Segment>, x: Segment)
    ensures var rel := (a, b) => !SamePage(a, b);
            AllRelated(list, x, rel) <==> AllRelated(Select(list, true), x, rel) || !IsFlash(x)
  {
    if list != [] {
      var k := |list| - 1;
      var rel := (a, b) => !SamePage(a, b);
      assert list == list[..k] + [list[k]];
      SelectedRelated(list[..k], x);
      RelatedSnoc(list[..k], list[k], x, rel);
      RelatedSnoc(Select(list[..k], true), list[k], x, rel);
      AppendNothing(Select(list[..k], true));
    }
  }

  lemma {:induction false} SelectAscending(list: seq<Segment>, flash: bool)
    requires Ascending(list, ByAddress)
    ensures Ascending(Select(list, flash), ByAddress)
  {
    if list != [] {
      var k := |list| - 1;
      var r := Select(list[..k], flash);
      SelectAscending(list[..k], flash);
      forall i | 0 <= i < |r| ensures r[i].addr <= list[k].addr {
        SelectMembers(list[..k], flash, r[i]);
        var j :| 0 <= j < k && list[..k][j] == r[i];
        assert ByAddress(list[j]) <= ByAddress(list[k]);
      }
    }
  }

  lemma NeighboursSuffice(flash: seq<Segment>)
    requires Ascending(flash, ByAddress) && forall i :: 0 <= i < |flash| ==> IsFlash(flash[i])
    ensures NeighboursApart(flash) <==> PagesDistinct(flash)
  {
    if NeighboursApart(flash) {
      forall i, j | 0 <= i < j < |flash|
        ensures !SamePage(flash[i], flash[j])
      {
        assert ByAddress(flash[i]) <= ByAddress(flash[j - 1]) <= ByAddress(flash[j]);
        PageOrder(flash[i].addr, flash[j - 1].addr);
        PageOrder(flash[j - 1].addr, flash[j].addr);
      }
    } else {
      var i :| 0 < i < |flash| && flash[i].addr / IROM_ALIGN == flash[i - 1].addr / IROM_ALIGN;
      assert SamePage(flash[i - 1], flash[i]);
    }
  }

  lemma PageOrder(x: nat, y: nat)
    requires x <= y
    ensures x / IROM_ALIGN <= y / IROM_ALIGN
  {
  }

  /** Looking at neighbours is enough: the check passes exactly when no two flash segments of the
      image start in the same page. */
  lemma PageCheckExact(segments: seq<Segment>)
    ensures NeighboursApart(FlashPart(segments)) <==> PagesDistinct(segments)
  {
    var sorted, flash := Sorted(segments, ByAddress), FlashPart(segments);
    SortedCorrect(segments, ByAddress);
    SelectAscending(sorted, true);
    forall i | 0 <= i < |flash| ensures IsFlash(flash[i]) {
      SelectMembers(sorted, true, flash[i]);
    }
    NeighboursSuffice(flash);
    SelectedPairs(sorted);
    SymmetricPairsSorted(segments, ByAddress, (a, b) => !SamePage(a, b));
  }

  lemma {:induction false} SelectedMultiset(list: seq<Segment>)
    ensures multiset(Select(list, true)) + multiset(Select(list, false)) == multiset(list)
  {
    if list != [] {
      hide IsFlash;
      var init, last := list[..|list| - 1], list[|list| - 1];
      assert list == init + [last];
      SelectedMultiset(init);
      if IsFlash(last) {
        assert Select(list, true) == Select(init, true) + [last] && Select(list, false) == Select(init, false);
      } else {
        assert Select(list, true) == Select(init, true) && Select(list, false) == Select(init, false) + [last];
      }
    }
  }

  /** The two lists the segments are put in: flash-mapped ones and the others, each by address. */
  lemma PartsExact(segments: seq<Segment>)
    ensures var flash, ram := FlashPart(segments), RamPart(segments);
            && multiset(flash) + multiset(ram) == multiset(segments)
            && (forall s :: s in flash ==> IsFlash(s)) && (forall s :: s in ram ==> !IsFlash(s))
            && (forall i, j :: 0 <= i < j < |flash| ==> flash[i].addr <= flash[j].addr)
            && (forall i, j :: 0 <= i < j < |ram| ==> ram[i].addr <= ram[j].addr)
  {
    var sorted := Sorted(segments, ByAddress);
    SortedCorrect(segments, ByAddress);
    SelectedMultiset(sorted);
    SelectAscending(sorted, true);
    SelectAscending(sorted, false);
    forall s | s in FlashPart(segments) ensures IsFlash(s) {
      SelectMembers(sorted, true, s);
    }
    forall s | s in RamPart(segments) ensures !IsFlash(s) {
      SelectMembers(sorted, false, s);
    }
    var flash, ram := FlashPart(segments), RamPart(segments);
    hide Sorted, Select, FlashPart, RamPart;
    forall i, j | 0 <= i < j < |flash| ensures flash[i].addr <= flash[j].addr {
      assert ByAddress(flash[i]) <= ByAddress(flash[j]);
    }
    forall i, j | 0 <= i < j < |ram| ensures ram[i].addr <= ram[j].addr {
      assert ByAddress(ram[i]) <= ByAddress(ram[j]);
    }
  }
}
