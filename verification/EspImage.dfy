/** The bytes of an ESP32 firmware image: writing it, and reading it back. */
module EspImage {
  import opened LittleEndian
  import opened Sequences
  import opened StableSort
  import opened Wrappers
  import opened EspLayout
  import opened EspContent
  import opened EspFormat

  const IMAGE_MAGIC: byte := 0xE9
  const MAX_LOADED := 16 // segments accepted when an image is loaded

  // ---------- Writing ----------

  function CommonHeader(h: Header, count: byte): (b: seq<byte>)
    ensures |b| == 8
  {
    [IMAGE_MAGIC, count, h.flashMode, h.sizeFreq] + Pack4(h.entry)
  }

  function Join(low: nat, high: nat): byte {
    low % 16 + 16 * (high % 16)
  }

  function ExtendedHeader(h: Header): (b: seq<byte>)
    ensures |b| == 16
  {
    [h.wpPin, Join(h.clkDrv, h.qDrv), Join(h.dDrv, h.csDrv), Join(h.hdDrv, h.wpDrv)] + Zeros(11) +
    [if h.appendDigest then 1 else 0]
  }

  /** Address and length fit the 32-bit fields of a segment header. */
  predicate Packable(s: Segment) {
    s.addr < 0x1_0000_0000 && |s.data| < 0x1_0000_0000
  }

  predicate AllPackable(list: seq<Segment>) {
    forall i :: 0 <= i < |list| ==> Packable(list[i])
  }

  function SegmentBytes(s: Segment): (b: seq<byte>)
    requires Packable(s)
    ensures |b| == SEG_HEADER_LEN + |s.data|
  {
    Pack4(s.addr) + Pack4(|s.data|) + s.data
  }

  function Body(list: seq<Segment>): seq<byte>
    requires AllPackable(list)
  {
    if list == [] then [] else Body(list[..|list| - 1]) + SegmentBytes(list[|list| - 1])
  }

  function Head(h: Header, count: byte): (b: seq<byte>)
    ensures |b| == START
  {
    CommonHeader(h, count) + ExtendedHeader(h)
  }

  /** Zeros up to the last byte of a block of sixteen, and the checksum in that byte. */
  function Trailer(length: nat, checksum: byte): seq<byte> {
    Zeros(15 - length % 16) + [checksum]
  }

  lemma {:induction false} ChecksumIsByte(data: seq<byte>, state: byte)
    ensures 0 <= Checksum(data, state) < 0x100
  {
    if data != [] {
      ChecksumIsByte(data[..|data| - 1], state);
      XorByte(Checksum(data[..|data| - 1], state), data[|data| - 1]);
    }
  }

  lemma {:induction false} ChecksumOfIsByte(list: seq<Segment>)
    ensures 0 <= ChecksumOf(list) < 0x100
  {
    if list != [] {
      ChecksumOfIsByte(list[..|list| - 1]);
      ChecksumIsByte(list[|list| - 1].data, ChecksumOf(list[..|list| - 1]));
    }
  }

  function ChecksumByte(list: seq<Segment>): (c: byte)
    ensures c == ChecksumOf(list)
  {
    ChecksumOfIsByte(list);
    ChecksumOf(list)
  }

  /** The whole file for a list of segments, before any digest. */
  function Image(h: Header, list: seq<Segment>): seq<byte>
    requires AllPackable(list) && |list| < 0x100
  {
    var content := Head(h, |list|) + Body(list);
    content + Trailer(|content|, ChecksumByte(list))
  }

  // ---------- Reading ----------

  /** What loading leaves in the object. */
  datatype Loaded = Loaded(header: Header, segments: seq<Segment>, checksum: byte,
                           storedDigest: seq<byte>, calcDigest: seq<byte>)

  function ReadSegment(f: seq<byte>, pos: nat): Result<(Segment, nat), LoadError> {
    if pos + SEG_HEADER_LEN > |f| then Err(Truncated) else
    var addr, size := Unpack4(f[pos..pos + 4]), Unpack4(f[pos + 4..pos + 8]);
    if pos + SEG_HEADER_LEN + size > |f| then Err(SegmentTruncated) else
    Ok((MakeSegment(addr, f[pos + 8..pos + 8 + size]), pos + 8 + size))
  }

  /** The first `n` segments from position `pos`, and the position behind them. */
  function ReadSegments(f: seq<byte>, pos: nat, n: nat): Result<(seq<Segment>, nat), LoadError> {
    if n == 0 then Ok(([], pos)) else
    match ReadSegments(f, pos, n - 1)
    case Err(e) => Err(e)
    case Ok((list, next)) =>
      match ReadSegment(f, next)
      case Err(e) => Err(e)
      case Ok((s, end)) => Ok((list + [s], end))
  }

  function HeaderOf(f: seq<byte>): Header
    requires |f| >= START && f[23] <= 1
  {
    Header(f[2], f[3], Unpack4(f[4..8]), f[8], f[9] % 16, f[9] / 16, f[10] % 16, f[10] / 16,
           f[11] % 16, f[11] / 16, f[23] == 1)
  }

  function ChecksumAt(pos: nat): nat {
    pos + 15 - pos % 16
  }

  function Parse(f: seq<byte>, sha256: seq<byte> -> seq<byte>): Result<Loaded, LoadError> {
    if |f| < 8 then Err(Truncated)
    else if f[0] != IMAGE_MAGIC || f[1] as int > MAX_LOADED then Err(BadHeader)
    else if |f| < START then Err(Truncated)
    else if f[23] > 1 then Err(BadDigestFlag)
    else match ReadSegments(f, START, f[1])
      case Err(e) => Err(e)
      case Ok((list, pos)) => ParseEnd(f, HeaderOf(f), list, pos, sha256)
  }

  function ParseEnd(f: seq<byte>, h: Header, list: seq<Segment>, pos: nat, sha256: seq<byte> -> seq<byte>):
    Result<Loaded, LoadError>
  {
    var c := ChecksumAt(pos);
    if c >= |f| then Err(Truncated)
    else if h.appendDigest then
      var end := if c + 33 <= |f| then c + 33 else |f|;
      Ok(Loaded(h, list, f[c], f[c + 1..end], sha256(f[..c + 1])))
    else Ok(Loaded(h, list, f[c], [], []))
  }

  // ---------- The bytes of a file ----------

  lemma HeadIs(h: Header, count: byte, rest: seq<byte>)
    ensures var f := Head(h, count) + rest;
            HeaderAt(f, Masked(h)) && f[1] == count && forall i :: 12 <= i < 23 ==> f[i] == 0
  {
    var head := Head(h, count);
    var f := head + rest;
    HeadBytes(h, count);
    assert f[4..8] == head[4..8] == Pack4(h.entry);
    PackedWord(f, 4, h.entry);
    hide Head, Pack4, Word;
    forall i | 0 <= i < START ensures f[i] == head[i] {
    }
  }

  lemma SegmentIs(f: seq<byte>, pos: nat, s: Segment)
    requires Packable(s) && At(f, pos, SegmentBytes(s))
    ensures SegmentAt(f, pos, s)
  {
    AtParts(f, pos, Pack4(s.addr) + Pack4(|s.data|), s.data);
    AtParts(f, pos, Pack4(s.addr), Pack4(|s.data|));
    PackedWord(f, pos, s.addr);
    PackedWord(f, pos + 4, |s.data|);
    hide Pack4, Word;
  }

  lemma {:induction false} BodyIs(f: seq<byte>, list: seq<Segment>)
    requires AllPackable(list) && At(f, START, Body(list))
    ensures SegmentsAt(f, list) && EndOf(list) == START + |Body(list)|
    decreases |list|
  {
    hide *;
    if list == [] {
      ReadNone(f, START);
      NoSegments(f);
    } else {
      var init, s := list[..|list| - 1], list[|list| - 1];
      SplitLast(list);
      AtParts(f, START, Body(init), SegmentBytes(s));
      BodyIs(f, init);
      SegmentIs(f, EndOf(init), s);
      SegmentsAtSnoc(f, init, s);
      EndSnoc(init, s);
      SegmentSize(s);
    }
  }

  lemma SegmentSize(s: Segment)
    requires Packable(s)
    ensures |SegmentBytes(s)| == 8 + |s.data|
  {
  }

  lemma NoSegments(f: seq<byte>)
    ensures SegmentsAt(f, []) && EndOf([]) == START
  {
  }

  lemma TrailerIs(content: seq<byte>, checksum: byte)
    ensures var f := content + Trailer(|content|, checksum);
            && |f| == |content| / 16 * 16 + 16 && f[|f| - 1] == checksum
            && forall i :: |content| <= i < |f| - 1 ==> f[i] == 0
  {
  }

  /** The file written for a list of segments, byte by byte. */
  lemma ImageIs(h: Header, list: seq<Segment>)
    requires AllPackable(list) && |list| < 0x100
    ensures IsImage(Image(h, list), h, list)
  {
    var content := Head(h, |list|) + Body(list);
    var trailer := Trailer(|content|, ChecksumByte(list));
    var f := content + trailer;
    ChecksumOfIsXor(list);
    hide *;
    TrailerIs(content, ChecksumByte(list));
    HeadIs(h, |list|, Body(list) + trailer);
    Associates(Head(h, |list|), Body(list), trailer);
    ContentAt(Head(h, |list|), Body(list), trailer);
    BodyIs(f, list);
    IsImageBy(f, h, list);
  }

  lemma ContentAt(head: seq<byte>, body: seq<byte>, rest: seq<byte>)
    ensures At(head + body + rest, |head|, body)
  {
  }

  lemma IsImageBy(f: seq<byte>, h: Header, list: seq<Segment>)
    requires HeaderAt(f, Masked(h)) && f[1] as int == |list| && SegmentsAt(f, list)
    requires |f| == EndOf(list) / 16 * 16 + 16 && f[|f| - 1] as nat == Xor(0xEF, XorCells(AllCells(list)))
    requires forall i :: 12 <= i < 23 ==> f[i] == 0
    requires forall i :: EndOf(list) <= i < |f| - 1 ==> f[i] == 0
    ensures IsImage(f, h, list)
  {
    hide HeaderAt, SegmentsAt, EndOf, XorCells, AllCells, Masked, Xor;
  }

  // ---------- Which files can be loaded ----------

  lemma SegmentReadExact(f: seq<byte>, pos: nat)
    ensures match ReadSegment(f, pos)
            case Ok((s, end)) =>
              exists raw :: SegmentAt(f, pos, raw) && s == Repadded(raw) && end == pos + 8 + |raw.data|
            case Err(e) =>
              if pos + 8 > |f| then e == Truncated else e == SegmentTruncated && DataCut(f, pos)
  {
    if pos + 8 <= |f| {
      UnpackedWord(f, pos);
      UnpackedWord(f, pos + 4);
      hide Unpack4, Word;
      if pos + 8 + Word(f, pos + 4) <= |f| {
        var raw := Segment(Word(f, pos), f[pos + 8..pos + 8 + Word(f, pos + 4)]);
        assert SegmentAt(f, pos, raw);
      }
    }
  }

  lemma SegmentReads(f: seq<byte>, pos: nat, raw: Segment)
    requires SegmentAt(f, pos, raw)
    ensures ReadSegment(f, pos) == Ok((Repadded(raw), pos + 8 + |raw.data|))
  {
    UnpackedWord(f, pos);
    UnpackedWord(f, pos + 4);
    hide Unpack4, Word;
  }

  /** The segments a file holds are those that are read, but for the padding. */
  lemma {:induction false} HeldRead(f: seq<byte>, list: seq<Segment>)
    requires SegmentsAt(f, list)
    ensures ReadSegments(f, START, |list|) == Ok((AllRepadded(list), EndOf(list)))
    decreases |list|
  {
    hide *;
    if list == [] {
      ReadNone(f, START);
      NoSegments(f);
    } else {
      var init, s := list[..|list| - 1], list[|list| - 1];
      assert list == init + [s];
      RepaddedSnoc(list);
      SegmentsAtSnoc(f, init, s);
      EndSnoc(init, s);
      SegmentReads(f, EndOf(init), s);
      HeldRead(f, init);
      ReadSnoc(f, START, AllRepadded(init), EndOf(init), Repadded(s), EndOf(list));
    }
  }

  /** As many of `n` segments as the file holds, from the first on. */
  lemma {:induction false} HeldSegments(f: seq<byte>, n: nat) returns (list: seq<Segment>)
    ensures |list| <= n && SegmentsAt(f, list)
    ensures match ReadSegments(f, START, n)
            case Ok(_) => |list| == n
            case Err(e) =>
              && |list| < n
              && if EndOf(list) + 8 > |f| then e == Truncated else e == SegmentTruncated && DataCut(f, EndOf(list))
  {
    hide SegmentsAt, SegmentAt, EndOf, ReadSegment, AllRepadded, DataCut;
    list := [];
    if n == 0 {
      NoSegments(f);
    } else {
      list := HeldSegments(f, n - 1);
      if |list| == n - 1 {
        HeldRead(f, list);
        SegmentReadExact(f, EndOf(list));
        if ReadSegment(f, EndOf(list)).Ok? {
          var raw :| SegmentAt(f, EndOf(list), raw);
          SegmentsAtSnoc(f, list, raw);
          list := list + [raw];
        }
      }
    }
  }

  lemma PlaceIsAt(list: seq<Segment>)
    ensures ChecksumAt(EndOf(list)) == ChecksumPlace(list)
  {
  }

  /** Exactly which files can be loaded: those that hold as many segments as their header says, and a
      checksum behind them. */
  lemma LoadExact(f: seq<byte>, sha256: seq<byte> -> seq<byte>)
    ensures Parse(f, sha256).Ok? <==> exists list :: CanLoad(f, list)
  {
    hide ReadSegments, HeaderOf, SegmentsAt, EndOf, ChecksumAt, ChecksumPlace, AllRepadded;
    if Parse(f, sha256).Ok? {
      var list := HeldSegments(f, f[1]);
      HeldRead(f, list);
      PlaceIsAt(list);
      assert CanLoad(f, list);
    }
    if list :| CanLoad(f, list) {
      HeldRead(f, list);
      PlaceIsAt(list);
    }
  }

  lemma HeaderIs(f: seq<byte>)
    requires Opened(f)
    ensures HeaderAt(f, HeaderOf(f))
  {
    UnpackedWord(f, 4);
    hide Unpack4, Word;
  }

  /** What is loaded from such a file. */
  lemma LoadedIs(f: seq<byte>, list: seq<Segment>, sha256: seq<byte> -> seq<byte>)
    requires CanLoad(f, list)
    ensures var c := ChecksumPlace(list);
            var end := if c + 33 <= |f| then c + 33 else |f|;
            && Parse(f, sha256).Ok?
            && var v := Parse(f, sha256).value;
            && HeaderAt(f, v.header) && v.segments == AllRepadded(list) && v.checksum == f[c]
            && v.storedDigest == (if f[23] == 1 then f[c + 1..end] else [])
            && v.calcDigest == (if f[23] == 1 then sha256(f[..c + 1]) else [])
  {
    HeldRead(f, list);
    PlaceIsAt(list);
    HeaderIs(f);
    hide ReadSegments, SegmentsAt, EndOf, ChecksumAt, ChecksumPlace, AllRepadded;
  }

  /** Exactly when and why loading fails. */
  lemma LoadRefused(f: seq<byte>, e: LoadError, sha256: seq<byte> -> seq<byte>)
    ensures Parse(f, sha256) == Err(e) <==> LoadDefect(f, e)
  {
    hide ReadSegments, HeaderOf, SegmentsAt, EndOf, ChecksumAt, ChecksumPlace, AllRepadded, DataCut;
    if Opened(f) {
      var n: nat := f[1];
      var held := HeldSegments(f, n);
      if |held| == n {
        HeldRead(f, held);
        PlaceIsAt(held);
      }
      forall list | |list| <= n && SegmentsAt(f, list)
        ensures |list| < n && EndOf(list) + 8 > |f| ==> Parse(f, sha256) == Err(Truncated)
        ensures |list| < n && DataCut(f, EndOf(list)) ==> Parse(f, sha256) == Err(SegmentTruncated)
        ensures |list| == n && ChecksumPlace(list) >= |f| ==> Parse(f, sha256) == Err(Truncated)
      {
        NextFails(f, list, n, sha256);
      }
    }
  }

  lemma NextFails(f: seq<byte>, list: seq<Segment>, n: nat, sha256: seq<byte> -> seq<byte>)
    requires Opened(f) && n == f[1] as int && |list| <= n && SegmentsAt(f, list)
    ensures |list| < n && EndOf(list) + 8 > |f| ==> Parse(f, sha256) == Err(Truncated)
    ensures |list| < n && DataCut(f, EndOf(list)) ==> Parse(f, sha256) == Err(SegmentTruncated)
    ensures |list| == n && ChecksumPlace(list) >= |f| ==> Parse(f, sha256) == Err(Truncated)
  {
    HeldRead(f, list);
    PlaceIsAt(list);
    SegmentReadExact(f, EndOf(list));
    if |list| < n && (EndOf(list) + 8 > |f| || DataCut(f, EndOf(list))) {
      var error := if EndOf(list) + 8 > |f| then Truncated else SegmentTruncated;
      CutReadsNothing(f, EndOf(list));
      assert ReadSegments(f, START, |list| + 1) == Err(error);
      ReadFails(f, START, |list| + 1, n, error);
    }
  }

  lemma CutReadsNothing(f: seq<byte>, pos: nat)
    requires pos + 8 > |f| || DataCut(f, pos)
    ensures ReadSegment(f, pos) == Err(if pos + 8 > |f| then Truncated else SegmentTruncated)
  {
    if pos + 8 <= |f| {
      UnpackedWord(f, pos + 4);
      hide Unpack4, Word;
    }
  }

  lemma LoadOutcome(f: seq<byte>, sha256: seq<byte> -> seq<byte>)
    ensures match Parse(f, sha256)
            case Ok(v) => exists list :: CanLoad(f, list) && v.segments == AllRepadded(list)
            case Err(x) => LoadDefect(f, x)
  {
    hide Parse, CanLoad, LoadDefect;
    LoadExact(f, sha256);
    if Parse(f, sha256).Ok? {
      var list :| CanLoad(f, list);
      LoadedIs(f, list, sha256);
    } else {
      LoadRefused(f, Parse(f, sha256).error, sha256);
    }
  }

  // ---------- Reading back what was written ----------

  function Repadded(s: Segment): Segment {
    MakeSegment(s.addr, s.data)
  }

  function AllRepadded(list: seq<Segment>): (r: seq<Segment>)
    ensures |r| == |list|
  {
    if list == [] then [] else AllRepadded(list[..|list| - 1]) + [Repadded(list[|list| - 1])]
  }

  /** Padding again changes nothing exactly for segments that are already padded. */
  lemma {:induction false} RepaddedExact(list: seq<Segment>)
    ensures AllRepadded(list) == list <==> WordSized(list)
  {
    if list != [] {
      var init, s := list[..|list| - 1], list[|list| - 1];
      RepaddedExact(init);
      SnocEquals(list, AllRepadded(init), Repadded(s));
      assert WordSized(list) <==> WordSized(init) && |s.data| % 4 == 0;
    }
  }

  lemma {:induction false} ChecksumOfZeros(data: seq<byte>, n: nat, state: byte)
    ensures Checksum(data + Zeros(n), state) == Checksum(data, state)
  {
    if n == 0 {
      assert data + Zeros(0) == data;
    } else {
      ChecksumOfZeros(data, n - 1, state);
      assert (data + Zeros(n))[..|data| + n - 1] == data + Zeros(n - 1);
      XorZero(Checksum(data, state));
    }
  }

  /** The zeros added do not change the checksum. */
  lemma {:induction false} RepaddedChecksum(list: seq<Segment>)
    ensures ChecksumOf(AllRepadded(list)) == ChecksumOf(list)
  {
    if list != [] {
      var init, s := list[..|list| - 1], list[|list| - 1];
      RepaddedChecksum(init);
      ChecksumOfIsByte(init);
      assert AllRepadded(list)[..|init|] == AllRepadded(init);
      if |s.data| % 4 != 0 {
        ChecksumOfZeros(s.data, 4 - |s.data| % 4, ChecksumOf(init));
      }
      hide Checksum, AllRepadded;
    }
  }

  /** The bytes `b` stand in the file at `pos`. */
  predicate At(f: seq<byte>, pos: nat, b: seq<byte>) {
    pos + |b| <= |f| && f[pos..pos + |b|] == b
  }

  lemma AtParts(f: seq<byte>, pos: nat, x: seq<byte>, y: seq<byte>)
    requires At(f, pos, x + y)
    ensures At(f, pos, x) && At(f, pos + |x|, y)
  {
    var b := f[pos..pos + |x + y|];
    assert b[..|x|] == x && b[|x|..] == y;
  }

  /** A segment is read back from its bytes; the constructor pads its data again. */
  lemma ReadOne(f: seq<byte>, pos: nat, s: Segment)
    requires Packable(s) && At(f, pos, SegmentBytes(s))
    ensures ReadSegment(f, pos) == Ok((Repadded(s), pos + |SegmentBytes(s)|))
  {
    AtParts(f, pos, Pack4(s.addr) + Pack4(|s.data|), s.data);
    AtParts(f, pos, Pack4(s.addr), Pack4(|s.data|));
    Round4(s.addr);
    Round4(|s.data|);
    hide Pack4, Unpack4;
  }

  lemma ReadSnoc(f: seq<byte>, pos: nat, init: seq<Segment>, next: nat, s: Segment, end: nat)
    requires ReadSegments(f, pos, |init|) == Ok((init, next)) && ReadSegment(f, next) == Ok((s, end))
    ensures ReadSegments(f, pos, |init| + 1) == Ok((init + [s], end))
  {
    hide ReadSegment;
  }

  lemma PackableSnoc(init: seq<Segment>, s: Segment)
    ensures AllPackable(init + [s]) <==> AllPackable(init) && Packable(s)
  {
    var list := init + [s];
    if AllPackable(list) {
      forall i | 0 <= i < |init| ensures Packable(init[i]) {
        assert Packable(list[i]);
      }
      assert Packable(list[|init|]);
    }
  }

  lemma BodyLast(init: seq<Segment>, s: Segment)
    requires AllPackable(init) && Packable(s)
    ensures AllPackable(init + [s]) && Body(init + [s]) == Body(init) + SegmentBytes(s)
  {
    PackableSnoc(init, s);
    assert (init + [s])[..|init|] == init;
    hide SegmentBytes;
  }

  lemma BodySnoc(a: seq<byte>, init: seq<Segment>, s: Segment, b: seq<byte>)
    requires AllPackable(init) && Packable(s)
    ensures Body(init + [s]) == Body(init) + SegmentBytes(s)
    ensures a + Body(init + [s]) + b == a + Body(init) + (SegmentBytes(s) + b)
    ensures a + Body(init + [s]) + b == (a + Body(init)) + SegmentBytes(s) + b
  {
    assert (init + [s])[..|init|] == init;
    hide SegmentBytes;
  }

  lemma SplitLast(list: seq<Segment>)
    requires AllPackable(list) && list != []
    ensures var init, s := list[..|list| - 1], list[|list| - 1];
            && list == init + [s] && AllPackable(init) && Packable(s)
            && Body(list) == Body(init) + SegmentBytes(s)
  {
    hide SegmentBytes;
    PackableSnoc(list[..|list| - 1], list[|list| - 1]);
  }

  lemma RepaddedSnoc(list: seq<Segment>)
    requires list != []
    ensures AllRepadded(list) == AllRepadded(list[..|list| - 1]) + [Repadded(list[|list| - 1])]
  {
  }

  lemma ReadNone(f: seq<byte>, pos: nat)
    ensures ReadSegments(f, pos, 0) == Ok(([], pos)) && Body([]) == [] && AllRepadded([]) == []
  {
  }

  lemma ReadNext(f: seq<byte>, pos: nat, init: seq<Segment>, s: Segment, read: seq<Segment>)
    requires AllPackable(init) && Packable(s) && |read| == |init|
    requires At(f, pos, Body(init) + SegmentBytes(s))
    requires ReadSegments(f, pos, |init|) == Ok((read, pos + |Body(init)|))
    ensures ReadSegments(f, pos, |init| + 1) == Ok((read + [Repadded(s)], pos + |Body(init) + SegmentBytes(s)|))
  {
    hide Body, SegmentBytes, ReadSegments, ReadSegment, AllPackable, Packable, At;
    AtParts(f, pos, Body(init), SegmentBytes(s));
    ReadOne(f, pos + |Body(init)|, s);
    ReadSnoc(f, pos, read, pos + |Body(init)|, Repadded(s), pos + |Body(init)| + |SegmentBytes(s)|);
  }

  lemma {:induction false} ReadAll(f: seq<byte>, pos: nat, list: seq<Segment>)
    requires AllPackable(list) && At(f, pos, Body(list))
    ensures ReadSegments(f, pos, |list|) == Ok((AllRepadded(list), pos + |Body(list)|))
    decreases |list|
  {
    hide *;
    if list == [] {
      ReadNone(f, pos);
    } else {
      var init, s := list[..|list| - 1], list[|list| - 1];
      SplitLast(list);
      AtParts(f, pos, Body(init), SegmentBytes(s));
      ReadAll(f, pos, init);
      RepaddedSnoc(list);
      ReadNext(f, pos, init, s, AllRepadded(init));
    }
  }

  lemma HeadRead(h: Header, count: byte, rest: seq<byte>)
    ensures var f := Head(h, count) + rest;
            && f[0] == IMAGE_MAGIC && f[1] == count && f[23] == (if h.appendDigest then 1 else 0)
            && HeaderOf(f) == Masked(h)
  {
    var f := Head(h, count) + rest;
    assert f[4..8] == Pack4(h.entry);
    Round4(h.entry);
    HeadBytes(h, count);
    forall i | 0 <= i < START ensures f[i] == Head(h, count)[i] {
    }
    hide Head, Join;
    Nibbles(h.clkDrv, h.qDrv);
    Nibbles(h.dDrv, h.csDrv);
    Nibbles(h.hdDrv, h.wpDrv);
  }

  lemma HeadBytes(h: Header, count: byte)
    ensures var f := Head(h, count);
            && f[0] == IMAGE_MAGIC && f[1] == count && f[2] == h.flashMode && f[3] == h.sizeFreq
            && f[8] == h.wpPin && f[9] == Join(h.clkDrv, h.qDrv) && f[10] == Join(h.dDrv, h.csDrv)
            && f[11] == Join(h.hdDrv, h.wpDrv) && f[23] == if h.appendDigest then 1 else 0
  {
    hide Join;
  }

  lemma Nibbles(low: nat, high: nat)
    ensures Join(low, high) % 16 == low % 16 && Join(low, high) / 16 == high % 16
  {
  }

  /** The checksum byte is found where loading looks for it. */
  lemma TrailerRead(content: seq<byte>, checksum: byte, rest: seq<byte>)
    ensures var f := content + (Trailer(|content|, checksum) + rest);
            && ChecksumAt(|content|) < |f| && f[ChecksumAt(|content|)] == checksum
            && f[..ChecksumAt(|content|) + 1] == content + Trailer(|content|, checksum)
            && f[ChecksumAt(|content|) + 1..] == rest
  {
    var trailer := Trailer(|content|, checksum);
    assert |trailer| == 16 - |content| % 16 && trailer[|trailer| - 1] == checksum;
    var f := content + (trailer + rest);
    assert f == (content + trailer) + rest;
  }

  /** Loading a saved image gives back the segments written, each padded to a multiple of four bytes,
      when there are at most sixteen; otherwise it is refused. The stored checksum, the header fields
      and the digest are those saved. */
  lemma LoadsSaved(h: Header, list: seq<Segment>, sha256: seq<byte> -> seq<byte>)
    requires AllPackable(list) && |list| < 0x100
    requires h.appendDigest ==> |sha256(Image(h, list))| == 32
    ensures var image := Image(h, list);
            var digest := if h.appendDigest then sha256(image) else [];
            Parse(image + digest, sha256) ==
            if |list| > MAX_LOADED then Err(BadHeader)
            else Ok(Loaded(Masked(h), AllRepadded(list), ChecksumByte(list), digest, digest))
  {
    var image := Image(h, list);
    var digest := if h.appendDigest then sha256(image) else [];
    SavedShape(h, list, digest);
    hide *;
    Reload(image, image + digest, h, list, digest, sha256);
  }

  lemma Reload(image: seq<byte>, f: seq<byte>, h: Header, list: seq<Segment>, digest: seq<byte>,
               sha256: seq<byte> -> seq<byte>)
    requires AllPackable(list) && |list| < 0x100
    requires if h.appendDigest then |digest| == 32 && sha256(image) == digest else digest == []
    requires var content := Head(h, |list|) + Body(list);
             var tail := Trailer(|content|, ChecksumByte(list)) + digest;
             && image == content + Trailer(|content|, ChecksumByte(list))
             && f == content + tail && f == Head(h, |list|) + (Body(list) + tail)
    ensures Parse(f, sha256) ==
            if |list| > MAX_LOADED then Err(BadHeader)
            else Ok(Loaded(Masked(h), AllRepadded(list), ChecksumByte(list), digest, digest))
  {
    hide Head, Body, Trailer, ChecksumByte, ReadSegments, HeaderOf, ChecksumAt, Parse, AllPackable, AllRepadded;
    var content := Head(h, |list|) + Body(list);
    var tail := Trailer(|content|, ChecksumByte(list)) + digest;
    HeadRead(h, |list|, Body(list) + tail);
    assert At(f, START, Body(list));
    ReadAll(f, START, list);
    TrailerRead(content, ChecksumByte(list), digest);
    ParseIs(f, sha256, Masked(h), AllRepadded(list), |content|, ChecksumByte(list), digest);
  }

  lemma SavedShape(h: Header, list: seq<Segment>, rest: seq<byte>)
    requires AllPackable(list) && |list| < 0x100
    ensures var content := Head(h, |list|) + Body(list);
            var tail := Trailer(|content|, ChecksumByte(list)) + rest;
            && Image(h, list) == content + Trailer(|content|, ChecksumByte(list))
            && Image(h, list) + rest == content + tail
            && Image(h, list) + rest == Head(h, |list|) + (Body(list) + tail)
  {
    var content := Head(h, |list|) + Body(list);
    hide Head, Body, Trailer, ChecksumByte;
    Associates(content, Trailer(|content|, ChecksumByte(list)), rest);
    Associates(Head(h, |list|), Body(list), Trailer(|content|, ChecksumByte(list)) + rest);
  }

  lemma ParseIs(f: seq<byte>, sha256: seq<byte> -> seq<byte>, h: Header, list: seq<Segment>, end: nat,
                checksum: byte, digest: seq<byte>)
    requires |f| >= START && f[0] == IMAGE_MAGIC && f[1] as int == |list|
    requires f[23] == (if h.appendDigest then 1 else 0) && HeaderOf(f) == h
    requires ReadSegments(f, START, |list|) == Ok((list, end))
    requires ChecksumAt(end) < |f| && f[ChecksumAt(end)] == checksum && f[ChecksumAt(end) + 1..] == digest
    requires if h.appendDigest then |digest| == 32 && sha256(f[..ChecksumAt(end) + 1]) == digest else digest == []
    ensures Parse(f, sha256) ==
            if |list| > MAX_LOADED then Err(BadHeader) else Ok(Loaded(h, list, checksum, digest, digest))
  {
    hide ReadSegments, HeaderOf, ChecksumAt;
    if h.appendDigest {
      var c := ChecksumAt(end);
      assert c + 33 == |f|;
      assert f[c + 1..c + 33] == f[c + 1..];
    }
  }

  // ---------- Where things are in the file ----------

  lemma SegmentsSnoc(out: seq<Piece>)
    requires out != []
    ensures Segments(out) == Segments(out[..|out| - 1]) + [out[|out| - 1].seg]
    ensures AllPackable(Segments(out)) <==>
            AllPackable(Segments(out[..|out| - 1])) && Packable(out[|out| - 1].seg)
  {
    PackableSnoc(Segments(out[..|out| - 1]), out[|out| - 1].seg);
  }

  lemma {:induction false} BodySize(out: seq<Piece>)
    requires AllPackable(Segments(out))
    ensures |Body(Segments(out))| == Size(out)
  {
    if out != [] {
      var k := |out| - 1;
      SegmentsSnoc(out);
      BodySnoc([], Segments(out[..k]), out[k].seg, []);
      BodySize(out[..k]);
    }
  }

  /** The body in front of a piece, the piece, and what follows. */
  lemma {:induction false} BodyAround(out: seq<Piece>, k: nat) returns (rest: seq<byte>)
    requires AllPackable(Segments(out)) && k < |out|
    ensures AllPackable(Segments(out[..k])) && Packable(out[k].seg)
    ensures Body(Segments(out)) == Body(Segments(out[..k])) + (SegmentBytes(out[k].seg) + rest)
    decreases |out|
  {
    hide Segments, Body, AllPackable, Packable, SegmentBytes;
    var n := |out| - 1;
    var init, last := out[..n], out[n].seg;
    SegmentsSnoc(out);
    BodyLast(Segments(init), last);
    if k < n {
      rest := BodyAround(init, k);
      assert init[..k] == out[..k];
      Regroup4(Body(Segments(out[..k])), SegmentBytes(out[k].seg), rest, SegmentBytes(last));
      rest := rest + SegmentBytes(last);
    } else {
      AppendNothing(SegmentBytes(last));
      rest := [];
    }
  }

  lemma Regroup4(a: seq<byte>, b: seq<byte>, c: seq<byte>, d: seq<byte>)
    ensures a + (b + c) + d == a + (b + (c + d))
  {
  }

  /** The data of a piece stands behind the pieces before it and its own header. */
  lemma PieceAt(out: seq<Piece>, k: nat)
    requires AllPackable(Segments(out)) && k < |out|
    ensures var off, data := Size(out[..k]) + SEG_HEADER_LEN, out[k].seg.data;
            off + |data| <= |Body(Segments(out))| && Body(Segments(out))[off..off + |data|] == data
  {
    var rest := BodyAround(out, k);
    BodySize(out[..k]);
    hide Body, Segments, Size, AllPackable;
    DataAt(Body(Segments(out[..k])), out[k].seg, rest);
  }

  lemma DataAt(a: seq<byte>, s: Segment, rest: seq<byte>)
    requires Packable(s)
    ensures var f, off := a + (SegmentBytes(s) + rest), |a| + SEG_HEADER_LEN;
            off + |s.data| <= |f| && f[off..off + |s.data|] == s.data
  {
  }

  lemma {:induction false} OfKindMember(out: seq<Piece>, kind: Kind, s: Segment) returns (k: nat)
    requires s in OfKind(out, kind)
    ensures k < |out| && out[k] == Piece(kind, s)
  {
    var n := |out| - 1;
    if out[n] == Piece(kind, s) {
      k := n;
    } else {
      k := OfKindMember(out[..n], kind, s);
    }
  }

  /** The data of every flash-mapped segment is in the saved file, in one piece, at an offset that
      is congruent to its address modulo 64 KiB. */
  lemma FlashMapped(h: Header, segments: seq<Segment>, s: Segment) returns (off: nat)
    requires Pieces(segments).Some?
    requires var list := Segments(Pieces(segments).value);
             AllPackable(list) && |list| < 0x100
    requires s in segments && IsFlash(s)
    ensures var image := Image(h, Segments(Pieces(segments).value));
            && off + |s.data| <= |image|
            && image[off..off + |s.data|] == s.data
            && off % IROM_ALIGN == s.addr % IROM_ALIGN
  {
    hide Pieces, Image, Body, Size, WellPlaced, AllPackable, AllCells, FlashPart, OfKind;
    var out := Pieces(segments).value;
    PiecesCorrect(segments);
    FlashAmongPieces(segments, s);
    var k := OfKindMember(out, Flash, s);
    PieceAt(out, k);
    ImageSlice(h, Segments(out), Size(out[..k]) + SEG_HEADER_LEN, |s.data|);
    PlacedAt(out, k);
    off := START + Size(out[..k]) + SEG_HEADER_LEN;
  }

  lemma FlashAmongPieces(segments: seq<Segment>, s: Segment)
    requires s in segments && IsFlash(s)
    ensures s in FlashPart(segments)
  {
    SortedCorrect(segments, ByAddress);
    SelectKeeps(Sorted(segments, ByAddress), s);
  }

  lemma PlacedAt(out: seq<Piece>, k: nat)
    requires WellPlaced(out) && k < |out| && out[k].kind == Flash
    ensures (START + Size(out[..k]) + SEG_HEADER_LEN) % IROM_ALIGN == out[k].seg.addr % IROM_ALIGN
  {
  }

  lemma ImageSlice(h: Header, list: seq<Segment>, off: nat, n: nat)
    requires AllPackable(list) && |list| < 0x100 && off + n <= |Body(list)|
    ensures START + off + n <= |Image(h, list)|
    ensures Image(h, list)[START + off..START + off + n] == Body(list)[off..off + n]
  {
    hide Head, Body, Trailer, ChecksumByte, AllPackable;
  }

  /** The file length is a multiple of sixteen, and its last byte is 0xEF combined by exclusive or
      with every byte of the input segments, however they were split and padded. */
  lemma ImageEnds(h: Header, segments: seq<Segment>)
    requires Pieces(segments).Some?
    requires var list := Segments(Pieces(segments).value);
             AllPackable(list) && |list| < 0x100
    ensures var image := Image(h, Segments(Pieces(segments).value));
            && |image| % 16 == 0 && |image| > 0
            && image[|image| - 1] as nat == Xor(CHECKSUM_MAGIC, XorCells(AllCells(segments)))
  {
    ChecksumPreserved(segments);
    ChecksumOfIsXor(segments);
    hide Pieces, Head, Body, ChecksumOf, AllCells, XorCells;
    var list := Segments(Pieces(segments).value);
    var content := Head(h, |list|) + Body(list);
    TrailerEnds(content, ChecksumByte(list));
  }

  lemma TrailerEnds(content: seq<byte>, checksum: byte)
    ensures var f := content + Trailer(|content|, checksum);
            |f| % 16 == 0 && |f| > 0 && f[|f| - 1] == checksum
  {
    var n := |content|;
    assert n + 16 - n % 16 == 16 * (n / 16 + 1);
  }

  // ---------- Addresses stay within 32 bits ----------

  /** Segments that lie within the 32-bit address space. */
  predicate InRange(list: seq<Segment>) {
    forall i :: 0 <= i < |list| ==> Fits(list[i])
  }

  predicate Fits(s: Segment) {
    s.addr < 0x1_0000_0000 && |s.data| < 0x1_0000_0000 && s.addr + |s.data| <= 0x1_0000_0000
  }

  lemma StepInRange(l: Layout)
    requires InRange(l.flash) && InRange(l.ram) && OneStep(l).Next?
    ensures InRange(OneStep(l).l.flash) && InRange(OneStep(l).l.ram) && Packable(NewPiece(l).seg)
  {
    hide Aligned;
    NeededBound(l.pos, l.flash[0].addr);
    hide AlignmentNeeded;
    if l.ram != [] {
      assert Fits(l.ram[0]);
    }
    assert Fits(l.flash[0]);
  }

  lemma NeededBound(pos: nat, addr: nat)
    ensures AlignmentNeeded(pos, addr) < 2 * IROM_ALIGN
  {
  }

  lemma PartsInRange(segments: seq<Segment>)
    requires InRange(segments)
    ensures InRange(FlashPart(segments)) && InRange(RamPart(segments))
  {
    var sorted := Sorted(segments, ByAddress);
    SortedCorrect(segments, ByAddress);
    var flash, ram := FlashPart(segments), RamPart(segments);
    forall i | 0 <= i < |flash| ensures Fits(flash[i]) {
      SelectMembers(sorted, true, flash[i]);
    }
    forall i | 0 <= i < |ram| ensures Fits(ram[i]) {
      SelectMembers(sorted, false, ram[i]);
    }
  }

  // ---------- Which segments can be written ----------

  /** Everything the loop writes fits the fields of a segment header. */
  ghost predicate LoopPackable(l: Layout)
    decreases |l.flash|, |l.ram|, Rank(l)
  {
    || Stuck(l) || !OneStep(l).Next?
    || (StepDecreases(l); Packable(NewPiece(l).seg) && LoopPackable(OneStep(l).l))
  }

  /** And so do the RAM segments that are left. */
  ghost predicate Writable(segments: seq<Segment>) {
    && LoopPackable(Layout(START, FlashPart(segments), RamPart(segments), []))
    && (Placement(segments).Arranged? ==> AllPackable(Placement(segments).l.ram))
  }

  lemma LoopPackableNext(l: Layout)
    requires !Stuck(l) && OneStep(l).Next?
    ensures LoopPackable(l) <==> Packable(NewPiece(l).seg) && LoopPackable(OneStep(l).l)
  {
    hide OneStep, NewPiece, Stuck, Packable;
  }

  lemma {:induction false} LoopExact(l: Layout)
    requires Arrange(l).Arranged?
    ensures AllPackable(Segments(Arrange(l).l.out)) <==> AllPackable(Segments(l.out)) && LoopPackable(l)
    decreases |l.flash|, |l.ram|, Rank(l)
  {
    if OneStep(l).Next? {
      var p := NewPiece(l);
      StepDecreases(l);
      LoopPackableNext(l);
      hide AllPackable, OneStep, Stuck, NewPiece, LoopPackable, Packable;
      PieceAppended(l.out, p);
      PackableSnoc(Segments(l.out), p.seg);
      LoopExact(OneStep(l).l);
    }
  }

  lemma AllPackableAppend(a: seq<Segment>, b: seq<Segment>)
    ensures AllPackable(a + b) <==> AllPackable(a) && AllPackable(b)
  {
    hide Packable;
    if AllPackable(a + b) {
      forall i | 0 <= i < |a| ensures Packable(a[i]) {
        assert Packable((a + b)[i]);
      }
      forall i | 0 <= i < |b| ensures Packable(b[i]) {
        assert Packable((a + b)[|a| + i]);
      }
    }
  }

  /** For a finished arrangement that means all its pieces. */
  lemma WritableExact(segments: seq<Segment>)
    requires Pieces(segments).Some?
    ensures Writable(segments) <==> AllPackable(Segments(Pieces(segments).value))
  {
    var start := Layout(START, FlashPart(segments), RamPart(segments), []);
    var end := Placement(segments).l;
    LoopExact(start);
    hide LoopPackable, Arrange, AllPackable, FlashPart, RamPart;
    RamPiecesSegments(end.ram, end.out);
    AllPackableAppend(Segments(end.out), end.ram);
    NothingPackable();
  }

  lemma NothingPackable()
    ensures AllPackable(Segments([]))
  {
  }

  lemma {:induction false} LoopInRange(l: Layout)
    requires InRange(l.flash) && InRange(l.ram)
    ensures LoopPackable(l) && (Arrange(l).Arranged? ==> InRange(Arrange(l).l.ram))
    decreases |l.flash|, |l.ram|, Rank(l)
  {
    if !Stuck(l) && OneStep(l).Next? {
      StepDecreases(l);
      StepInRange(l);
      hide InRange, OneStep, Stuck, NewPiece, Packable;
      LoopInRange(OneStep(l).l);
    }
  }

  /** Segments that lie within the 32-bit address space can always be written. */
  lemma RangeWritable(segments: seq<Segment>)
    requires InRange(segments)
    ensures Writable(segments)
  {
    PartsInRange(segments);
    LoopInRange(Layout(START, FlashPart(segments), RamPart(segments), []));
    hide LoopPackable, Arrange, FlashPart, RamPart;
    if Placement(segments).Arranged? {
      var ram := Placement(segments).l.ram;
      forall i | 0 <= i < |ram| ensures Packable(ram[i]) {
        assert Fits(ram[i]);
      }
    }
  }

  // ---------- Writing, step by step ----------

  method RunChecksum(data: seq<byte>, state: byte) returns (sum: byte)
    ensures sum == Checksum(data, state)
  {
    sum := state;
    for i := 0 to |data|
      invariant sum == Checksum(data[..i], state)
    {
      assert data[..i + 1][..i] == data[..i];
      XorByte(sum, data[i]);
      sum := Xor(sum, data[i]);
    }
    assert data[..|data|] == data;
  }

  /** What `save` has produced so far: the file, the running checksum and the number of segments. */
  datatype Output = Output(file: seq<byte>, checksum: byte, total: nat)

  ghost predicate Holds(o: Output, head: seq<byte>, out: seq<Piece>) {
    && AllPackable(Segments(out))
    && o.file == head + Body(Segments(out))
    && o.checksum == ChecksumOf(Segments(out))
    && o.total == |out|
  }

  lemma HoldsNext(o: Output, head: seq<byte>, out: seq<Piece>, p: Piece, o': Output)
    requires Holds(o, head, out) && Packable(p.seg)
    requires o'.file == o.file + SegmentBytes(p.seg) && o'.checksum == Checksum(p.seg.data, o.checksum)
    requires o'.total == o.total + 1
    ensures Holds(o', head, out + [p])
  {
    assert (out + [p])[..|out|] == out;
    SegmentsSnoc(out + [p]);
    BodySnoc(head, Segments(out), p.seg, []);
    var list, list' := Segments(out), Segments(out + [p]);
    assert list'[..|list|] == list;
    hide Segments, Body, SegmentBytes, Checksum;
    Associates(head, Body(list), SegmentBytes(p.seg));
  }

  /** `save_segment`. */
  method SaveSegment(o: Output, s: Segment) returns (o': Output)
    requires Packable(s)
    ensures o'.file == o.file + SegmentBytes(s) && o'.checksum == Checksum(s.data, o.checksum)
    ensures o'.total == o.total + 1
  {
    var checksum := RunChecksum(s.data, o.checksum);
    o' := Output(o.file + SegmentBytes(s), checksum, o.total + 1);
  }

  /** The check for two flash segments in one 64 KiB page, on segments in address order. */
  method CheckPages(flash: seq<Segment>) returns (ok: bool)
    ensures ok <==> NeighboursApart(flash)
  {
    if |flash| > 0 {
      var lastAddr := flash[0].addr;
      for i := 1 to |flash|
        invariant lastAddr == flash[i - 1].addr
        invariant forall j :: 0 < j < i ==> flash[j].addr / IROM_ALIGN != flash[j - 1].addr / IROM_ALIGN
      {
        if flash[i].addr / IROM_ALIGN == lastAddr / IROM_ALIGN {
          return false;
        }
        lastAddr := flash[i].addr;
      }
    }
    return true;
  }

  /** The exceptions; `Hangs` stands for the loop that never ends. */
  datatype SaveError = Unpackable | SamePage | AssertionFailure | Hangs | TooMany

  /** The segment to write next, and the lists without it; an error when the assertion fires. */
  method ChooseSegment(pos: nat, flash: seq<Segment>, ram: seq<Segment>, ghost out: seq<Piece>)
    returns (r: Result<(Segment, seq<Segment>, seq<Segment>), SaveError>)
    requires flash != []
    ensures var step := OneStep(Layout(pos, flash, ram, out));
            match r
            case Ok((piece, flash', ram')) =>
              && step.Next? && NewPiece(Layout(pos, flash, ram, out)).seg == piece
              && step.l.flash == flash' && step.l.ram == ram' && step.l.pos == pos + SEG_HEADER_LEN + |piece.data|
            case Err(e) => e == AssertionFailure && step.AssertionFailed?
  {
    var segment := flash[0];
    var padLen := AlignmentNeeded(pos, segment.addr);
    hide SplitOff, AlignmentNeeded;
    if padLen > 0 {
      if |ram| > 0 && padLen > SEG_HEADER_LEN {
        var (piece, rest) := SplitOff(ram[0], padLen);
        return Ok((piece, flash, if rest.data == [] then ram[1..] else [rest] + ram[1..]));
      } else {
        return Ok((MakeSegment(0, Zeros(padLen)), flash, ram));
      }
    } else if (pos + SEG_HEADER_LEN) % IROM_ALIGN == segment.addr % IROM_ALIGN {
      return Ok((segment, flash[1..], ram));
    } else {
      return Err(AssertionFailure);
    }
  }

  /** The loop that places the flash segments between pieces of RAM segments and padding. Where the
      source would go round for ever, this one stops. */
  method PlaceFlash(head: seq<byte>, flash0: seq<Segment>, ram0: seq<Segment>)
    returns (r: Result<(Output, seq<Segment>), SaveError>)
    requires |head| == START
    ensures var start := Layout(START, flash0, ram0, []);
            var end := Arrange(start);
            match r
            case Ok((o, ram)) =>
              LoopPackable(start) && end.Arranged? && end.l.ram == ram && Holds(o, head, end.l.out)
            case Err(e) =>
              || (e == AssertionFailure && LoopPackable(start) && end.Asserted?)
              || (e == Hangs && LoopPackable(start) && end.Endless?)
              || (e == Unpackable && !LoopPackable(start))
  {
    ghost var start := Layout(START, flash0, ram0, []);
    var flash, ram := flash0, ram0;
    var o := Output(head, CHECKSUM_MAGIC, 0);
    AppendNothing(head);
    assert Holds(o, head, []);
    ghost var l := start;
    hide Holds, Size, SegmentBytes, OneStep, NewPiece, Aligned, Rank, Arrange, AlignmentNeeded, LoopPackable, Packable;
    while |flash| > 0
      invariant l.flash == flash && l.ram == ram && l.pos == |o.file| == START + Size(l.out)
      invariant Holds(o, head, l.out)
      invariant Arrange(l) == Arrange(start)
      invariant LoopPackable(l) <==> LoopPackable(start)
      decreases |flash|, |ram|, Rank(l)
    {
      StepOutcome(l);
      if |ram| == 0 && flash[0].addr % 4 != |o.file| % 4 {
        return Err(Hangs);
      }
      var choice := ChooseSegment(|o.file|, flash, ram, l.out);
      if choice.Err? {
        return Err(choice.error);
      }
      var piece := choice.value.0;
      flash, ram := choice.value.1, choice.value.2;
      StepDecreases(l);
      ghost var p, l' := NewPiece(l), OneStep(l).l;
      LoopPackableNext(l);
      if !Packable(piece) {
        return Err(Unpackable);
      }
      ghost var before := o;
      o := SaveSegment(o, piece);
      SizeSnoc(l.out, p);
      HoldsNext(before, head, l.out, p, o);
      l := l';
    }
    ArrangeDone(l);
    return Ok((o, ram));
  }

  /** What an iteration means for the whole loop. */
  lemma StepOutcome(l: Layout)
    requires l.flash != []
    ensures Stuck(l) || !OneStep(l).Next? ==> LoopPackable(l)
    ensures Arrange(l) ==
            if Stuck(l) then Endless
            else if OneStep(l).AssertionFailed? then Asserted
            else Arrange(OneStep(l).l)
  {
    hide AlignmentNeeded, Aligned;
  }

  lemma ArrangeDone(l: Layout)
    requires l.flash == []
    ensures Arrange(l) == Arranged(l) && LoopPackable(l)
  {
  }

  lemma SizeSnoc(out: seq<Piece>, p: Piece)
    ensures Size(out + [p]) == Size(out) + SEG_HEADER_LEN + |p.seg.data|
  {
    assert (out + [p])[..|out|] == out;
  }

  /** The RAM segments that are left follow the flash segments. */
  method WriteRemaining(head: seq<byte>, o0: Output, ram: seq<Segment>, ghost out: seq<Piece>)
    returns (r: Result<Output, SaveError>)
    requires Holds(o0, head, out)
    ensures match r
            case Ok(o) => Holds(o, head, out + RamPieces(ram)) && AllPackable(ram)
            case Err(e) => e == Unpackable && !AllPackable(ram)
  {
    hide Holds, SegmentBytes, Checksum, RamPieces, Packable;
    var o := o0;
    AppendNothing(out);
    NoPieces();
    for i := 0 to |ram|
      invariant Holds(o, head, out + RamPieces(ram[..i]))
      invariant forall j :: 0 <= j < i ==> Packable(ram[j])
    {
      if !Packable(ram[i]) {
        return Err(Unpackable);
      }
      ghost var before := o;
      o := SaveSegment(o, ram[i]);
      assert ram[..i + 1][..i] == ram[..i];
      RamPiecesSnoc(ram[..i + 1], out);
      HoldsNext(before, head, out + RamPieces(ram[..i]), Piece(Ram, ram[i]), o);
    }
    assert ram[..|ram|] == ram;
    return Ok(o);
  }

  lemma NoPieces()
    ensures RamPieces([]) == []
  {
  }

  lemma PiecesAre(segments: seq<Segment>, end: Layout)
    requires Placement(segments) == Arranged(end)
    ensures Pieces(segments) == Some(end.out + RamPieces(end.ram))
  {
  }

  /** Writing the number of segments back into the header. */
  lemma PatchCount(h: Header, before: byte, count: byte, rest: seq<byte>)
    ensures (Head(h, before) + rest)[1 := count] == Head(h, count) + rest
  {
    hide ExtendedHeader;
    assert CommonHeader(h, before)[1 := count] == CommonHeader(h, count);
  }

  class FirmwareImage {
    var header: Header
    var segments: seq<Segment>
    var checksum: byte
    var storedDigest: seq<byte>
    var calcDigest: seq<byte>

    constructor ()
      ensures segments == [] && storedDigest == [] && calcDigest == []
      ensures header == Header(0, 0, 0, 0xEE, 0, 0, 0, 0, 0, 0, true)
    {
      header := Header(0, 0, 0, 0xEE, 0, 0, 0, 0, 0, 0, true);
      segments, storedDigest, calcDigest := [], [], [];
    }

    /** The file, or the reason why there is none. The cases exclude each other, so each outcome occurs
        exactly under its condition. */
    method Save(sha256: seq<byte> -> seq<byte>) returns (r: Result<seq<byte>, SaveError>)
      ensures match r
              case Ok(file) =>
                && |segments| < 0x100 && PagesDistinct(segments) && Pieces(segments).Some?
                && var list := Segments(Pieces(segments).value);
                && AllPackable(list) && |list| < 0x100
                && file == Image(header, list) + (if header.appendDigest then sha256(Image(header, list)) else [])
                && IsImage(Image(header, list), header, list)
              case Err(Unpackable) => |segments| >= 0x100 || (PagesDistinct(segments) && !Writable(segments))
              case Err(SamePage) => |segments| < 0x100 && !PagesDistinct(segments)
              case Err(AssertionFailure) =>
                |segments| < 0x100 && PagesDistinct(segments) && Writable(segments) && Placement(segments).Asserted?
              case Err(Hangs) =>
                |segments| < 0x100 && PagesDistinct(segments) && Writable(segments) && Placement(segments).Endless?
              case Err(TooMany) =>
                && |segments| < 0x100 && PagesDistinct(segments) && Writable(segments)
                && Pieces(segments).Some? && |Pieces(segments).value| >= 0x100
    {
      if |segments| >= 0x100 {
        return Err(Unpackable);
      }
      var head := Head(header, |segments|);
      var flash, ram := FlashPart(segments), RamPart(segments);
      PageCheckExact(segments);
      var apart := CheckPages(flash);
      if !apart {
        return Err(SamePage);
      }
      hide FlashPart, RamPart, Holds, LoopPackable, AllPackable, PagesDistinct, NeighboursApart;
      var placed := PlaceFlash(head, flash, ram);
      if placed.Err? {
        return Err(placed.error);
      }
      ghost var end := Placement(segments).l;
      PiecesAre(segments, end);
      var written := WriteRemaining(head, placed.value.0, placed.value.1, end.out);
      if written.Err? {
        return Err(written.error);
      }
      r := Finish(head, written.value, end.out + RamPieces(end.ram), sha256);
      hide IsImage, Image;
      if r.Ok? {
        ImageIs(header, Segments(Pieces(segments).value));
      }
    }

    /** Checksum, segment count and digest. */
    method Finish(head: seq<byte>, o: Output, ghost out: seq<Piece>, sha256: seq<byte> -> seq<byte>)
      returns (r: Result<seq<byte>, SaveError>)
      requires |segments| < 0x100 && head == Head(header, |segments|) && Holds(o, head, out)
      ensures match r
              case Ok(file) =>
                && var list := Segments(out);
                && AllPackable(list) && |list| < 0x100
                && file == Image(header, list) + (if header.appendDigest then sha256(Image(header, list)) else [])
              case Err(e) => e == TooMany && |out| >= 0x100
    {
      var file := o.file + Trailer(|o.file|, o.checksum);
      if o.total >= 0x100 {
        return Err(TooMany);
      }
      ghost var body := Body(Segments(out));
      Associates(head, body, Trailer(|o.file|, o.checksum));
      PatchCount(header, |segments|, o.total, body + Trailer(|o.file|, o.checksum));
      Associates(Head(header, o.total), body, Trailer(|o.file|, o.checksum));
      file := file[1 := o.total];
      assert file == Image(header, Segments(out));
      if header.appendDigest {
        file := file + sha256(file);
      } else {
        AppendNothing(file);
      }
      return Ok(file);
    }

    /** Appends the segments read from position 24 on, and gives the position behind them. */
    method LoadSegments(f: seq<byte>, count: nat) returns (r: Result<nat, LoadError>)
      requires segments == []
      modifies `segments
      ensures match ReadSegments(f, START, count)
              case Err(x) => r == Err(x)
              case Ok((list, end)) => r == Ok(end) && segments == list
    {
      var pos := START;
      for i := 0 to count
        invariant ReadSegments(f, START, i) == Ok((segments, pos))
      {
        var s := ReadSegment(f, pos);
        hide ReadSegment;
        if s.Err? {
          ReadFails(f, START, i + 1, count, s.error);
          return Err(s.error);
        }
        segments := segments + [s.value.0];
        pos := s.value.1;
      }
      return Ok(pos);
    }

    /** `read_checksum`, and the digest when there is one. */
    method ReadEnd(f: seq<byte>, pos: nat, sha256: seq<byte> -> seq<byte>) returns (e: Option<LoadError>)
      requires storedDigest == [] && calcDigest == []
      modifies `checksum, `storedDigest, `calcDigest
      ensures match ParseEnd(f, header, segments, pos, sha256)
              case Err(x) => e == Some(x)
              case Ok(v) => e == None && v == Loaded(header, segments, checksum, storedDigest, calcDigest)
    {
      var c := ChecksumAt(pos);
      if c >= |f| {
        return Some(Truncated);
      }
      checksum := f[c];
      if header.appendDigest {
        var end := if c + 33 <= |f| then c + 33 else |f|;
        storedDigest := f[c + 1..end];
        calcDigest := sha256(f[..c + 1]);
      }
      return None;
    }

    /** Loading a file into a new object; the error is the exception the constructor raises. */
    method Load(f: seq<byte>, sha256: seq<byte> -> seq<byte>) returns (e: Option<LoadError>)
      requires segments == [] && storedDigest == [] && calcDigest == []
      modifies this
      ensures match Parse(f, sha256)
              case Err(x) => e == Some(x)
              case Ok(v) => e == None && v == Loaded(header, segments, checksum, storedDigest, calcDigest)
      ensures match e
              case None => exists list :: CanLoad(f, list) && segments == AllRepadded(list)
              case Some(x) => LoadDefect(f, x)
    {
      LoadOutcome(f, sha256);
      if |f| < 8 {
        return Some(Truncated);
      }
      hide ReadSegments, HeaderOf, ParseEnd, CanLoad, LoadDefect, AllRepadded;
      var count := f[1];
      if f[0] != IMAGE_MAGIC || count as int > MAX_LOADED {
        return Some(BadHeader);
      }
      if |f| < START {
        return Some(Truncated);
      }
      if f[23] > 1 {
        return Some(BadDigestFlag);
      }
      header := HeaderOf(f);
      var loaded := LoadSegments(f, count);
      if loaded.Err? {
        return Some(loaded.error);
      }
      e := ReadEnd(f, loaded.value, sha256);
    }
  }

  lemma {:induction false} ReadFails(f: seq<byte>, pos: nat, k: nat, n: nat, e: LoadError)
    requires k <= n && ReadSegments(f, pos, k) == Err(e)
    ensures ReadSegments(f, pos, n) == Err(e)
  {
    if k < n {
      ReadFails(f, pos, k, n - 1, e);
    }
  }

  // ---------- Saving and loading ----------

  lemma StepWordSized(l: Layout)
    requires Tidy(l) && OneStep(l).Next?
    ensures |NewPiece(l).seg.data| % 4 == 0
  {
    var need := AlignmentNeeded(l.pos, l.flash[0].addr);
    NeededMod4(l.pos, l.flash[0].addr);
    if l.ram != [] {
      Split4(l.ram[0], need);
    }
    hide AlignmentNeeded, Aligned, SplitOff;
  }

  lemma WordSizedSnoc(init: seq<Segment>, s: Segment)
    requires WordSized(init) && |s.data| % 4 == 0
    ensures WordSized(init + [s])
  {
  }

  lemma {:induction false} ArrangeWordSized(l: Layout)
    requires Tidy(l) && WordSized(Segments(l.out)) && Arrange(l).Arranged?
    ensures WordSized(Segments(Arrange(l).l.out)) && Tidy(Arrange(l).l)
    decreases |l.flash|, |l.ram|, Rank(l)
  {
    if OneStep(l).Next? {
      var p := NewPiece(l);
      StepDecreases(l);
      StepTidy(l);
      StepWordSized(l);
      hide Tidy, WordSized, OneStep, Stuck, NewPiece;
      PieceAppended(l.out, p);
      WordSizedSnoc(Segments(l.out), p.seg);
      ArrangeWordSized(OneStep(l).l);
    }
  }

  lemma PieceAppended(out: seq<Piece>, p: Piece)
    ensures Segments(out + [p]) == Segments(out) + [p.seg]
  {
    assert (out + [p])[..|out|] == out;
  }

  lemma {:induction false} RamPiecesSegments(ram: seq<Segment>, out: seq<Piece>)
    ensures Segments(out + RamPieces(ram)) == Segments(out) + ram
  {
    if ram == [] {
      AppendNothing(out);
      AppendNothing(Segments(out));
    } else {
      var k := |ram| - 1;
      RamPiecesSegments(ram[..k], out);
      RamPiecesSnoc(ram, out);
      hide RamPieces, Segments;
      PieceAppended(out + RamPieces(ram[..k]), Piece(Ram, ram[k]));
      assert ram == ram[..k] + [ram[k]];
      Associates(Segments(out), ram[..k], [ram[k]]);
    }
  }

  /** Segments that lie within the 32-bit address space give pieces that can be written. */
  lemma PiecesPackable(segments: seq<Segment>)
    requires InRange(segments) && Pieces(segments).Some?
    ensures AllPackable(Segments(Pieces(segments).value))
  {
    RangeWritable(segments);
    WritableExact(segments);
  }

  lemma PiecesWordSized(segments: seq<Segment>)
    requires WordSized(segments) && WordAligned(segments) && Pieces(segments).Some?
    ensures WordSized(Segments(Pieces(segments).value))
  {
    StartTidy(segments);
    ArrangeWordSized(Layout(START, FlashPart(segments), RamPart(segments), []));
    var end := Placement(segments).l;
    RamPiecesSegments(end.ram, end.out);
  }

  /** A saved image is loaded back with the segments that were written, in order, provided there are
      at most sixteen; a longer one is refused. They are exactly the segments written when flash
      addresses are multiples of four; otherwise some may have zeros added. The checksum read equals
      the checksum calculated, which is that of the segments saved in the first place. */
  lemma SaveThenLoad(h: Header, segments: seq<Segment>, sha256: seq<byte> -> seq<byte>)
    requires Pieces(segments).Some? && |Pieces(segments).value| < 0x100
    requires AllPackable(Segments(Pieces(segments).value))
    ensures var list := Segments(Pieces(segments).value);
            && (WordSized(segments) && WordAligned(segments) ==> AllRepadded(list) == list)
            && var image := Image(h, list);
            var digest := if h.appendDigest then sha256(image) else [];
            (h.appendDigest ==> |digest| == 32) ==>
            && (Parse(image + digest, sha256).Ok? <==> |list| <= MAX_LOADED)
            && (|list| <= MAX_LOADED ==>
                  var v := Parse(image + digest, sha256).value;
                  && v.segments == AllRepadded(list) && v.header == Masked(h)
                  && v.checksum as nat == ChecksumOf(v.segments) == ChecksumOf(segments)
                  && v.storedDigest == v.calcDigest == digest)
  {
    var list := Segments(Pieces(segments).value);
    ChecksumPreserved(segments);
    RepaddedChecksum(list);
    if WordSized(segments) && WordAligned(segments) {
      PiecesWordSized(segments);
      RepaddedExact(list);
    }
    hide Pieces, Image, Parse, ChecksumOf, Segments, InRange, WordSized, WordAligned, AllRepadded;
    if h.appendDigest ==> |sha256(Image(h, list))| == 32 {
      LoadsSaved(h, list, sha256);
    }
  }

  /** What a caller can see before saving: with word-aligned flash addresses, an image of at most
      sixteen segments, flash segments counted twice, can always be loaded; and up to 255 it can
      always be saved. */
  lemma LoadableBeforehand(segments: seq<Segment>)
    requires WordSized(segments) && WordAligned(segments) && Pieces(segments).Some?
    ensures var n := |segments| + |FlashPart(segments)|;
            && (n <= MAX_LOADED ==> |Segments(Pieces(segments).value)| <= MAX_LOADED)
            && (n < 0x100 ==> |Segments(Pieces(segments).value)| < 0x100)
  {
    PiecesCounted(segments);
  }

  // ---------- Incomplete files ----------

  /** Reading from a shortened file gives the same segments or fails. */
  lemma {:induction false} ReadShortened(f: seq<byte>, pos: nat, k: nat, n: nat)
    requires n <= |f| && pos <= n && ReadSegments(f, pos, k).Ok?
    ensures var end := ReadSegments(f, pos, k).value.1;
            if end <= n then ReadSegments(f[..n], pos, k) == ReadSegments(f, pos, k)
            else ReadSegments(f[..n], pos, k).Err?
  {
    if k > 0 {
      ReadShortened(f, pos, k - 1, n);
      var next := ReadSegments(f, pos, k - 1).value.1;
      OneShortened(f, next, n);
      hide ReadSegment;
    }
  }

  lemma OneShortened(f: seq<byte>, pos: nat, n: nat)
    requires n <= |f| && ReadSegment(f, pos).Ok?
    ensures var end := ReadSegment(f, pos).value.1;
            && end >= pos
            && if end <= n then ReadSegment(f[..n], pos) == ReadSegment(f, pos) else ReadSegment(f[..n], pos).Err?
  {
    hide Unpack4;
    if pos + SEG_HEADER_LEN <= n {
      assert f[..n][pos..pos + 4] == f[pos..pos + 4] && f[..n][pos + 4..pos + 8] == f[pos + 4..pos + 8];
      var size := Unpack4(f[pos + 4..pos + 8]);
      if pos + 8 + size <= n {
        assert f[..n][pos + 8..pos + 8 + size] == f[pos + 8..pos + 8 + size];
      }
    }
  }

  /** A saved file that has lost any number of bytes at its end, the digest aside, is never loaded. */
  lemma IncompleteRefused(h: Header, list: seq<Segment>, n: nat, sha256: seq<byte> -> seq<byte>)
    requires AllPackable(list) && |list| < 0x100 && n < |Image(h, list)|
    ensures Parse(Image(h, list)[..n], sha256).Err?
  {
    hide Image, Body, AllPackable, AllRepadded, Parse, ReadSegments, ChecksumAt;
    ImageRead(h, list);
    var end := START + |Body(list)|;
    ShortenedRefused(Image(h, list), AllRepadded(list), end, n, sha256);
  }

  lemma ImageRead(h: Header, list: seq<Segment>)
    requires AllPackable(list) && |list| < 0x100
    ensures var f := Image(h, list);
            && |f| >= START && f[1] as int == |list|
            && ReadSegments(f, START, |list|) == Ok((AllRepadded(list), START + |Body(list)|))
            && ChecksumAt(START + |Body(list)|) + 1 == |f|
  {
    var content := Head(h, |list|) + Body(list);
    var tail := Trailer(|content|, ChecksumByte(list)) + [];
    SavedShape(h, list, []);
    AppendNothing(Image(h, list));
    HeadRead(h, |list|, Body(list) + tail);
    TrailerRead(content, ChecksumByte(list), []);
    hide Head, Body, Trailer, ChecksumByte, ReadSegments, HeaderOf, AllPackable, AllRepadded, Image, ChecksumAt;
    assert At(Image(h, list), START, Body(list));
    ReadAll(Image(h, list), START, list);
  }

  lemma ShortenedRefused(f: seq<byte>, list: seq<Segment>, end: nat, n: nat, sha256: seq<byte> -> seq<byte>)
    requires |f| >= START && f[1] as int == |list| && n < |f|
    requires ReadSegments(f, START, |list|) == Ok((list, end)) && ChecksumAt(end) + 1 == |f|
    ensures Parse(f[..n], sha256).Err?
  {
    hide ReadSegments, HeaderOf, ChecksumAt;
    if n >= START {
      ReadShortened(f, START, |list|, n);
      assert f[..n][1] == f[1];
    }
  }
}
