/** The format of an ESP32 firmware image: what each byte of a file stands for. */
module EspFormat {
  import opened LittleEndian
  import opened EspLayout
  import opened EspContent

  /** Fields of the common header and of the extended header. */
  datatype Header = Header(flashMode: byte, sizeFreq: byte, entry: uint32, wpPin: byte,
                           clkDrv: nat, qDrv: nat, dDrv: nat, csDrv: nat, hdDrv: nat, wpDrv: nat,
                           appendDigest: bool)

  /** Drive strengths are kept in four bits each. */
  function Masked(h: Header): Header {
    h.(clkDrv := h.clkDrv % 16, qDrv := h.qDrv % 16, dDrv := h.dDrv % 16, csDrv := h.csDrv % 16,
       hdDrv := h.hdDrv % 16, wpDrv := h.wpDrv % 16)
  }

  /** The fields in the 24 bytes of the two headers; two drive strengths share a byte. */
  predicate HeaderAt(f: seq<byte>, h: Header) {
    && |f| >= 24 && f[0] == 0xE9
    && f[2] == h.flashMode && f[3] == h.sizeFreq && Word(f, 4) == h.entry
    && f[8] == h.wpPin
    && f[9] as int == 16 * h.qDrv + h.clkDrv && h.clkDrv < 16
    && f[10] as int == 16 * h.csDrv + h.dDrv && h.dDrv < 16
    && f[11] as int == 16 * h.wpDrv + h.hdDrv && h.hdDrv < 16
    && f[23] == if h.appendDigest then 1 else 0
  }

  /** A segment in the file: its address, its length, and its data. */
  predicate SegmentAt(f: seq<byte>, pos: nat, s: Segment) {
    && pos + 8 + |s.data| <= |f|
    && Word(f, pos) == s.addr && Word(f, pos + 4) == |s.data|
    && f[pos + 8..pos + 8 + |s.data|] == s.data
  }

  /** Where segment `k` of a list begins, and for k = |list| where the last one ends. */
  function Position(list: seq<Segment>, k: nat): (pos: nat)
    requires k <= |list|
    ensures pos >= 24
  {
    if k == 0 then 24 else Position(list, k - 1) + 8 + |list[k - 1].data|
  }

  function EndOf(list: seq<Segment>): nat {
    Position(list, |list|)
  }

  /** The file has these segments one after the other behind its headers. */
  predicate SegmentsAt(f: seq<byte>, list: seq<Segment>) {
    forall k :: 0 <= k < |list| ==> SegmentAt(f, Position(list, k), list[k])
  }

  /** The place of the checksum: the last byte of the block of sixteen that the segments leave open. */
  function ChecksumPlace(list: seq<Segment>): nat {
    EndOf(list) / 16 * 16 + 15
  }

  /** A whole image: reserved bytes and filling are zeros, and the checksum is 0xEF combined by
      exclusive or with all data bytes. */
  predicate IsImage(f: seq<byte>, h: Header, list: seq<Segment>) {
    && HeaderAt(f, Masked(h)) && f[1] as int == |list| && SegmentsAt(f, list)
    && |f| == ChecksumPlace(list) + 1
    && (forall i :: 12 <= i < 23 ==> f[i] == 0)
    && (forall i :: EndOf(list) <= i < |f| - 1 ==> f[i] == 0)
    && f[|f| - 1] as nat == Xor(0xEF, XorCells(AllCells(list)))
  }

  /** A common header that is accepted. */
  predicate Accepted(f: seq<byte>) {
    |f| >= 8 && f[0] == 0xE9 && f[1] <= 16
  }

  /** Both headers are. */
  predicate Opened(f: seq<byte>) {
    Accepted(f) && |f| >= 24 && f[23] <= 1
  }

  /** A file that can be loaded, and the segments it holds: bytes in between do not matter. */
  predicate CanLoad(f: seq<byte>, list: seq<Segment>) {
    Opened(f) && f[1] as int == |list| && SegmentsAt(f, list) && ChecksumPlace(list) < |f|
  }

  datatype LoadError = Truncated | BadHeader | BadDigestFlag | SegmentTruncated

  /** What makes a file fail to load. */
  ghost predicate LoadDefect(f: seq<byte>, e: LoadError) {
    match e
    case BadHeader => |f| >= 8 && !Accepted(f)
    case BadDigestFlag => Accepted(f) && |f| >= 24 && f[23] > 1
    case SegmentTruncated =>
      Opened(f) && exists list :: |list| < f[1] as int && SegmentsAt(f, list) && DataCut(f, EndOf(list))
    case Truncated =>
      || |f| < 8 || (Accepted(f) && |f| < 24)
      || (Opened(f) && exists list :: |list| <= f[1] as int && SegmentsAt(f, list) &&
                                      |f| <= if |list| < f[1] as int then EndOf(list) + 7 else ChecksumPlace(list))
  }

  /** A segment that begins here is longer than the file. */
  predicate DataCut(f: seq<byte>, pos: nat) {
    pos + 8 <= |f| && |f| < pos + 8 + Word(f, pos + 4)
  }

  // ---------- Positions ----------

  lemma {:induction false} PositionPrefix(list: seq<Segment>, more: seq<Segment>, k: nat)
    requires k <= |list| <= |more| && more[..|list|] == list
    ensures Position(more, k) == Position(list, k)
  {
    if k > 0 {
      PositionPrefix(list, more, k - 1);
    }
  }

  lemma EndSnoc(list: seq<Segment>, s: Segment)
    ensures EndOf(list + [s]) == EndOf(list) + 8 + |s.data|
    ensures Position(list + [s], |list|) == EndOf(list)
  {
    PositionPrefix(list, list + [s], |list|);
  }

  lemma SegmentsAtSnoc(f: seq<byte>, list: seq<Segment>, s: Segment)
    ensures SegmentsAt(f, list + [s]) <==> SegmentsAt(f, list) && SegmentAt(f, EndOf(list), s)
  {
    var more := list + [s];
    EndSnoc(list, s);
    forall k | 0 <= k < |list| ensures Position(more, k) == Position(list, k) && more[k] == list[k] {
      PositionPrefix(list, more, k);
    }
    hide SegmentAt, Position, EndOf;
    assert more[|list|] == s;
    if SegmentsAt(f, more) {
      assert SegmentAt(f, Position(more, |list|), more[|list|]);
      forall k | 0 <= k < |list| ensures SegmentAt(f, Position(list, k), list[k]) {
        assert SegmentAt(f, Position(more, k), more[k]);
      }
    }
    if SegmentsAt(f, list) && SegmentAt(f, EndOf(list), s) {
      forall k | 0 <= k < |more| ensures SegmentAt(f, Position(more, k), more[k]) {
        if k < |list| {
          assert SegmentAt(f, Position(list, k), list[k]);
        }
      }
    }
  }
}
