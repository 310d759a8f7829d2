/** Placing partitions in flash, and checking that they do not overlap. */
module PartitionTables {
  import opened Wrappers
  import opened Sequences
  import opened StableSort
  import opened Texts

  const FIRST_OFFSET := 0x5000 // behind the partition table
  const APP_TYPE := 0x00
  const DATA_TYPE := 0x01

  /** A partition; the offset may still be open, and a negative size stands for an end address. */
  datatype Entry = Entry(name: text, kind: int, subtype: int, offset: Option<int>, size: int, encrypted: bool)

  function Alignment(kind: int): (n: nat)
    ensures n > 0
  {
    if kind == APP_TYPE then 0x1_0000 else 4
  }

  function Start(e: Entry): int {
    if e.offset.Some? then e.offset.value else 0
  }

  function End(e: Entry): int {
    Start(e) + e.size
  }

  ghost predicate Covers(e: Entry, x: int) {
    Start(e) <= x < End(e)
  }

  // ---------- Filling in offsets and sizes ----------

  /** `x` itself when it is a multiple of the alignment, otherwise the next one. */
  function AlignUp(x: int, kind: int): int {
    var padTo := Alignment(kind);
    if x % padTo != 0 then x + (padTo - x % padTo) else x
  }

  /** Applications start at multiples of 64 KiB, everything else at multiples of four. */
  predicate AlignedFor(kind: int, x: int) {
    if kind == 0 then x % 0x1_0000 == 0 else x % 4 == 0
  }

  lemma AlignUpLeast(x: int, kind: int)
    ensures AlignedFor(kind, AlignUp(x, kind)) && AlignUp(x, kind) >= x
    ensures forall y :: y >= x && AlignedFor(kind, y) ==> AlignUp(x, kind) <= y
  {
    if kind == APP_TYPE {
      assert Alignment(kind) == 0x1_0000;
    } else {
      assert Alignment(kind) == 4;
    }
  }

  function Fixed(e: Entry, lastEnd: int): Entry {
    var offset := if e.offset.Some? then e.offset.value else AlignUp(lastEnd, e.kind);
    var size := if e.size < 0 then -e.size - offset else e.size;
    e.(offset := Some(offset), size := size)
  }

  /** The end of the entry before the one at `i`. */
  function EndBefore(r: seq<Entry>, i: nat): int
    requires i <= |r|
  {
    if i == 0 then 0x5000 else End(r[i - 1])
  }

  function FixedUp(list: seq<Entry>): (r: seq<Entry>)
    ensures |r| == |list|
  {
    if list == [] then
      []
    else
      var k := |list| - 1;
      var r := FixedUp(list[..k]);
      r + [Fixed(list[k], EndBefore(r, k))]
  }

  /** What the fix-up promises for one entry: a given offset stays, an open one becomes the least
      aligned address behind the entry before; a size stays, and an end address is met. */
  ghost predicate PlacedBehind(e: Entry, r: Entry, lastEnd: int) {
    && r.name == e.name && r.kind == e.kind && r.subtype == e.subtype && r.encrypted == e.encrypted
    && r.offset.Some?
    && (match e.offset
        case Some(given) => Start(r) == given
        case None =>
          && AlignedFor(e.kind, Start(r)) && Start(r) >= lastEnd
          && forall y :: y >= lastEnd && AlignedFor(e.kind, y) ==> Start(r) <= y)
    && (if e.size >= 0 then r.size == e.size else End(r) == -e.size)
  }

  lemma FixedExact(e: Entry, r: Entry, lastEnd: int)
    ensures PlacedBehind(e, r, lastEnd) <==> r == Fixed(e, lastEnd)
  {
    AlignUpLeast(lastEnd, e.kind);
    hide AlignUp, Alignment;
  }

  ghost predicate AllPlaced(list: seq<Entry>, r: seq<Entry>) {
    && |r| == |list|
    && forall i :: 0 <= i < |list| ==> PlacedBehind(list[i], r[i], EndBefore(r, i))
  }

  /** The fix-up is the only assignment of offsets and sizes with these properties. */
  lemma {:induction false} FixedUpExact(list: seq<Entry>, r: seq<Entry>)
    ensures AllPlaced(list, r) <==> r == FixedUp(list)
  {
    if list == [] || |r| != |list| {
    } else {
      hide PlacedBehind, Fixed, AllPlaced, EndBefore;
      var k := |list| - 1;
      FixedUpExact(list[..k], r[..k]);
      FixedExact(list[k], r[k], EndBefore(r[..k], k));
      AllPlacedSplit(list, r);
      SnocEquals(r, FixedUp(list[..k]), Fixed(list[k], EndBefore(FixedUp(list[..k]), k)));
    }
  }

  lemma AllPlacedSplit(list: seq<Entry>, r: seq<Entry>)
    requires list != [] && |r| == |list|
    ensures var k := |list| - 1;
            AllPlaced(list, r) <==>
            AllPlaced(list[..k], r[..k]) && PlacedBehind(list[k], r[k], EndBefore(r[..k], k))
  {
    var k := |list| - 1;
    hide PlacedBehind;
    assert forall i :: 0 <= i <= k ==> EndBefore(r[..k], i) == EndBefore(r, i);
    if AllPlaced(list, r) {
      forall i | 0 <= i < k ensures PlacedBehind(list[..k][i], r[..k][i], EndBefore(r[..k], i)) {
        assert PlacedBehind(list[i], r[i], EndBefore(r, i));
      }
    }
  }

  // ---------- What the check accepts ----------

  predicate Sound(e: Entry) {
    e.offset.Some? && AlignedFor(e.kind, e.offset.value)
  }

  /** The part of the condition that looks at one entry at a time. */
  predicate AllSound(list: seq<Entry>) {
    SoundBelow(list, |list|)
  }

  predicate SoundBelow(list: seq<Entry>, n: nat)
    requires n <= |list|
  {
    forall i :: 0 <= i < n ==> Sound(list[i])
  }

  predicate AllBehindTable(list: seq<Entry>) {
    forall i :: 0 <= i < |list| ==> Start(list[i]) >= 0x5000
  }

  predicate Before(a: Entry, b: Entry) {
    End(a) <= Start(b)
  }

  /** For any two entries, the one with the lower offset ends before the other starts; of two with
      the same offset, the one listed first does. */
  ghost predicate AllApart(list: seq<Entry>) {
    AllPairs(list, InOrder(Start, Before))
  }

  lemma InOrderMeans(a: Entry, b: Entry)
    ensures InOrder(Start, Before)(a, b) <==> if Start(a) <= Start(b) then Before(a, b) else Before(b, a)
  {
  }

  predicate NeighboursApart(sorted: seq<Entry>) {
    forall i :: 0 < i < |sorted| ==> Before(sorted[i - 1], sorted[i])
  }

  /** Looking at neighbours in order of offset is enough, whatever the sizes. */
  lemma NeighboursSuffice(list: seq<Entry>)
    ensures NeighboursApart(Sorted(list, Start)) <==> AllApart(list)
  {
    var sorted := Sorted(list, Start);
    SortedCorrect(list, Start);
    PairsSorted(list, Start, Before);
    if NeighboursApart(sorted) {
      forall i, j | 0 <= i < j < |sorted| ensures Before(sorted[i], sorted[j]) {
        assert Before(sorted[i], sorted[i + 1]);
        if i + 1 < j {
          assert Start(sorted[i + 1]) <= Start(sorted[j]);
        }
      }
    }
    if AllPairs(sorted, Before) {
      forall i | 0 < i < |sorted| ensures Before(sorted[i - 1], sorted[i]) {
      }
    }
  }

  ghost predicate Disjoint(a: Entry, b: Entry) {
    forall x :: !(Covers(a, x) && Covers(b, x))
  }

  ghost predicate AllDisjoint(list: seq<Entry>) {
    forall i, j :: 0 <= i < j < |list| ==> Disjoint(list[i], list[j])
  }

  lemma ApartDisjoint(a: Entry, b: Entry)
    ensures Before(a, b) || Before(b, a) ==> Disjoint(a, b)
    ensures a.size > 0 && b.size > 0 && Disjoint(a, b) ==> InOrder(Start, Before)(a, b)
  {
    if a.size > 0 && b.size > 0 && Disjoint(a, b) {
      assert !(Covers(a, Start(a)) && Covers(b, Start(a)));
      assert !(Covers(a, Start(b)) && Covers(b, Start(b)));
    }
  }

  /** No byte belongs to two partitions of an accepted table; and when all sizes are positive, a
      table without shared bytes is not turned down for overlapping. */
  lemma ApartExact(list: seq<Entry>)
    ensures AllApart(list) ==> AllDisjoint(list)
    ensures (forall i :: 0 <= i < |list| ==> list[i].size > 0) ==> (AllApart(list) <==> AllDisjoint(list))
  {
    forall i, j | 0 <= i < j < |list|
      ensures InOrder(Start, Before)(list[i], list[j]) ==> Disjoint(list[i], list[j])
      ensures list[i].size > 0 && list[j].size > 0 && Disjoint(list[i], list[j]) ==>
              InOrder(Start, Before)(list[i], list[j])
    {
      ApartDisjoint(list[i], list[j]);
    }
    hide Disjoint;
  }

  /** What `verify` accepts. */
  ghost predicate Accepts(list: seq<Entry>) {
    AllSound(list) && AllBehindTable(list) && AllApart(list)
  }

  // ---------- The table ----------

  datatype Verdict = Accepted | OffsetNotSet | Misaligned | BelowFirst | Overlap

  /** What the fix-up does to one entry. */
  method FixEntry(given: Entry, lastEnd: int) returns (e: Entry)
    ensures PlacedBehind(given, e, lastEnd)
  {
    e := given;
    AlignUpLeast(lastEnd, e.kind);
    if e.offset.None? {
      var start, padTo := lastEnd, Alignment(e.kind);
      if start % padTo != 0 {
        start := start + (padTo - start % padTo);
      }
      assert start == AlignUp(lastEnd, e.kind);
      e := e.(offset := Some(start));
    }
    hide Alignment, AlignUp;
    if e.size < 0 {
      e := e.(size := -e.size - e.offset.value);
    }
  }

  class PartitionTable {
    var entries: seq<Entry>

    constructor (list: seq<Entry>)
      ensures entries == list
    {
      entries := list;
    }

    /** The end of `from_csv`: open offsets and negative sizes are filled in. */
    method FixUp()
      modifies this
      ensures entries == FixedUp(old(entries))
    {
      ghost var list := entries;
      var lastEnd := FIRST_OFFSET;
      for i := 0 to |entries|
        invariant |entries| == |list|
        invariant forall j :: 0 <= j < i ==> PlacedBehind(list[j], entries[j], EndBefore(entries, j))
        invariant forall j :: i <= j < |list| ==> entries[j] == list[j]
        invariant lastEnd == EndBefore(entries, i)
      {
        hide PlacedBehind;
        var e := FixEntry(entries[i], lastEnd);
        ghost var before := entries;
        entries := entries[i := e];
        assert forall j :: 0 <= j <= i ==> EndBefore(entries, j) == EndBefore(before, j);
        lastEnd := End(e);
      }
      FixedUpExact(list, entries);
    }

    /** `verify`: what is wrong with the table, if anything. */
    method Verify() returns (v: Verdict)
      ensures v.Accepted? <==> Accepts(entries)
      ensures v.OffsetNotSet? ==>
                exists i :: 0 <= i < |entries| && SoundBelow(entries, i) && entries[i].offset.None?
      ensures v.Misaligned? ==>
                exists i :: 0 <= i < |entries| && SoundBelow(entries, i) &&
                            !Sound(entries[i]) && entries[i].offset.Some?
      ensures v.BelowFirst? ==> AllSound(entries) && !AllBehindTable(entries)
      ensures v.Overlap? ==> AllSound(entries) && AllBehindTable(entries) && !AllApart(entries)
    {
      for i := 0 to |entries|
        invariant SoundBelow(entries, i)
      {
        if entries[i].offset.None? {
          return OffsetNotSet;
        }
        if entries[i].offset.value % Alignment(entries[i].kind) != 0 {
          return Misaligned;
        }
      }
      v := CheckOverlap(entries);
    }
  }

  /** The second half of `verify`: in order of offset, each partition against the one before. */
  method CheckOverlap(list: seq<Entry>) returns (v: Verdict)
    ensures v == if !AllBehindTable(list) then BelowFirst else if !AllApart(list) then Overlap else Accepted
  {
    var sorted := Sorted(list, Start);
    SortedCorrect(list, Start);
    NeighboursSuffice(list);
    SameMembers(list, sorted);
    hide Sorted, AllApart, AllBehindTable;
    var last: Option<Entry> := None;
    for i := 0 to |sorted|
      invariant last == if i == 0 then None else Some(sorted[i - 1])
      invariant forall j :: 0 < j < i ==> Before(sorted[j - 1], sorted[j])
      invariant forall j :: 0 <= j < i ==> Start(sorted[j]) >= FIRST_OFFSET
    {
      var p := sorted[i];
      if Start(p) < FIRST_OFFSET {
        return BelowFirst;
      }
      if last.Some? && Start(p) < End(last.value) {
        assert !Before(sorted[i - 1], sorted[i]);
        assert forall j :: i < j < |sorted| ==> Start(sorted[i]) <= Start(sorted[j]);
        return Overlap;
      }
      last := Some(p);
    }
    return Accepted;
  }

  lemma SameMembers(list: seq<Entry>, sorted: seq<Entry>)
    requires forall e :: e in sorted <==> e in list
    ensures AllBehindTable(list) <==> forall i :: 0 <= i < |sorted| ==> Start(sorted[i]) >= FIRST_OFFSET
  {
    forall i | 0 <= i < |sorted| ensures AllBehindTable(list) ==> Start(sorted[i]) >= FIRST_OFFSET {
      assert sorted[i] in list;
    }
    forall i | 0 <= i < |list| ensures list[i] in sorted {
    }
  }

  // ---------- When the order of the lines matters ----------

  /** The two are apart in one order of their lines at least. */
  predicate ApartSomehow(a: Entry, b: Entry) {
    InOrder(Start, Before)(a, b) || InOrder(Start, Before)(b, a)
  }

  /** Both start at the same offset, and one of them has no bytes while the other does. */
  predicate MixedStart(a: Entry, b: Entry) {
    Start(a) == Start(b) && (a.size <= 0) != (b.size <= 0)
  }

  /** Swapping two lines changes the answer exactly for such a pair. */
  lemma SwapExact(a: Entry, b: Entry)
    ensures InOrder(Start, Before)(a, b) != InOrder(Start, Before)(b, a) <==> MixedStart(a, b)
  {
    InOrderMeans(a, b);
    InOrderMeans(b, a);
  }

  function EmptyFirst(e: Entry): int {
    if e.size <= 0 then 0 else 1
  }

  function EmptyLast(e: Entry): int {
    if e.size <= 0 then 1 else 0
  }

  /** With the empty partitions listed first the answer is the most lenient one. */
  lemma LenientOrder(list: seq<Entry>)
    ensures AllApart(Sorted(list, EmptyFirst)) <==> AllPairs(list, ApartSomehow)
  {
    var strict := InOrder(Start, Before);
    var rel := InOrder(EmptyFirst, strict);
    PairsSorted(list, EmptyFirst, strict);
    forall i, j | 0 <= i < j < |list|
      ensures rel(list[i], list[j]) == ApartSomehow(list[i], list[j])
    {
      SwapExact(list[i], list[j]);
      InOrderMeans(list[i], list[j]);
      InOrderMeans(list[j], list[i]);
    }
  }

  /** With the empty partitions listed last a mixed pair is turned down. */
  lemma StrictOrder(list: seq<Entry>, i: nat, j: nat)
    requires i < j < |list| && MixedStart(list[i], list[j])
    ensures !AllApart(Sorted(list, EmptyLast))
  {
    var strict := InOrder(Start, Before);
    var rel := InOrder(EmptyLast, strict);
    PairsSorted(list, EmptyLast, strict);
    InOrderMeans(list[i], list[j]);
    InOrderMeans(list[j], list[i]);
    assert !rel(list[i], list[j]);
  }

  /** Without mixed pairs the answer is the same in any order. */
  lemma NoMixedPairs(list: seq<Entry>)
    requires forall i, j :: 0 <= i < j < |list| ==> !MixedStart(list[i], list[j])
    ensures AllApart(list) <==> AllPairs(list, ApartSomehow)
  {
    var strict := InOrder(Start, Before);
    forall i, j | 0 <= i < j < |list|
      ensures strict(list[i], list[j]) == ApartSomehow(list[i], list[j])
    {
      SwapExact(list[i], list[j]);
    }
  }

  ghost predicate OrderMatters(list: seq<Entry>) {
    exists r :: multiset(r) == multiset(list) && Accepts(r) != Accepts(list)
  }

  ghost predicate HasMixedPair(list: seq<Entry>) {
    exists i, j :: 0 <= i < j < |list| && MixedStart(list[i], list[j])
  }

  lemma RearrangedParts(list: seq<Entry>, r: seq<Entry>)
    requires multiset(r) == multiset(list)
    ensures AllSound(r) <==> AllSound(list)
    ensures AllBehindTable(r) <==> AllBehindTable(list)
    ensures AllPairs(r, ApartSomehow) <==> AllPairs(list, ApartSomehow)
    ensures HasMixedPair(r) <==> HasMixedPair(list)
  {
    forall e ensures e in r <==> e in list {
      assert e in r <==> e in multiset(r);
      assert e in list <==> e in multiset(list);
    }
    SoundMembers(list);
    SoundMembers(r);
    SameMembers(list, r);
    PairsRearranged(list, r, ApartSomehow);
    var notMixed := (a, b) => !MixedStart(a, b);
    PairsRearranged(list, r, notMixed);
    NotMixedPairs(list);
    NotMixedPairs(r);
  }

  lemma SoundMembers(list: seq<Entry>)
    ensures AllSound(list) <==> forall e :: e in list ==> Sound(e)
  {
  }

  lemma NotMixedPairs(list: seq<Entry>)
    ensures AllPairs(list, (a, b) => !MixedStart(a, b)) <==> !HasMixedPair(list)
  {
    var notMixed := (a, b) => !MixedStart(a, b);
    if HasMixedPair(list) {
      var i, j :| 0 <= i < j < |list| && MixedStart(list[i], list[j]);
      assert !notMixed(list[i], list[j]);
    }
  }

  /** Rearranging the lines changes the verdict exactly when the table is in order otherwise, all
      partitions can be apart, and some empty partition starts where one with bytes does. */
  lemma OrderExact(list: seq<Entry>)
    ensures OrderMatters(list) <==>
            AllSound(list) && AllBehindTable(list) && AllPairs(list, ApartSomehow) && HasMixedPair(list)
  {
    hide AllSound, AllBehindTable, AllPairs, HasMixedPair, AllApart, MixedStart;
    if r :| multiset(r) == multiset(list) && Accepts(r) != Accepts(list) {
      RearrangedParts(list, r);
      ApartParts(list);
      ApartParts(r);
    }
    if AllSound(list) && AllBehindTable(list) && AllPairs(list, ApartSomehow) && HasMixedPair(list) {
      var lenient, strict := Sorted(list, EmptyFirst), Sorted(list, EmptyLast);
      SortedCorrect(list, EmptyFirst);
      SortedCorrect(list, EmptyLast);
      RearrangedParts(list, lenient);
      RearrangedParts(list, strict);
      LenientOrder(list);
      StrictMixed(list);
      assert Accepts(lenient) && !Accepts(strict);
    }
  }

  lemma StrictMixed(list: seq<Entry>)
    requires HasMixedPair(list)
    ensures !AllApart(Sorted(list, EmptyLast))
  {
    var i, j :| 0 <= i < j < |list| && MixedStart(list[i], list[j]);
    StrictOrder(list, i, j);
  }

  lemma ApartParts(list: seq<Entry>)
    ensures AllApart(list) ==> AllPairs(list, ApartSomehow)
    ensures !HasMixedPair(list) ==> (AllApart(list) <==> AllPairs(list, ApartSomehow))
  {
    if !HasMixedPair(list) {
      forall i, j | 0 <= i < j < |list| ensures !MixedStart(list[i], list[j]) {
      }
      NoMixedPairs(list);
    }
  }

  // ---------- Tables that are always accepted ----------

  /** Given offsets are aligned and behind what comes before; sizes come out non-negative. */
  predicate Appends(list: seq<Entry>) {
    forall i :: 0 <= i < |list| ==>
      && (list[i].offset.Some? ==>
            AlignedFor(list[i].kind, list[i].offset.value) &&
            list[i].offset.value >= EndBefore(FixedUp(list), i))
      && FixedUp(list)[i].size >= 0
  }

  /** A table written in order, with any mixture of open and given offsets, is always accepted. */
  lemma AppendsAccepted(list: seq<Entry>)
    requires Appends(list)
    ensures var r := FixedUp(list);
            Accepts(r)
  {
    var r := FixedUp(list);
    hide FixedUp, AllSound, AllBehindTable, AllApart;
    AppendsPlaced(list, r);
    StackedAccepted(r);
  }

  lemma AppendsPlaced(list: seq<Entry>, r: seq<Entry>)
    requires Appends(list) && r == FixedUp(list)
    ensures Stacked(r)
  {
    FixedUpExact(list, r);
    hide FixedUp, EndBefore, AlignedFor;
    forall i | 0 <= i < |r|
      ensures Sound(r[i]) && Start(r[i]) >= EndBefore(r, i) && r[i].size >= 0
    {
      assert PlacedBehind(list[i], r[i], EndBefore(r, i));
    }
  }

  /** Every entry is aligned and starts behind the one before it. */
  predicate Stacked(r: seq<Entry>) {
    forall i :: 0 <= i < |r| ==> Sound(r[i]) && Start(r[i]) >= EndBefore(r, i) && r[i].size >= 0
  }

  lemma StackedAccepted(r: seq<Entry>)
    requires Stacked(r)
    ensures Accepts(r)
  {
    StackedBehindTable(r);
    forall i, j | 0 <= i < j < |r|
      ensures InOrder(Start, Before)(r[i], r[j])
    {
      StackedApart(r, i, j);
    }
  }

  lemma StackedBehindTable(r: seq<Entry>)
    requires Stacked(r)
    ensures AllSound(r) && AllBehindTable(r)
  {
    hide Sound;
    forall j | 0 <= j < |r|
      ensures Sound(r[j]) && Start(r[j]) >= FIRST_OFFSET
    {
      Increasing(r, 0, j);
      assert Sound(r[j]);
    }
  }

  lemma StackedApart(r: seq<Entry>, i: nat, j: nat)
    requires Stacked(r) && i < j < |r|
    ensures InOrder(Start, Before)(r[i], r[j])
  {
    hide Sound;
    Increasing(r, i + 1, j);
    assert Sound(r[i]);
    InOrderMeans(r[i], r[j]);
  }

  /** Each entry starts behind the ends of all before it. */
  lemma {:induction false} Increasing(r: seq<Entry>, i: nat, j: nat)
    requires i <= j < |r| && Stacked(r)
    ensures Start(r[j]) >= EndBefore(r, i)
  {
    hide Sound;
    assert Sound(r[j]);
    if i < j {
      Increasing(r, i, j - 1);
      assert Sound(r[j - 1]);
    }
  }

  /** In particular when all offsets are open and no size is negative. */
  lemma OpenOffsetsAccepted(list: seq<Entry>)
    requires forall i :: 0 <= i < |list| ==> list[i].offset.None? && list[i].size >= 0
    ensures var r := FixedUp(list);
            Accepts(r)
  {
    var r := FixedUp(list);
    FixedUpExact(list, r);
    hide FixedUp;
    forall i | 0 <= i < |r| ensures r[i].size >= 0 {
      assert PlacedBehind(list[i], r[i], EndBefore(r, i));
    }
    AppendsAccepted(list);
  }

  // ---------- Negative sizes ----------

  /** The fix-up leaves a size negative exactly when it stands for an end address below the start. */
  lemma NegativeExact(e: Entry, lastEnd: int)
    ensures var r := Fixed(e, lastEnd);
            && r.size < 0 <==> e.size < 0 && -e.size < Start(r)
  {
    hide AlignUp;
  }

  /** The same for whole tables: where an entry will start can be seen before the fix-up, and the
      sizes come out non-negative exactly when no end address is below it. */
  lemma SizesExact(list: seq<Entry>)
    ensures var r := FixedUp(list);
            && (forall i :: 0 <= i < |list| ==>
                  Start(r[i]) == if list[i].offset.Some? then Start(list[i])
                                 else AlignUp(EndBefore(r, i), list[i].kind))
            && ((forall i :: 0 <= i < |list| ==> r[i].size >= 0) <==>
                  forall i :: 0 <= i < |list| ==> list[i].size >= 0 || -list[i].size >= Start(r[i]))
  {
    var r := FixedUp(list);
    FixedUpExact(list, r);
    hide FixedUp, AlignUp, PlacedBehind;
    forall i | 0 <= i < |list|
      ensures Start(r[i]) == if list[i].offset.Some? then Start(list[i])
                             else AlignUp(EndBefore(r, i), list[i].kind)
      ensures r[i].size >= 0 <==> list[i].size >= 0 || -list[i].size >= Start(r[i])
    {
      assert PlacedBehind(list[i], r[i], EndBefore(r, i));
      FixedExact(list[i], r[i], EndBefore(r, i));
      NegativeExact(list[i], EndBefore(r, i));
    }
  }

  /** The check does not look at the sign of a size: a table of one entry whose offset is open is
      accepted whatever its size. */
  lemma NegativeSizeAccepted(e: Entry)
    requires e.offset.None?
    ensures Accepts(FixedUp([e]))
    ensures FixedUp([e])[0].size < 0 <==> e.size < 0 && -e.size < Start(FixedUp([e])[0])
  {
    var r := FixedUp([e]);
    FixedUpExact([e], r);
    assert [e][0] == e && PlacedBehind(e, r[0], EndBefore(r, 0));
    hide FixedUp, Alignment;
  }
}
