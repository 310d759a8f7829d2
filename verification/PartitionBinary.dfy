/** The binary form of a partition table. */
module PartitionBinary {
  import opened LittleEndian
  import opened Wrappers
  import opened Texts
  import opened PartitionTables

  const MAX_PARTITION_LENGTH := 0xC00
  const ENTRY_LENGTH := 32
  const NAME_LENGTH := 16

  datatype BinaryError =
    | Unpackable       // a field does not fit its place
    | TooLong
    | BadLength        // not a multiple of 32 bytes
    | NoEndMarker
    | BadMagic
    | UndecodableName

  // ---------- One entry ----------

  /** The name in sixteen bytes: longer ones are cut off, shorter ones filled up with zeros. */
  function NameBytes(name: text): (b: seq<byte>)
    ensures |b| == NAME_LENGTH
  {
    seq(NAME_LENGTH, i requires 0 <= i < NAME_LENGTH => if i < |name| then name[i] as int else 0)
  }

  predicate Encodable(e: Entry) {
    && 0 <= e.kind < 0x100 && 0 <= e.subtype < 0x100
    && e.offset.Some? && 0 <= e.offset.value < 0x1_0000_0000
    && 0 <= e.size < 0x1_0000_0000
  }

  function EntryBytes(e: Entry): (b: seq<byte>)
    requires Encodable(e)
    ensures |b| == ENTRY_LENGTH && b[0] == 0xAA
  {
    [0xAA, 0x50, e.kind, e.subtype] + Pack4(e.offset.value) + Pack4(e.size) + NameBytes(e.name) +
    Pack4(if e.encrypted then 1 else 0)
  }

  /** The bytes in front of the first zero, as characters. */
  function ReadName(b: seq<byte>): Option<text> {
    if b == [] || b[0] == 0 then Some([])
    else if b[0] >= 128 then None
    else match ReadName(b[1..])
      case None => None
      case Some(rest) => Some([b[0] as char] + rest)
  }

  function ParseEntry(b: seq<byte>): Result<Entry, BinaryError>
    requires |b| == ENTRY_LENGTH
  {
    match ReadName(b[12..28])
    case None => Err(UndecodableName)
    case Some(name) =>
      if b[..2] != [0xAA, 0x50] then Err(BadMagic) else
      Ok(Entry(name, b[2], b[3], Some(Unpack4(b[4..8])), Unpack4(b[8..12]), Unpack4(b[28..32]) % 2 == 1))
  }

  /** What is left of a name in its place: at most sixteen characters, up to the first zero. */
  function Clip(name: text, room: nat): text {
    if room == 0 || name == [] || name[0] == 0 as char then []
    else [name[0]] + Clip(name[1..], room - 1)
  }

  predicate NameFits(name: text) {
    |name| <= NAME_LENGTH && 0 as char !in name
  }

  lemma {:induction false} ClipExact(name: text, room: nat)
    ensures Clip(name, room) == name <==> |name| <= room && 0 as char !in name
  {
    if room > 0 && name != [] && name[0] != 0 as char {
      ClipExact(name[1..], room - 1);
      assert name == [name[0]] + name[1..];
      if Clip(name, room) == name {
        assert Clip(name, room)[1..] == name[1..];
      }
    }
  }

  lemma {:induction false} NameRound(name: text, b: seq<byte>)
    requires forall i :: 0 <= i < |b| ==> b[i] == if i < |name| then name[i] as int else 0
    ensures ReadName(b) == Some(Clip(name, |b|))
  {
    if b != [] && b[0] != 0 {
      NameRound(name[1..], b[1..]);
    }
  }

  /** Reading an entry back loses only what the name field cannot hold. */
  lemma EntryRound(e: Entry)
    requires Encodable(e)
    ensures ParseEntry(EntryBytes(e)) == Ok(e.(name := Clip(e.name, NAME_LENGTH)))
  {
    var b := EntryBytes(e);
    EntrySlices(e);
    NameRound(e.name, NameBytes(e.name));
    Round4(e.offset.value);
    Round4(e.size);
    Round4(if e.encrypted then 1 else 0);
    hide EntryBytes, Pack4, Unpack4, NameBytes, ReadName, Clip;
  }

  lemma EntrySlices(e: Entry)
    requires Encodable(e)
    ensures var b := EntryBytes(e);
            && b[..2] == [0xAA, 0x50] && b[2] == e.kind && b[3] == e.subtype
            && b[4..8] == Pack4(e.offset.value) && b[8..12] == Pack4(e.size)
            && b[12..28] == NameBytes(e.name) && b[28..32] == Pack4(if e.encrypted then 1 else 0)
  {
    hide Pack4, NameBytes;
  }

  // ---------- The table ----------

  function Fill(n: nat): (b: seq<byte>)
    ensures |b| == n && forall i :: 0 <= i < n ==> b[i] == 0xFF
  {
    seq(n, i => 0xFF)
  }

  predicate AllEncodable(list: seq<Entry>) {
    forall i :: 0 <= i < |list| ==> Encodable(list[i])
  }

  function Joined(list: seq<Entry>): (b: seq<byte>)
    requires AllEncodable(list)
    ensures |b| == ENTRY_LENGTH * |list|
  {
    if list == [] then [] else EntryBytes(list[0]) + Joined(list[1..])
  }

  function ToBinary(list: seq<Entry>): Result<seq<byte>, BinaryError> {
    if !AllEncodable(list) then Err(Unpackable)
    else if |Joined(list)| >= MAX_PARTITION_LENGTH then Err(TooLong)
    else Ok(Joined(list) + Fill(MAX_PARTITION_LENGTH - |Joined(list)|))
  }

  function FromBinary(b: seq<byte>): Result<seq<Entry>, BinaryError> {
    if b == [] then Err(NoEndMarker)
    else if |b| < ENTRY_LENGTH then Err(BadLength)
    else if b[..ENTRY_LENGTH] == Fill(ENTRY_LENGTH) then Ok([])
    else match ParseEntry(b[..ENTRY_LENGTH])
      case Err(e) => Err(e)
      case Ok(entry) => Behind([entry], FromBinary(b[ENTRY_LENGTH..]))
  }

  /** The loop of the table's `from_binary`. */
  method ReadTable(b: seq<byte>) returns (r: Result<seq<Entry>, BinaryError>)
    ensures r == FromBinary(b)
  {
    var result: seq<Entry> := [];
    var o := 0;
    assert b[0..] == b;
    BehindNothing(FromBinary(b));
    while o < |b|
      invariant 0 <= o <= |b|
      invariant FromBinary(b) == Behind(result, FromBinary(b[o..]))
    {
      var data := b[o..if o + ENTRY_LENGTH <= |b| then o + ENTRY_LENGTH else |b|];
      if |data| != ENTRY_LENGTH {
        assert data == b[o..];
        return Err(BadLength);
      }
      assert data == b[o..][..ENTRY_LENGTH] && b[o..][ENTRY_LENGTH..] == b[o + ENTRY_LENGTH..];
      if data == Fill(ENTRY_LENGTH) {
        assert result + [] == result;
        return Ok(result);
      }
      var entry := ParseEntry(data);
      hide ParseEntry;
      if entry.Err? {
        return Err(entry.error);
      }
      BehindTwice(result, [entry.value], FromBinary(b[o + ENTRY_LENGTH..]));
      result := result + [entry.value];
      o := o + ENTRY_LENGTH;
    }
    return Err(NoEndMarker);
  }

  /** Writing fails exactly for a field out of range or for more than 95 entries. */
  lemma ToBinaryExact(list: seq<Entry>)
    ensures ToBinary(list).Ok? <==> AllEncodable(list) && |list| <= 95
    ensures ToBinary(list).Ok? ==> |ToBinary(list).value| == MAX_PARTITION_LENGTH
  {
    hide Joined;
  }

  function Clipped(list: seq<Entry>): (r: seq<Entry>)
    ensures |r| == |list|
  {
    if list == [] then [] else [list[0].(name := Clip(list[0].name, NAME_LENGTH))] + Clipped(list[1..])
  }

  lemma {:induction false} ClippedExact(list: seq<Entry>)
    ensures Clipped(list) == list <==> forall i :: 0 <= i < |list| ==> NameFits(list[i].name)
  {
    if list != [] {
      ClippedExact(list[1..]);
      ClipExact(list[0].name, NAME_LENGTH);
      hide Clip, NameFits;
      assert list == [list[0]] + list[1..];
      if Clipped(list) == list {
        assert Clipped(list)[1..] == list[1..];
        assert Clipped(list)[0] == list[0];
      }
      if forall i :: 0 <= i < |list| ==> NameFits(list[i].name) {
        assert forall i :: 0 <= i < |list[1..]| ==> NameFits(list[1..][i].name);
      }
    }
  }

  lemma {:induction false} JoinedRound(list: seq<Entry>, n: nat)
    requires AllEncodable(list) && n >= ENTRY_LENGTH
    ensures FromBinary(Joined(list) + Fill(n)) == Ok(Clipped(list))
  {
    var b := Joined(list) + Fill(n);
    if list == [] {
      assert b[..ENTRY_LENGTH] == Fill(ENTRY_LENGTH);
    } else {
      EntryRound(list[0]);
      hide ParseEntry, EntryBytes, Clip, Encodable;
      JoinedRound(list[1..], n);
      var first, rest := EntryBytes(list[0]), Joined(list[1..]) + Fill(n);
      assert b == first + rest;
      hide Joined, Fill;
      assert b[..ENTRY_LENGTH] == first && b[ENTRY_LENGTH..] == rest;
      assert first[0] != Fill(ENTRY_LENGTH)[0];
    }
  }

  /** A table that can be written is read back with the same entries in the same order, exact but for
      names longer than sixteen characters or with a zero in them. */
  lemma TableRound(list: seq<Entry>)
    requires ToBinary(list).Ok?
    ensures FromBinary(ToBinary(list).value) == Ok(Clipped(list))
    ensures FromBinary(ToBinary(list).value) == Ok(list) <==> forall i :: 0 <= i < |list| ==> NameFits(list[i].name)
  {
    hide FromBinary, Joined, Fill, AllEncodable, Clipped, NameFits;
    MaxLength(|list|);
    JoinedRound(list, MAX_PARTITION_LENGTH - |Joined(list)|);
    ClippedExact(list);
  }

  lemma MaxLength(n: nat)
    ensures ENTRY_LENGTH * n < MAX_PARTITION_LENGTH ==> MAX_PARTITION_LENGTH - ENTRY_LENGTH * n >= ENTRY_LENGTH
  {
  }

  /** A written table cut off before the end of its end marker is refused, and the error tells
      whether it was cut between entries. */
  lemma IncompleteRefused(list: seq<Entry>, n: nat)
    requires ToBinary(list).Ok? && InsideTable(n, |list|)
    ensures n <= |ToBinary(list).value| && FromBinary(ToBinary(list).value[..n]) == Err(CutError(n))
  {
    ToBinaryExact(list);
    hide Joined, FromBinary, Fill;
    CutRefused(list, ToBinary(list).value, n);
  }

  predicate InsideTable(n: nat, entries: nat) {
    n < ENTRY_LENGTH * (entries + 1)
  }

  function CutError(n: nat): BinaryError {
    if n % ENTRY_LENGTH == 0 then NoEndMarker else BadLength
  }

  lemma NextInside(n: nat, entries: nat)
    requires ENTRY_LENGTH <= n && InsideTable(n, entries)
    ensures entries > 0 && InsideTable(n - ENTRY_LENGTH, entries - 1) && CutError(n - ENTRY_LENGTH) == CutError(n)
  {
  }

  lemma {:induction false} CutRefused(list: seq<Entry>, b: seq<byte>, n: nat)
    requires AllEncodable(list) && Joined(list) <= b && n <= |b| && InsideTable(n, |list|)
    ensures FromBinary(b[..n]) == Err(CutError(n))
    decreases |list|
  {
    if n < ENTRY_LENGTH {
      ShorterThanEntry(b[..n]);
    } else {
      NextInside(n, |list|);
      hide InsideTable, CutError;
      FirstJoined(list, b);
      assert AllEncodable(list[1..]) && Encodable(list[0]);
      hide Joined, EntryBytes, FromBinary, Encodable, AllEncodable;
      CutRefused(list[1..], b[ENTRY_LENGTH..], n - ENTRY_LENGTH);
      FirstEntry(list[0], b, n);
    }
  }

  lemma ShorterThanEntry(b: seq<byte>)
    requires |b| < ENTRY_LENGTH
    ensures FromBinary(b) == Err(CutError(|b|))
  {
  }

  lemma FirstJoined(list: seq<Entry>, b: seq<byte>)
    requires AllEncodable(list) && list != [] && Joined(list) <= b
    ensures |b| >= ENTRY_LENGTH && b[..ENTRY_LENGTH] == EntryBytes(list[0])
    ensures Joined(list[1..]) <= b[ENTRY_LENGTH..]
  {
    hide EntryBytes, Encodable;
    assert Joined(list) == EntryBytes(list[0]) + Joined(list[1..]);
    hide Joined;
    PrefixParts(EntryBytes(list[0]), Joined(list[1..]), b);
  }

  lemma PrefixParts(first: seq<byte>, rest: seq<byte>, b: seq<byte>)
    requires first + rest <= b
    ensures b[..|first|] == first && rest <= b[|first|..]
  {
    assert b == first + rest + b[|first + rest|..];
  }

  lemma FirstEntry(e: Entry, b: seq<byte>, n: nat)
    requires Encodable(e) && ENTRY_LENGTH <= n <= |b| && b[..ENTRY_LENGTH] == EntryBytes(e)
    requires FromBinary(b[ENTRY_LENGTH..][..n - ENTRY_LENGTH]).Err?
    ensures FromBinary(b[..n]) == FromBinary(b[ENTRY_LENGTH..][..n - ENTRY_LENGTH])
  {
    EntryRound(e);
    hide EntryBytes, ParseEntry, Clip, Encodable;
    assert b[..n][..ENTRY_LENGTH] == EntryBytes(e) && b[..n][ENTRY_LENGTH..] == b[ENTRY_LENGTH..][..n - ENTRY_LENGTH];
    assert EntryBytes(e)[0] != Fill(ENTRY_LENGTH)[0];
  }

  // ---------- From binary and back ----------

  lemma {:induction false} ReadNameFits(b: seq<byte>)
    ensures ReadName(b).Some? ==> |ReadName(b).value| <= |b| && 0 as char !in ReadName(b).value
  {
    if b != [] && b[0] != 0 {
      ReadNameFits(b[1..]);
    }
  }

  lemma ParsedFits(b: seq<byte>)
    requires |b| == ENTRY_LENGTH && ParseEntry(b).Ok?
    ensures Encodable(ParseEntry(b).value) && NameFits(ParseEntry(b).value.name)
  {
    ReadNameFits(b[12..28]);
    hide ReadName, Unpack4;
  }

  lemma {:induction false} AllParsedFit(b: seq<byte>)
    requires FromBinary(b).Ok?
    ensures var list := FromBinary(b).value;
            AllEncodable(list) && forall i :: 0 <= i < |list| ==> NameFits(list[i].name)
  {
    if b[..ENTRY_LENGTH] != Fill(ENTRY_LENGTH) {
      ParsedFits(b[..ENTRY_LENGTH]);
      AllParsedFit(b[ENTRY_LENGTH..]);
      hide ParseEntry, Encodable, NameFits;
    }
  }

  /** Any table that was read can be written again if it has at most 95 entries, and then reading
      it once more gives the same entries. */
  lemma ReadWriteRead(b: seq<byte>)
    requires FromBinary(b).Ok?
    ensures var list := FromBinary(b).value;
            if |list| > 95 then ToBinary(list) == Err(TooLong)
            else ToBinary(list).Ok? && FromBinary(ToBinary(list).value) == Ok(list)
  {
    var list := FromBinary(b).value;
    AllParsedFit(b);
    ToBinaryExact(list);
    if |list| <= 95 {
      TableRound(list);
    }
  }

  // ---------- What the bytes mean ----------

  /** A name in its sixteen bytes: it ends at the first zero. */
  predicate NameIs(b: seq<byte>, name: text) {
    && |name| <= |b|
    && (forall j :: 0 <= j < |name| ==> b[j] == name[j] as int && b[j] != 0)
    && (|name| < |b| ==> b[|name|] == 0)
  }

  /** A byte above 127 in front of the first zero. */
  predicate NameBroken(b: seq<byte>) {
    exists j :: 0 <= j < |b| && b[j] >= 128 && forall m :: 0 <= m < j ==> b[m] != 0
  }

  /** The 32 bytes of an entry. */
  predicate Holds(s: seq<byte>, e: Entry)
    requires |s| == 32
  {
    && s[0] == 0xAA && s[1] == 0x50 && s[2] == e.kind && s[3] == e.subtype
    && e.offset == Some(Word(s, 4)) && e.size == Word(s, 8) && NameIs(s[12..28], e.name)
    && e.encrypted == (s[28] % 2 == 1)
  }

  predicate EndMarker(s: seq<byte>)
    requires |s| == 32
  {
    forall j :: 0 <= j < 32 ==> s[j] == 0xFF
  }

  /** Slot `i` of a table is there in full. */
  predicate SlotIn(b: seq<byte>, i: nat) {
    32 * i + 32 <= |b|
  }

  function Slot(b: seq<byte>, i: nat): (s: seq<byte>)
    requires SlotIn(b, i)
    ensures |s| == 32
  {
    b[32 * i..32 * i + 32]
  }

  /** A table begins with these entries. */
  predicate Begins(b: seq<byte>, list: seq<Entry>) {
    forall i :: 0 <= i < |list| ==> SlotIn(b, i) && Holds(Slot(b, i), list[i])
  }

  /** What is wrong with slot `i`. */
  predicate Defect(b: seq<byte>, i: nat, e: BinaryError) {
    match e
    case NoEndMarker => |b| == 32 * i
    case BadLength => 32 * i < |b| < 32 * i + 32
    case UndecodableName => SlotIn(b, i) && !EndMarker(Slot(b, i)) && NameBroken(Slot(b, i)[12..28])
    case BadMagic =>
      && SlotIn(b, i) && !EndMarker(Slot(b, i)) && !NameBroken(Slot(b, i)[12..28])
      && (Slot(b, i)[0] != 0xAA || Slot(b, i)[1] != 0x50)
    case _ => false
  }

  lemma {:induction false} ReadNameExact(b: seq<byte>, name: text)
    ensures ReadName(b) == Some(name) <==> NameIs(b, name)
    ensures ReadName(b) == None <==> NameBroken(b)
  {
    if b != [] && 0 < b[0] < 128 {
      ReadNameExact(b[1..], if name == [] then [] else name[1..]);
      NameCons(b, name);
      BrokenCons(b);
    }
  }

  lemma NameCons(b: seq<byte>, name: text)
    requires b != [] && 0 < b[0] < 128
    ensures ReadName(b) == Some(name) <==>
            name != [] && name[0] as int == b[0] && ReadName(b[1..]) == Some(name[1..])
    ensures NameIs(b, name) <==> name != [] && name[0] as int == b[0] && NameIs(b[1..], name[1..])
  {
    if name != [] {
      assert name == [name[0]] + name[1..];
      if name[0] as int == b[0] && NameIs(b[1..], name[1..]) {
        forall j | 0 <= j < |name| ensures b[j] == name[j] as int && b[j] != 0 {
          if j > 0 {
            assert b[1..][j - 1] == name[1..][j - 1] as int;
          }
        }
      }
    }
  }

  lemma BrokenCons(b: seq<byte>)
    requires b != [] && 0 < b[0] < 128
    ensures NameBroken(b) <==> NameBroken(b[1..])
  {
    var rest := b[1..];
    if j :| 0 <= j < |b| && b[j] >= 128 && forall m :: 0 <= m < j ==> b[m] != 0 {
      assert rest[j - 1] >= 128;
    }
    if j :| 0 <= j < |rest| && rest[j] >= 128 && forall m :: 0 <= m < j ==> rest[m] != 0 {
      assert b[j + 1] >= 128;
      forall m | 0 <= m < j + 1 ensures b[m] != 0 {
        if m > 0 {
          assert rest[m - 1] != 0;
        }
      }
    }
  }

  /** One slot that is not an end marker. */
  lemma ParseExact(s: seq<byte>, e: Entry)
    requires |s| == 32
    ensures ParseEntry(s) == Ok(e) <==> Holds(s, e)
    ensures ParseEntry(s) == Err(UndecodableName) <==> NameBroken(s[12..28])
    ensures ParseEntry(s) == Err(BadMagic) <==> !NameBroken(s[12..28]) && (s[0] != 0xAA || s[1] != 0x50)
    ensures ParseEntry(s).Err? ==> ParseEntry(s).error in {UndecodableName, BadMagic}
  {
    var name := ReadName(s[12..28]);
    ReadNameExact(s[12..28], if name.Some? then name.value else []);
    ReadNameExact(s[12..28], e.name);
    UnpackedWord(s, 4);
    UnpackedWord(s, 8);
    UnpackedWord(s, 28);
    WordParity(s, 28);
    hide ReadName, NameIs, NameBroken, Unpack4, Word;
    assert s[..2] == [s[0], s[1]];
  }

  lemma WordParity(s: seq<byte>, pos: nat)
    requires pos + 4 <= |s|
    ensures Word(s, pos) % 2 == s[pos] % 2
  {
  }

  lemma NextSlot(b: seq<byte>, i: nat)
    requires |b| >= 32
    ensures SlotIn(b[32..], i) <==> SlotIn(b, i + 1)
    ensures SlotIn(b, i + 1) ==> Slot(b[32..], i) == Slot(b, i + 1)
  {
    if SlotIn(b, i + 1) {
      assert b[32..][32 * i..32 * i + 32] == b[32 * (i + 1)..32 * (i + 1) + 32];
    }
  }

  lemma BeginsCons(b: seq<byte>, list: seq<Entry>)
    requires list != []
    ensures Begins(b, list) <==> |b| >= 32 && Holds(b[..32], list[0]) && Begins(b[32..], list[1..])
  {
    hide Holds, Slot, SlotIn;
    if |b| >= 32 {
      FirstSlot(b);
      forall i: nat | i < |list| - 1
        ensures SlotIn(b[32..], i) <==> SlotIn(b, i + 1)
        ensures SlotIn(b, i + 1) ==> Slot(b[32..], i) == Slot(b, i + 1)
      {
        NextSlot(b, i);
      }
      if Holds(b[..32], list[0]) && Begins(b[32..], list[1..]) {
        forall i | 0 <= i < |list| ensures SlotIn(b, i) && Holds(Slot(b, i), list[i]) {
          if i > 0 {
            assert list[i] == list[1..][i - 1];
          }
        }
      }
      if Begins(b, list) {
        assert SlotIn(b, 0);
        forall i | 0 <= i < |list| - 1 ensures SlotIn(b[32..], i) && Holds(Slot(b[32..], i), list[1..][i]) {
          assert SlotIn(b, i + 1) && Holds(Slot(b, i + 1), list[i + 1]);
        }
      }
    } else if Begins(b, list) {
      assert SlotIn(b, 0);
      NoSlot(b);
    }
  }

  lemma NoSlot(b: seq<byte>)
    ensures SlotIn(b, 0) <==> |b| >= 32
  {
  }

  lemma FirstSlot(b: seq<byte>)
    requires |b| >= 32
    ensures SlotIn(b, 0) && Slot(b, 0) == b[..32]
  {
  }

  lemma MarkerExact(s: seq<byte>)
    requires |s| == 32
    ensures s == Fill(ENTRY_LENGTH) <==> EndMarker(s)
  {
  }

  /** Exactly which tables are read, and as what: the entries in the slots up to the first end marker. */
  lemma {:induction false} FromBinaryExact(b: seq<byte>, list: seq<Entry>)
    ensures FromBinary(b) == Ok(list) <==>
            Begins(b, list) && SlotIn(b, |list|) && EndMarker(Slot(b, |list|))
    decreases |b|
  {
    if |b| >= 32 {
      FirstSlot(b);
      MarkerExact(b[..32]);
      if list == [] {
        hide ParseEntry;
      } else {
        ParseExact(b[..32], list[0]);
        BeginsCons(b, list);
        NextSlot(b, |list| - 1);
        FromBinaryExact(b[32..], list[1..]);
        hide ParseEntry, Holds, Begins, SlotIn, Slot;
        NotMarker(b[..32], list[0]);
        assert list == [list[0]] + list[1..];
      }
    }
  }

  lemma NotMarker(s: seq<byte>, e: Entry)
    requires |s| == 32
    ensures !(EndMarker(s) && Holds(s, e))
  {
  }

  lemma NextDefect(b: seq<byte>, i: nat, e: BinaryError)
    requires |b| >= 32
    ensures Defect(b[32..], i, e) <==> Defect(b, i + 1, e)
  {
    hide Slot, SlotIn, EndMarker, NameBroken;
    NextSlot(b, i);
  }

  lemma FirstDefect(b: seq<byte>, e: BinaryError)
    ensures Defect(b, 0, e) <==>
            FromBinary(b) == Err(e) && (|b| < 32 || ParseEntry(b[..32]) == Err(e))
  {
    if |b| >= 32 {
      FirstSlot(b);
      MarkerExact(b[..32]);
      ParseExact(b[..32], Entry([], 0, 0, None, 0, false));
      hide ParseEntry, Holds, NameBroken, EndMarker, Fill, Slot;
    }
  }

  /** The entries in front of the slot that is refused. */
  lemma {:induction false} Refusal(b: seq<byte>) returns (list: seq<Entry>)
    requires FromBinary(b).Err?
    ensures Begins(b, list) && Defect(b, |list|, FromBinary(b).error)
    decreases |b|
  {
    var e := FromBinary(b).error;
    FirstDefect(b, e);
    if |b| < 32 || ParseEntry(b[..32]) == Err(e) {
      list := [];
    } else {
      var first := ParseEntry(b[..32]).value;
      ParseExact(b[..32], first);
      hide ParseEntry, Holds, Begins, Defect, SlotIn, Fill;
      var rest := Refusal(b[32..]);
      list := [first] + rest;
      assert list[1..] == rest;
      BeginsCons(b, list);
      NextDefect(b, |rest|, e);
    }
  }

  lemma {:induction false} DefectRefused(b: seq<byte>, list: seq<Entry>, e: BinaryError)
    requires Begins(b, list) && Defect(b, |list|, e)
    ensures FromBinary(b) == Err(e)
    decreases |list|
  {
    if list == [] {
      FirstDefect(b, e);
    } else {
      BeginsCons(b, list);
      MarkerExact(b[..32]);
      NotMarker(b[..32], list[0]);
      ParseExact(b[..32], list[0]);
      hide ParseEntry, Holds, Begins, Defect, SlotIn, Fill, EndMarker;
      NextDefect(b, |list| - 1, e);
      DefectRefused(b[32..], list[1..], e);
    }
  }

  /** Exactly when and why a table is refused: the first slot that is neither an entry nor an end
      marker names the error. */
  lemma RefusedExact(b: seq<byte>, e: BinaryError)
    ensures FromBinary(b) == Err(e) <==> exists list :: Begins(b, list) && Defect(b, |list|, e)
  {
    hide FromBinary, Begins, Defect;
    if FromBinary(b) == Err(e) {
      var list := Refusal(b);
      assert Begins(b, list) && Defect(b, |list|, e);
    }
    if list :| Begins(b, list) && Defect(b, |list|, e) {
      DefectRefused(b, list, e);
    }
  }

  // ---------- The bytes written ----------

  /** An entry as it is written: nothing behind the name but zeros, and no unknown flags. */
  predicate HoldsExactly(s: seq<byte>, e: Entry)
    requires |s| == 32
  {
    && Holds(s, e.(name := Clip(e.name, 16)))
    && (forall j :: 0 <= j < 16 ==> s[12..28][j] == if j < |e.name| then e.name[j] as int else 0)
    && Word(s, 28) == if e.encrypted then 1 else 0
  }

  lemma EntryExact(e: Entry)
    requires Encodable(e)
    ensures HoldsExactly(EntryBytes(e), e)
  {
    var s := EntryBytes(e);
    EntryRound(e);
    ParseExact(s, e.(name := Clip(e.name, 16)));
    EntrySlices(e);
    PackedWord(s, 28, if e.encrypted then 1 else 0);
    hide EntryBytes, ParseEntry, Holds, Word, Clip, Pack4;
  }

  /** A written table: its entries one after the other, and 0xFF from there to the end. */
  lemma {:induction false} JoinedExact(list: seq<Entry>, n: nat)
    requires AllEncodable(list)
    ensures var b := Joined(list) + Fill(n);
            && |b| == 32 * |list| + n
            && (forall i :: 0 <= i < |list| ==> SlotIn(b, i) && HoldsExactly(Slot(b, i), list[i]))
            && (forall j :: 32 * |list| <= j < |b| ==> b[j] == 0xFF)
  {
    var b := Joined(list) + Fill(n);
    if list != [] {
      JoinedExact(list[1..], n);
      EntryExact(list[0]);
      var rest := Joined(list[1..]) + Fill(n);
      assert b == EntryBytes(list[0]) + rest;
      hide EntryBytes, HoldsExactly, Joined, Fill, Slot, SlotIn, Encodable;
      assert b[..32] == EntryBytes(list[0]) && b[32..] == rest;
      FirstSlot(b);
      forall i | 0 <= i < |list| ensures SlotIn(b, i) && HoldsExactly(Slot(b, i), list[i]) {
        if i > 0 {
          NextSlot(b, i - 1);
          assert list[i] == list[1..][i - 1];
        }
      }
      forall j | 32 * |list| <= j < |b| ensures b[j] == 0xFF {
        assert b[j] == rest[j - 32];
      }
    }
  }

  /** What a written table is, byte by byte. */
  lemma WrittenExact(list: seq<Entry>)
    requires ToBinary(list).Ok?
    ensures var b := ToBinary(list).value;
            && |b| == 0xC00
            && (forall i :: 0 <= i < |list| ==> SlotIn(b, i) && HoldsExactly(Slot(b, i), list[i]))
            && (forall j :: 32 * |list| <= j < |b| ==> b[j] == 0xFF)
  {
    hide HoldsExactly, Slot, SlotIn, Joined, Fill;
    JoinedExact(list, MAX_PARTITION_LENGTH - |Joined(list)|);
  }
}
