/** The text form of a partition table: one line of comma-separated values for each partition. */
module PartitionCsv {
  import opened Wrappers
  import opened Texts
  import opened PartitionTables

  datatype CsvError = InvalidNumber | UnknownKeyword | EmptyType | EmptySize | UnknownFlag | UnknownVariable

  // ---------- Numbers and keywords ----------

  predicate EndsWith(v: text, letter: ascii) {
    v != [] && LowerChar(v[|v| - 1]) == letter
  }

  function Scaled(r: Result<int, CsvError>, factor: int): Result<int, CsvError> {
    match r
    case Err(e) => Err(e)
    case Ok(n) => Ok(n * factor)
  }

  function ParseInt(v: text, keywords: map<text, int>): Result<int, CsvError> {
    if EndsWith(v, 'k') then Scaled(ParseInt(v[..|v| - 1], keywords), 0x400)
    else if EndsWith(v, 'm') then Scaled(ParseInt(v[..|v| - 1], keywords), 0x10_0000)
    else match IntLiteral(v)
      case Some(n) => Ok(n)
      case None =>
        if keywords == map[] then Err(InvalidNumber)
        else if Lower(v) in keywords then Ok(keywords[Lower(v)])
        else Err(UnknownKeyword)
  }

  const TYPES: map<text, int> := map["app" := APP_TYPE, "data" := DATA_TYPE]

  /** The slots for over-the-air updates. */
  const FIRST_SLOTS: map<text, int> := map[
    "ota_0" := 0x10, "ota_1" := 0x11, "ota_2" := 0x12, "ota_3" := 0x13]

  const SECOND_SLOTS: map<text, int> := map[
    "ota_4" := 0x14, "ota_5" := 0x15, "ota_6" := 0x16, "ota_7" := 0x17]

  const THIRD_SLOTS: map<text, int> := map[
    "ota_8" := 0x18, "ota_9" := 0x19, "ota_10" := 0x1A, "ota_11" := 0x1B]

  const FOURTH_SLOTS: map<text, int> := map[
    "ota_12" := 0x1C, "ota_13" := 0x1D, "ota_14" := 0x1E, "ota_15" := 0x1F]

  const APP_SUBTYPES: map<text, int> := map["factory" := 0x00, "test" := 0x20] +
    FIRST_SLOTS + SECOND_SLOTS + THIRD_SLOTS + FOURTH_SLOTS

  const DATA_SUBTYPES: map<text, int> := map[
    "ota" := 0x00, "phy" := 0x01, "nvs" := 0x02, "coredump" := 0x03,
    "esphttpd" := 0x80, "fat" := 0x81, "spiffs" := 0x82]

  function Subtypes(kind: int): map<text, int> {
    if kind == APP_TYPE then APP_SUBTYPES else if kind == DATA_TYPE then DATA_SUBTYPES else map[]
  }

  predicate WordChar(c: ascii) {
    'a' <= c <= 'z' || '0' <= c <= '9' || c == '_'
  }

  /** A keyword that can be found: the parser takes a final k or m for a suffix, digits for a number,
      and looks up the rest in lower case. */
  predicate Findable(k: text) {
    && k != [] && 'a' <= k[0] <= 'z' && k[|k| - 1] != 'k' && k[|k| - 1] != 'm'
    && forall i :: 0 <= i < |k| ==> WordChar(k[i])
  }

  predicate AllFindable(keywords: map<text, int>) {
    forall k :: k in keywords ==> Findable(k)
  }

  lemma KeywordsFindable(kind: int)
    ensures AllFindable(TYPES) && AllFindable(Subtypes(kind))
  {
    AppFindable();
    DataFindable();
  }

  lemma AppFindable()
    ensures AllFindable(TYPES) && AllFindable(APP_SUBTYPES)
  {
    FirstFindable();
    SecondFindable();
    ThirdFindable();
    FourthFindable();
    hide FIRST_SLOTS, SECOND_SLOTS, THIRD_SLOTS, FOURTH_SLOTS;
  }

  lemma FirstFindable()
    ensures AllFindable(FIRST_SLOTS)
  {
  }

  lemma SecondFindable()
    ensures AllFindable(SECOND_SLOTS)
  {
  }

  lemma ThirdFindable()
    ensures AllFindable(THIRD_SLOTS)
  {
  }

  lemma FourthFindable()
    ensures AllFindable(FOURTH_SLOTS)
  {
  }

  lemma DataFindable()
    ensures AllFindable(DATA_SUBTYPES)
  {
  }

  /** Written in any case, a keyword is one clean field, and not a number. */
  lemma KeywordClean(v: text)
    requires Findable(Lower(v))
    ensures Clean(v) && IntLiteral(v) == None
  {
    forall i | 0 <= i < |v|
      ensures !IsSpace(v[i]) && !IsBreak(v[i]) && v[i] != ',' && v[i] != '$'
    {
      assert WordChar(Lower(v)[i]);
    }
    StripExact(v);
    hide Strip, Value;
    assert Lower(v)[0] == LowerChar(v[0]);
    assert DigitValue(v[0]) >= 10;
  }

  lemma FindableLower(k: text)
    requires Findable(k)
    ensures Lower(k) == k
  {
    forall i | 0 <= i < |k| ensures LowerChar(k[i]) == k[i] {
      assert WordChar(k[i]);
    }
  }

  /** The numbers of the types, and of the subtypes of each. */
  lemma KeywordNumbers()
    ensures TYPES == map["app" := 0, "data" := 1]
    ensures Subtypes(1) == map["ota" := 0, "phy" := 1, "nvs" := 2, "coredump" := 3,
                               "esphttpd" := 128, "fat" := 129, "spiffs" := 130]
    ensures forall kind: int :: kind != 0 && kind != 1 ==> Subtypes(kind) == map[]
  {
  }

  function Slot(n: nat): text {
    "ota_" + Decimal(n)
  }

  lemma SlotText(n: nat)
    requires n < 16
    ensures n < 10 ==> Slot(n) == ['o', 't', 'a', '_', (48 + n) as char]
    ensures n >= 10 ==> Slot(n) == ['o', 't', 'a', '_', '1', (38 + n) as char]
  {
    if n < 10 {
      assert Show(n, 10) == [] + [DigitChar(n)];
    } else {
      assert Show(n, 10) == Show(1, 10) + [DigitChar(n - 10)];
      assert Show(1, 10) == [] + [DigitChar(1)];
    }
  }

  lemma FirstExact(k: text)
    ensures k in FIRST_SLOTS <==> exists n: nat :: 0 <= n < 4 && Slot(n) == k
    ensures forall n: nat :: 0 <= n < 4 && Slot(n) == k ==> FIRST_SLOTS[k] == 16 + n
  {
    SlotText(0);
    SlotText(1);
    SlotText(2);
    SlotText(3);
    hide Slot;
  }

  lemma SecondExact(k: text)
    ensures k in SECOND_SLOTS <==> exists n: nat :: 4 <= n < 8 && Slot(n) == k
    ensures forall n: nat :: 4 <= n < 8 && Slot(n) == k ==> SECOND_SLOTS[k] == 16 + n
  {
    SlotText(4);
    SlotText(5);
    SlotText(6);
    SlotText(7);
    hide Slot;
  }

  lemma ThirdExact(k: text)
    ensures k in THIRD_SLOTS <==> exists n: nat :: 8 <= n < 12 && Slot(n) == k
    ensures forall n: nat :: 8 <= n < 12 && Slot(n) == k ==> THIRD_SLOTS[k] == 16 + n
  {
    SlotText(8);
    SlotText(9);
    SlotText(10);
    SlotText(11);
    hide Slot;
  }

  lemma FourthExact(k: text)
    ensures k in FOURTH_SLOTS <==> exists n: nat :: 12 <= n < 16 && Slot(n) == k
    ensures forall n: nat :: 12 <= n < 16 && Slot(n) == k ==> FOURTH_SLOTS[k] == 16 + n
  {
    SlotText(12);
    SlotText(13);
    SlotText(14);
    SlotText(15);
    hide Slot;
  }

  /** The subtypes of an application: the slots for over-the-air updates are numbered from 16 on. */
  lemma AppNumbers(k: text, v: int)
    ensures k in Subtypes(0) && Subtypes(0)[k] == v <==>
            || (k == "factory" && v == 0)
            || (k == "test" && v == 32)
            || (exists n: nat :: n < 16 && Slot(n) == k && v == 16 + n)
  {
    FirstExact(k);
    SecondExact(k);
    ThirdExact(k);
    FourthExact(k);
    hide Slot, FIRST_SLOTS, SECOND_SLOTS, THIRD_SLOTS, FOURTH_SLOTS;
    forall m: nat, n: nat | m < 16 && n < 16 && Slot(m) == k && Slot(n) == k
      ensures m == n && k != [] && k[0] == 'o'
    {
      SlotsDiffer(m, n);
    }
  }

  lemma SlotsDiffer(m: nat, n: nat)
    requires m < 16 && n < 16 && Slot(m) == Slot(n)
    ensures m == n && Slot(m) != [] && Slot(m)[0] == 'o'
  {
    SlotText(m);
    SlotText(n);
    hide Slot;
    var s, t := Slot(m), Slot(n);
    assert |s| == |t| && s[|s| - 1] == t[|t| - 1];
  }

  /** A keyword stands for its number, in upper or lower case. */
  lemma KeywordParsed(v: text, keywords: map<text, int>)
    requires Lower(v) in keywords && Findable(Lower(v))
    ensures ParseInt(v, keywords) == Ok(keywords[Lower(v)])
  {
    KeywordClean(v);
    hide IntLiteral, Clean;
    assert Lower(v)[|v| - 1] == LowerChar(v[|v| - 1]);
  }

  lemma PlainParsed(s: text, keywords: map<text, int>)
    requires Plain(s) && s != []
    requires IntLiteral(s).Some? || keywords == map[]
    ensures ParseInt(s, keywords) ==
            match IntLiteral(s) case Some(n) => Ok(n) case None => Err(InvalidNumber)
  {
    assert PlainChar(s[|s| - 1]);
    hide IntLiteral, Lower;
  }

  /** Some keyword with this value, or the number. */
  ghost function LookupKeyword(t: int, keywords: map<text, int>, simple: bool): text {
    if !simple && exists k :: k in keywords && keywords[k] == t then
      var k :| k in keywords && keywords[k] == t;
      k
    else
      Decimal(t)
  }

  /** Types and subtypes are read back, whichever keyword was picked. */
  lemma KeywordRound(t: int, keywords: map<text, int>, simple: bool)
    requires AllFindable(keywords)
    ensures var s := LookupKeyword(t, keywords, simple);
            ParseInt(s, keywords) == Ok(t) && Clean(s) && s != []
  {
    var s := LookupKeyword(t, keywords, simple);
    if s in keywords && keywords[s] == t {
      FindableLower(s);
      KeywordParsed(s, keywords);
      KeywordClean(s);
    } else {
      DecimalRound(t);
      PlainMeans(s);
      PlainParsed(s, keywords);
    }
  }

  function AddrFormat(a: int, includeSizes: bool, simple: bool): text {
    if !simple && includeSizes && a % 0x10_0000 == 0 then Decimal(a / 0x10_0000) + "M"
    else if !simple && includeSizes && a % 0x400 == 0 then Decimal(a / 0x400) + "K"
    else Hex(a)
  }

  /** Offsets are written in hexadecimal, sizes with a suffix where they are round. */
  predicate Writable(a: int, includeSizes: bool, simple: bool) {
    a >= 0 || (!simple && includeSizes && a % 0x400 == 0)
  }

  /** A suffix in either case multiplies the number. */
  lemma SuffixParsed(n: int, suffix: ascii, keywords: map<text, int>)
    requires suffix == 'k' || suffix == 'K' || suffix == 'm' || suffix == 'M'
    ensures var s := Decimal(n) + [suffix];
            && ParseInt(s, keywords) == Ok(n * if suffix == 'k' || suffix == 'K' then 1024 else 1024 * 1024)
            && Clean(s) && s != []
  {
    var s := Decimal(n) + [suffix];
    DecimalRound(n);
    PlainMeans(Decimal(n));
    PlainParsed(Decimal(n), keywords);
    hide Decimal, IntLiteral, Plain;
    assert s[..|s| - 1] == Decimal(n);
  }

  /** An address or size is read back exactly when it is not negative, or round and written with a
      suffix; otherwise it is refused. */
  lemma AddrRound(a: int, includeSizes: bool, simple: bool)
    ensures var s := AddrFormat(a, includeSizes, simple);
            && ParseInt(s, map[]) == (if Writable(a, includeSizes, simple) then Ok(a) else Err(InvalidNumber))
            && Clean(s) && s != []
  {
    hide ParseInt, IntLiteral, Clean, Decimal, Hex, Plain;
    if !simple && includeSizes && a % 0x10_0000 == 0 {
      assert a % 0x400 == 0 && a / 0x10_0000 * 0x10_0000 == a;
      SuffixParsed(a / 0x10_0000, 'M', map[]);
    } else if !simple && includeSizes && a % 0x400 == 0 {
      assert a / 0x400 * 0x400 == a;
      SuffixParsed(a / 0x400, 'K', map[]);
    } else {
      HexRound(a);
      PlainMeans(Hex(a));
      PlainParsed(Hex(a), map[]);
    }
  }

  /** A keyword is written wherever there is one, except with simple formatting. */
  lemma KeywordForm(t: int, keywords: map<text, int>, simple: bool)
    ensures var k := LookupKeyword(t, keywords, simple);
            if !simple && t in keywords.Values then k in keywords && keywords[k] == t else k == Decimal(t)
  {
    hide Decimal;
    if t in keywords.Values {
      var k :| k in keywords && keywords[k] == t;
    }
  }

  /** So is a suffix for round sizes, the larger one if possible. */
  lemma AddrForm(a: int, includeSizes: bool, simple: bool)
    ensures var s := AddrFormat(a, includeSizes, simple);
            && s != []
            && (s[|s| - 1] == 'M' <==> !simple && includeSizes && a % 0x10_0000 == 0)
            && (s[|s| - 1] == 'K' <==> !simple && includeSizes && a % 0x10_0000 != 0 && a % 0x400 == 0)
            && (s[|s| - 1] != 'M' && s[|s| - 1] != 'K' ==> s == Hex(a))
  {
    HexRound(a);
    hide Hex, Decimal, IntLiteral, Plain;
    HexLast(a);
  }

  lemma HexLast(a: int)
    ensures var s := Hex(a); s != [] && s[|s| - 1] != 'M' && s[|s| - 1] != 'K'
  {
    HexRound(a);
    hide Hex, IntLiteral;
    assert PlainChar(Hex(a)[|Hex(a)| - 1]);
  }

  // ---------- One line ----------

  function StripAll(fields: seq<text>): (r: seq<text>)
    ensures |r| == |fields|
  {
    seq(|fields|, i requires 0 <= i < |fields| => Strip(fields[i]))
  }

  /** The fields of a line, with four empty ones added. */
  function Fields(line: text): (f: seq<text>)
    ensures |f| >= 5 && (|f| == 5 ==> f[1] == [])
  {
    FieldsOf(line);
    StripAll(Split(line + ",,,,", ','))
  }

  lemma FieldsOf(line: text)
    ensures Split(line + ",,,,", ',') == Split(line, ',') + [[], [], [], []]
  {
    assert line + ",,,," == line + [','] + ",,,";
    SplitAppend(line, ',', ",,,");
    assert ",,," == [] + [','] + ",,";
    SplitAppend([], ',', ",,");
    assert ",," == [] + [','] + ",";
    SplitAppend([], ',', ",");
    assert "," == [] + [','] + [];
    SplitAppend([], ',', []);
    assert Split([], ',') == [[]];
  }

  const ENCRYPTED: text := "encrypted"

  function ParseFlags(flags: seq<text>): Result<bool, CsvError> {
    if flags == [] then Ok(false)
    else if flags[0] == ENCRYPTED then
      match ParseFlags(flags[1..])
      case Err(e) => Err(e)
      case Ok(_) => Ok(true)
    else if flags[0] != [] then Err(UnknownFlag)
    else ParseFlags(flags[1..])
  }

  /** A flag field is accepted exactly if it names no other flag, and says whether that one is there. */
  lemma {:induction false} FlagsExact(flags: seq<text>)
    ensures ParseFlags(flags) ==
            if forall i :: 0 <= i < |flags| ==> flags[i] == "encrypted" || flags[i] == [] then Ok("encrypted" in flags)
            else Err(UnknownFlag)
  {
    if flags != [] {
      FlagsExact(flags[1..]);
      assert flags == [flags[0]] + flags[1..];
    }
  }

  function ParseAddress(s: text): Result<Option<int>, CsvError> {
    if s == [] then Ok(None)
    else match ParseInt(s, map[])
      case Err(e) => Err(e)
      case Ok(n) => Ok(Some(n))
  }

  /** `PartitionDefinition.from_csv`. */
  function ParseLine(line: text): Result<Entry, CsvError> {
    ParseFields(Fields(line))
  }

  function ParseFields(f: seq<text>): Result<Entry, CsvError>
    requires |f| >= 5 && (|f| == 5 ==> f[1] == [])
  {
    if f[1] == [] then Err(EmptyType) else
    match ParseInt(f[1], TYPES)
    case Err(e) => Err(e)
    case Ok(kind) =>
      match (if f[2] == [] then Ok(0) else ParseInt(f[2], Subtypes(kind)))
      case Err(e) => Err(e)
      case Ok(subtype) =>
        match ParseAddress(f[3])
        case Err(e) => Err(e)
        case Ok(offset) =>
          match ParseAddress(f[4])
          case Err(e) => Err(e)
          case Ok(None) => Err(EmptySize)
          case Ok(Some(size)) =>
            match ParseFlags(Split(f[5], ':'))
            case Err(e) => Err(e)
            case Ok(encrypted) => Ok(Entry(f[0], kind, subtype, offset, size, encrypted))
  }

  function FlagText(encrypted: bool): text {
    if encrypted then ENCRYPTED else []
  }

  /** An address, or nothing. */
  predicate AddressIs(s: text, a: Option<int>) {
    if a == None then s == [] else s != [] && ParseInt(s, map[]) == Ok(a.value)
  }

  /** The flags of a field: the known one, or nothing, any number of times. */
  predicate FlagsAre(flags: seq<text>, encrypted: bool) {
    && (forall i :: 0 <= i < |flags| ==> flags[i] == "encrypted" || flags[i] == [])
    && (encrypted <==> "encrypted" in flags)
  }

  /** Exactly which lines are accepted, and as which entry: six fields or more, of which all but the
      type and the size may be empty, and no unknown flag. */
  lemma LineAccepted(line: text, e: Entry)
    ensures ParseLine(line) == Ok(e) <==>
            var f := Fields(line);
            && f[0] == e.name
            && f[1] != [] && ParseInt(f[1], TYPES) == Ok(e.kind)
            && (if f[2] == [] then e.subtype == 0 else ParseInt(f[2], Subtypes(e.kind)) == Ok(e.subtype))
            && AddressIs(f[3], e.offset) && AddressIs(f[4], Some(e.size))
            && FlagsAre(Split(f[5], ':'), e.encrypted)
  {
    hide ParseInt, Split, Subtypes, TYPES, Fields, ParseFlags;
    var f := Fields(line);
    if f[1] != [] {
      FlagsExact(Split(f[5], ':'));
    }
  }

  /** The fields `PartitionDefinition.to_csv` joins. */
  ghost function Row(e: Entry, simple: bool): (f: seq<text>)
    requires e.offset.Some?
    ensures |f| == 6
  {
    [e.name,
     LookupKeyword(e.kind, TYPES, simple),
     LookupKeyword(e.subtype, Subtypes(e.kind), simple),
     AddrFormat(e.offset.value, false, simple),
     AddrFormat(e.size, true, simple),
     FlagText(e.encrypted)]
  }

  ghost function LineOf(e: Entry, simple: bool): text
    requires e.offset.Some?
  {
    Join(Row(e, simple), ',')
  }

  /** Names that parsing leaves untouched. */
  predicate CleanName(name: text) {
    Clean(name) && (name == [] || name[0] != '#')
  }

  lemma FlagsRound(encrypted: bool)
    ensures ParseFlags(Split(FlagText(encrypted), ':')) == Ok(encrypted) && Clean(FlagText(encrypted))
  {
    var s := FlagText(encrypted);
    assert ':' !in ENCRYPTED && Clean(ENCRYPTED);
    SplitOne(s, ':');
    hide Split, Clean, ENCRYPTED;
    var flags, none := [s], [];
    assert flags[1..] == none && ParseFlags(none) == Ok(false);
  }

  lemma RowClean(e: Entry, simple: bool)
    requires e.offset.Some? && CleanName(e.name)
    ensures forall i :: 0 <= i < 6 ==> Clean(Row(e, simple)[i])
    ensures forall i :: 1 <= i < 5 ==> Row(e, simple)[i] != []
  {
    hide LookupKeyword, AddrFormat, Clean, FlagText;
    KeywordsFindable(e.kind);
    hide AllFindable, TYPES, Subtypes;
    KeywordRound(e.kind, TYPES, simple);
    KeywordRound(e.subtype, Subtypes(e.kind), simple);
    hide ParseInt;
    AddrRound(e.offset.value, false, simple);
    AddrRound(e.size, true, simple);
    FlagsRound(e.encrypted);
    SixClean(Row(e, simple));
  }

  /** The other fields are clean whatever the name is. */
  lemma RowFields(e: Entry, simple: bool)
    requires e.offset.Some? && OneField(e.name)
    ensures forall i :: 0 <= i < 6 ==> OneField(Row(e, simple)[i])
  {
    var named := e.(name := []);
    EmptyClean();
    RowClean(named, simple);
    assert forall i :: 1 <= i < 6 ==> Row(e, simple)[i] == Row(named, simple)[i];
    hide Row, Trim, OneLine;
  }

  lemma SixClean(f: seq<text>)
    requires |f| == 6 && Clean(f[0]) && Clean(f[1]) && Clean(f[2]) && Clean(f[3]) && Clean(f[4]) && Clean(f[5])
    ensures forall i :: 0 <= i < 6 ==> Clean(f[i])
  {
    hide Clean;
  }

  lemma FieldsJoined(f: seq<text>)
    requires |f| >= 1 && forall i :: 0 <= i < |f| ==> OneField(f[i])
    ensures |Fields(Join(f, ','))| == |f| + 4
    ensures forall i :: 0 <= i < |f| + 4 ==> Fields(Join(f, ','))[i] == if i < |f| then f[i] else []
  {
    SplitJoin(f, ',');
    FieldsOf(Join(f, ','));
    hide Join, Split;
    forall i | 0 <= i < |f| ensures Strip(f[i]) == f[i] {
      StripExact(f[i]);
    }
  }

  /** A line that was written is read back as the same entry exactly when offset and size can be
      written. */
  lemma LineRound(e: Entry, simple: bool)
    requires e.offset.Some? && OneField(e.name)
    ensures ParseLine(LineOf(e, simple)) ==
            if Writable(e.offset.value, false, simple) && Writable(e.size, true, simple) then Ok(e)
            else Err(InvalidNumber)
  {
    hide LookupKeyword, AddrFormat, Clean, Fields, ParseInt, ParseFlags, Writable, Subtypes, Join, Split, TYPES,
         AllFindable, FlagText;
    RowFields(e, simple);
    FieldsJoined(Row(e, simple));
    var f := Fields(LineOf(e, simple));
    assert f[..6] == Row(e, simple);
    RowParsed(e, simple, f);
  }

  /** The name read from a line is one field, the first. */
  lemma NameRead(line: text)
    requires ParseLine(line).Ok?
    ensures ParseLine(line).value.name == Strip(Split(line, ',')[0])
    ensures OneField(ParseLine(line).value.name)
  {
    var first := Split(line, ',')[0];
    FieldsOf(line);
    FieldsName(Fields(line));
    SplitFirst(line, ',');
    StripKeeps(first);
    StripExact(first);
    hide ParseFields, Split, Strip, Trim;
    assert Fields(line)[0] == Strip(first);
  }

  lemma FieldsName(f: seq<text>)
    requires |f| >= 5 && (|f| == 5 ==> f[1] == []) && ParseFields(f).Ok?
    ensures ParseFields(f).value.name == f[0]
  {
    hide ParseInt, ParseFlags, ParseAddress, Split, Subtypes, TYPES;
  }

  /** A written line is read back as the same entry exactly when its name is one field, and its offset
      and size can be written. */
  lemma LineExact(e: Entry, simple: bool)
    requires e.offset.Some?
    ensures ParseLine(LineOf(e, simple)) == Ok(e) <==>
            OneField(e.name) && Writable(e.offset.value, false, simple) && Writable(e.size, true, simple)
  {
    hide ParseLine, LineOf, Writable, OneField;
    if OneField(e.name) {
      LineRound(e, simple);
    } else if ParseLine(LineOf(e, simple)).Ok? {
      NameRead(LineOf(e, simple));
    }
  }

  /** The written fields, parsed one after the other. */
  lemma RowParsed(e: Entry, simple: bool, f: seq<text>)
    requires e.offset.Some? && |f| >= 6 && f[..6] == Row(e, simple)
    ensures ParseFields(f) ==
            if Writable(e.offset.value, false, simple) && Writable(e.size, true, simple) then Ok(e)
            else Err(InvalidNumber)
  {
    hide LookupKeyword, AddrFormat, ParseInt, ParseFlags, Writable, Subtypes, Split, TYPES, AllFindable, FlagText,
         Clean;
    var row := Row(e, simple);
    assert f[0] == row[0] && f[1] == row[1] && f[2] == row[2] && f[3] == row[3] && f[4] == row[4] && f[5] == row[5];
    KeywordsFindable(e.kind);
    KeywordRound(e.kind, TYPES, simple);
    KeywordRound(e.subtype, Subtypes(e.kind), simple);
    AddrRound(e.offset.value, false, simple);
    AddrRound(e.size, true, simple);
    FlagsRound(e.encrypted);
  }

  /** Subtype, offset and flags may be left empty. */
  lemma OmittedFields(name: text, kind: int, size: int, simple: bool)
    requires CleanName(name) && Writable(size, true, simple)
    ensures ParseLine(Join([name, LookupKeyword(kind, TYPES, simple), [], [], AddrFormat(size, true, simple)], ',')) ==
            Ok(Entry(name, kind, 0, None, size, false))
  {
    hide LookupKeyword, AddrFormat, Trim, OneLine, Fields, ParseInt, Writable, Subtypes, Join, TYPES, AllFindable;
    var f := [name, LookupKeyword(kind, TYPES, simple), [], [], AddrFormat(size, true, simple)];
    KeywordsFindable(kind);
    KeywordRound(kind, TYPES, simple);
    AddrRound(size, true, simple);
    EmptyClean();
    FieldsJoined(f);
    NoFlags();
  }

  lemma NoFlags()
    ensures ParseFlags(Split([], ':')) == Ok(false)
  {
    var flags, none := [[]], [];
    assert Split([], ':') == flags && flags[1..] == none && ParseFlags(none) == Ok(false);
  }

  /** A line that ends before the type or the size is refused. */
  lemma MissingFields(name: text, kind: int, simple: bool)
    requires CleanName(name)
    ensures ParseLine(name) == Err(EmptyType)
    ensures ParseLine(Join([name, LookupKeyword(kind, TYPES, simple)], ',')) == Err(EmptySize)
  {
    hide LookupKeyword, Trim, OneLine, Fields, ParseInt, Subtypes, Join, TYPES, ParseFlags, AllFindable;
    KeywordsFindable(kind);
    KeywordRound(kind, TYPES, simple);
    FieldsJoined([name]);
    JoinOne(name);
    FieldsJoined([name, LookupKeyword(kind, TYPES, simple)]);
  }

  lemma EmptyClean()
    ensures Clean([])
  {
  }

  lemma JoinOne(name: text)
    ensures Join([name], ',') == name
  {
  }

  // ---------- The whole text ----------

  /** The lines in order; `expand` replaces variables of the environment, or fails. */
  function ReadLines(lines: seq<text>, expand: text -> Option<text>): Result<seq<Entry>, CsvError> {
    if lines == [] then Ok([])
    else match expand(lines[0])
      case None => Err(UnknownVariable)
      case Some(expanded) =>
        var line := Strip(expanded);
        if line == [] || line[0] == '#' then ReadLines(lines[1..], expand)
        else match ParseLine(line)
          case Err(e) => Err(e)
          case Ok(entry) => Behind([entry], ReadLines(lines[1..], expand))
  }

  /** What one line of the text comes to: blank lines and comments to nothing. */
  function LineMeans(line: text, expand: text -> Option<text>): Result<seq<Entry>, CsvError> {
    match expand(line)
    case None => Err(UnknownVariable)
    case Some(expanded) =>
      var stripped := Strip(expanded);
      if stripped == [] || stripped[0] == '#' then Ok([])
      else match ParseLine(stripped)
        case Err(e) => Err(e)
        case Ok(entry) => Ok([entry])
  }

  /** The first `n` lines are in order. */
  predicate LinesFine(lines: seq<text>, n: nat, expand: text -> Option<text>)
    requires n <= |lines|
  {
    forall i :: 0 <= i < n ==> LineMeans(lines[i], expand).Ok?
  }

  lemma LinesFineCons(lines: seq<text>, n: nat, expand: text -> Option<text>)
    requires 0 < n <= |lines|
    ensures LinesFine(lines, n, expand) <==>
            LineMeans(lines[0], expand).Ok? && LinesFine(lines[1..], n - 1, expand)
  {
    hide LineMeans;
    if LineMeans(lines[0], expand).Ok? && LinesFine(lines[1..], n - 1, expand) {
      forall i | 0 <= i < n ensures LineMeans(lines[i], expand).Ok? {
        if i > 0 {
          assert LineMeans(lines[1..][i - 1], expand).Ok?;
        }
      }
    }
  }

  lemma ReadFirst(lines: seq<text>, expand: text -> Option<text>)
    requires lines != []
    ensures ReadLines(lines, expand) ==
            match LineMeans(lines[0], expand)
            case Err(e) => Err(e)
            case Ok(first) => Behind(first, ReadLines(lines[1..], expand))
  {
    hide Strip, ParseLine;
    BehindNothing(ReadLines(lines[1..], expand));
  }

  /** Reading succeeds exactly if every line is in order. */
  lemma {:induction false} LinesAccepted(lines: seq<text>, expand: text -> Option<text>)
    ensures ReadLines(lines, expand).Ok? <==> LinesFine(lines, |lines|, expand)
  {
    hide LineMeans;
    if lines != [] {
      ReadFirst(lines, expand);
      LinesFineCons(lines, |lines|, expand);
      hide ReadLines;
      LinesAccepted(lines[1..], expand);
    }
  }

  /** Otherwise the first line that is not names the error. */
  lemma {:induction false} LinesRefused(lines: seq<text>, expand: text -> Option<text>) returns (i: nat)
    requires ReadLines(lines, expand).Err?
    ensures i < |lines| && LinesFine(lines, i, expand) && LineMeans(lines[i], expand).Err?
    ensures LineMeans(lines[i], expand).error == ReadLines(lines, expand).error
  {
    assert lines != [];
    hide LineMeans, ReadLines;
    ReadFirst(lines, expand);
    if LineMeans(lines[0], expand).Err? {
      i := 0;
    } else {
      i := LinesRefused(lines[1..], expand);
      LinesFineCons(lines, i + 1, expand);
      i := i + 1;
    }
  }

  function FromCsv(csv: text, expand: text -> Option<text>): Result<seq<Entry>, CsvError> {
    match ReadLines(Lines(csv), expand)
    case Err(e) => Err(e)
    case Ok(list) => Ok(FixedUp(list))
  }

  /** `PartitionTable.from_csv`. */
  method ReadCsv(csv: text, expand: text -> Option<text>) returns (r: Result<PartitionTable, CsvError>)
    ensures match FromCsv(csv, expand)
            case Err(e) => r == Err(e)
            case Ok(list) => r.Ok? && fresh(r.value) && r.value.entries == list
  {
    var lines := Lines(csv);
    var res: seq<Entry> := [];
    BehindNothing(ReadLines(lines, expand));
    assert lines[0..] == lines;
    for lineNo := 0 to |lines|
      invariant ReadLines(lines, expand) == Behind(res, ReadLines(lines[lineNo..], expand))
    {
      var rest := lines[lineNo..];
      assert rest[0] == lines[lineNo] && rest[1..] == lines[lineNo + 1..];
      var expanded := expand(lines[lineNo]);
      if expanded.None? {
        return Err(UnknownVariable);
      }
      var line := Strip(expanded.value);
      hide ParseLine, Strip;
      if line != [] && line[0] != '#' {
        var entry := ParseLine(line);
        if entry.Err? {
          return Err(entry.error);
        }
        BehindTwice(res, [entry.value], ReadLines(rest[1..], expand));
        res := res + [entry.value];
      }
    }
    BehindEnd(res);
    var table := new PartitionTable(res);
    table.FixUp();
    return Ok(table);
  }

  lemma BehindEnd(list: seq<Entry>)
    ensures Behind<Entry, CsvError>(list, Ok([])) == Ok(list)
  {
    assert list + [] == list;
  }

  predicate AllPlacedEntries(list: seq<Entry>) {
    forall i :: 0 <= i < |list| ==> list[i].offset.Some?
  }

  ghost function Rows(list: seq<Entry>, simple: bool): (r: seq<text>)
    requires AllPlacedEntries(list)
    ensures |r| == |list|
  {
    if list == [] then [] else [LineOf(list[0], simple)] + Rows(list[1..], simple)
  }

  const COMMENT1: text := "# Espressif ESP32 Partition Table"
  const COMMENT2: text := "# Name, Type, SubType, Offset, Size, Flags"

  /** `PartitionTable.to_csv`. */
  ghost function ToCsv(list: seq<Entry>, simple: bool): text
    requires AllPlacedEntries(list)
  {
    Unlines([COMMENT1, COMMENT2] + Rows(list, simple))
  }

  /** An entry that survives being written as text. */
  predicate Survives(e: Entry, simple: bool) {
    && CleanName(e.name) && e.offset.Some?
    && Writable(e.offset.value, false, simple) && Writable(e.size, true, simple)
  }

  /** A written line is one line, neither blank nor a comment, and has no white space around it. */
  lemma LineClean(e: Entry, simple: bool)
    requires e.offset.Some? && CleanName(e.name)
    ensures var line := LineOf(e, simple);
            OneLine(line) && '$' !in line && Strip(line) == line && line != [] && line[0] != '#'
  {
    var f := Row(e, simple);
    RowClean(e, simple);
    hide Row;
    JoinClean(f);
    JoinEnds(f);
    hide Join;
    StripExact(LineOf(e, simple));
  }

  lemma {:induction false} JoinEnds(f: seq<text>)
    requires |f| >= 2
    ensures var line, last := Join(f, ','), f[|f| - 1];
            && line != [] && line[0] == (if f[0] == [] then ',' else f[0][0])
            && line[|line| - 1] == if last == [] then ',' else last[|last| - 1]
  {
    if |f| > 2 {
      JoinEnds(f[1..]);
    }
  }

  predicate AllSurvive(list: seq<Entry>, simple: bool) {
    forall i :: 0 <= i < |list| ==> Survives(list[i], simple)
  }

  /** An environment that leaves text without variables alone. */
  ghost predicate KeepsText(expand: text -> Option<text>) {
    forall s :: '$' !in s ==> expand(s) == Some(s)
  }

  lemma ReadComment(line: text, rest: seq<text>, expand: text -> Option<text>)
    requires KeepsText(expand) && '$' !in line && Strip(line) == line && line != [] && line[0] == '#'
    ensures ReadLines([line] + rest, expand) == ReadLines(rest, expand)
  {
    hide Strip, ParseLine;
    assert ([line] + rest)[1..] == rest;
  }

  lemma ReadEntry(e: Entry, rest: seq<text>, simple: bool, expand: text -> Option<text>)
    requires KeepsText(expand) && CleanName(e.name) && e.offset.Some?
    ensures ReadLines([LineOf(e, simple)] + rest, expand) ==
            if Survives(e, simple) then Behind([e], ReadLines(rest, expand)) else Err(InvalidNumber)
  {
    var line := LineOf(e, simple);
    LineClean(e, simple);
    LineRound(e, simple);
    hide Strip, ParseLine, LineOf, CleanName, Writable;
    assert ([line] + rest)[1..] == rest;
  }

  lemma {:induction false} ReadRows(list: seq<Entry>, simple: bool, expand: text -> Option<text>)
    requires KeepsText(expand) && AllPlacedEntries(list) && AllSurvive(list, simple)
    ensures ReadLines(Rows(list, simple), expand) == Ok(list)
  {
    if list == [] {
    } else {
      var first, rest := list[0], list[1..];
      assert Survives(first, simple) && AllSurvive(rest, simple) && list == [first] + rest;
      hide ReadLines, LineOf, Survives, KeepsText, AllSurvive;
      ReadRows(rest, simple, expand);
      ReadEntry(first, Rows(rest, simple), simple, expand);
    }
  }

  predicate CleanNames(list: seq<Entry>) {
    forall i :: 0 <= i < |list| ==> CleanName(list[i].name)
  }

  lemma RowsCons(list: seq<Entry>, simple: bool)
    requires list != [] && AllPlacedEntries(list)
    ensures AllPlacedEntries(list[1..])
    ensures Rows(list, simple)[0] == LineOf(list[0], simple) && Rows(list, simple)[1..] == Rows(list[1..], simple)
  {
    hide LineOf;
  }

  lemma {:induction false} RowsOneLine(list: seq<Entry>, simple: bool)
    requires AllPlacedEntries(list) && CleanNames(list)
    ensures forall i :: 0 <= i < |list| ==> OneLine(Rows(list, simple)[i])
  {
    hide LineOf, OneLine, CleanName, Rows;
    if list != [] {
      LineClean(list[0], simple);
      RowsCons(list, simple);
      RowsOneLine(list[1..], simple);
      forall i | 0 <= i < |list| ensures OneLine(Rows(list, simple)[i]) {
        if i > 0 {
          assert Rows(list, simple)[i] == Rows(list[1..], simple)[i - 1];
        }
      }
    }
  }

  predicate CommentChar(c: ascii) {
    c == ' ' || c == ',' || c == '#' || '0' <= c <= '9' || 'A' <= c <= 'Z' || 'a' <= c <= 'z'
  }

  lemma CommentMeans(line: text)
    requires line != [] && line[0] == '#' && line[|line| - 1] != ' '
    requires forall i :: 0 <= i < |line| ==> CommentChar(line[i])
    ensures OneLine(line) && '$' !in line && Strip(line) == line
  {
    StripExact(line);
    hide Strip;
  }

  lemma Comment1Clean()
    ensures OneLine(COMMENT1) && '$' !in COMMENT1 && Strip(COMMENT1) == COMMENT1 && COMMENT1 != [] && COMMENT1[0] == '#'
  {
    hide OneLine, Strip;
    CommentMeans(COMMENT1);
  }

  lemma Comment2Clean()
    ensures OneLine(COMMENT2) && '$' !in COMMENT2 && Strip(COMMENT2) == COMMENT2 && COMMENT2 != [] && COMMENT2[0] == '#'
  {
    hide OneLine, Strip;
    CommentMeans(COMMENT2);
  }

  /** All lines of a table with clean names, comments included. */
  lemma ReadBehindComments(list: seq<Entry>, simple: bool, expand: text -> Option<text>)
    requires KeepsText(expand) && AllPlacedEntries(list) && CleanNames(list)
    ensures ReadLines(Lines(ToCsv(list, simple)), expand) == ReadLines(Rows(list, simple), expand)
  {
    hide COMMENT1, COMMENT2, Rows, Strip, OneLine, ReadLines, Lines, Unlines, KeepsText, AllPlacedEntries;
    var rows := Rows(list, simple);
    var all := [COMMENT1, COMMENT2] + rows;
    Comment1Clean();
    Comment2Clean();
    RowsOneLine(list, simple);
    assert forall i :: 0 <= i < |all| ==> OneLine(all[i]);
    LinesUnlines(all);
    assert all == [COMMENT1] + ([COMMENT2] + rows);
    ReadComment(COMMENT1, [COMMENT2] + rows, expand);
    ReadComment(COMMENT2, rows, expand);
  }

  /** Reading what was written gives the same entries in the same order, in either formatting. */
  lemma CsvRound(list: seq<Entry>, simple: bool, expand: text -> Option<text>)
    requires KeepsText(expand) && AllPlacedEntries(list) && AllSurvive(list, simple)
    ensures FromCsv(ToCsv(list, simple), expand) == Ok(FixedUp(list))
    ensures (forall i :: 0 <= i < |list| ==> list[i].size >= 0) ==> FromCsv(ToCsv(list, simple), expand) == Ok(list)
  {
    assert CleanNames(list) by {
      forall i | 0 <= i < |list| ensures CleanName(list[i].name) {
        assert Survives(list[i], simple);
      }
    }
    hide COMMENT1, COMMENT2, ReadLines, Rows, ToCsv, FixedUp, Lines, CleanNames, AllSurvive;
    ReadBehindComments(list, simple, expand);
    ReadRows(list, simple, expand);
    if forall i :: 0 <= i < |list| ==> list[i].size >= 0 {
      NothingOpen(list);
    }
  }

  /** The fix-up leaves complete entries alone. */
  lemma {:induction false} NothingOpen(list: seq<Entry>)
    requires AllPlacedEntries(list) && forall i :: 0 <= i < |list| ==> list[i].size >= 0
    ensures FixedUp(list) == list
  {
    if list != [] {
      var k := |list| - 1;
      NothingOpen(list[..k]);
      assert list == list[..k] + [list[k]];
    }
  }

  // ---------- Exactly which tables survive ----------

  /** A name that is read from a line of its own is clean. */
  lemma NameReadClean(line: text)
    requires Strip(line) == line && line != [] && line[0] != '#' && OneLine(line) && '$' !in line
    requires ParseLine(line).Ok?
    ensures CleanName(ParseLine(line).value.name)
  {
    var first := Split(line, ',')[0];
    NameRead(line);
    SplitFirst(line, ',');
    StripKeeps(first);
    StripExact(line);
    hide ParseLine, Split, Strip;
    PartOneLine(line, first);
    PartOneLine(line, Strip(first));
    if first == [] {
      StripExact(first);
    } else {
      assert first[0] == line[0];
    }
  }

  lemma PartOneLine(s: text, part: text)
    requires OneLine(s) && forall c :: c in part ==> c in s
    ensures OneLine(part)
  {
    forall i | 0 <= i < |part| ensures !IsBreak(part[i]) {
      assert part[i] in s;
    }
  }

  /** All names read from lines without variables are clean. */
  lemma {:induction false} NamesReadClean(lines: seq<text>, expand: text -> Option<text>)
    requires KeepsText(expand) && forall i :: 0 <= i < |lines| ==> OneLine(lines[i]) && '$' !in lines[i]
    requires ReadLines(lines, expand).Ok?
    ensures CleanNames(ReadLines(lines, expand).value)
  {
    if lines != [] {
      var line := Strip(lines[0]);
      assert expand(lines[0]) == Some(lines[0]);
      StripKeeps(lines[0]);
      StripExact(lines[0]);
      StripExact(line);
      PartOneLine(lines[0], line);
      hide Strip, ParseLine, OneLine, KeepsText, CleanName;
      NamesReadClean(lines[1..], expand);
      if line != [] && line[0] != '#' {
        NameReadClean(line);
      }
    }
  }

  /** A table with clean names fails to be read when some offset or size cannot be written. */
  lemma {:induction false} RowsRefused(list: seq<Entry>, simple: bool, expand: text -> Option<text>)
    requires KeepsText(expand) && AllPlacedEntries(list) && CleanNames(list) && !AllSurvive(list, simple)
    ensures ReadLines(Rows(list, simple), expand).Err?
  {
    var first, rest := list[0], list[1..];
    hide ReadLines, LineOf, KeepsText, CleanName, Writable;
    assert list == [first] + rest && CleanName(first.name) && CleanNames(rest);
    assert Survives(first, simple) ==> !AllSurvive(rest, simple);
    assert Rows(list, simple) == [LineOf(first, simple)] + Rows(rest, simple);
    hide AllSurvive, CleanNames, Rows;
    ReadEntry(first, Rows(rest, simple), simple, expand);
    if Survives(first, simple) {
      RowsRefused(rest, simple, expand);
    }
  }

  predicate NoVariables(list: seq<Entry>) {
    forall i :: 0 <= i < |list| ==> '$' !in list[i].name
  }

  lemma LineWithout(e: Entry, simple: bool)
    requires e.offset.Some? && '$' !in e.name
    ensures '$' !in LineOf(e, simple)
  {
    var named := e.(name := []);
    EmptyClean();
    RowClean(named, simple);
    assert forall i :: 1 <= i < 6 ==> Row(e, simple)[i] == Row(named, simple)[i];
    assert Row(e, simple)[0] == e.name;
    hide Row, Trim, OneLine;
    JoinWithout(Row(e, simple), ',', '$');
  }

  lemma {:induction false} RowsWithout(list: seq<Entry>, simple: bool)
    requires AllPlacedEntries(list) && NoVariables(list)
    ensures forall i :: 0 <= i < |list| ==> '$' !in Rows(list, simple)[i]
  {
    hide LineOf, Rows;
    if list != [] {
      LineWithout(list[0], simple);
      RowsCons(list, simple);
      RowsWithout(list[1..], simple);
      forall i | 0 <= i < |list| ensures '$' !in Rows(list, simple)[i] {
        if i > 0 {
          assert Rows(list, simple)[i] == Rows(list[1..], simple)[i - 1];
        }
      }
    }
  }

  lemma TextWithout(list: seq<Entry>, simple: bool)
    requires AllPlacedEntries(list) && NoVariables(list)
    ensures '$' !in ToCsv(list, simple)
  {
    Comment1Clean();
    Comment2Clean();
    RowsWithout(list, simple);
    hide COMMENT1, COMMENT2, Rows, Strip, OneLine;
    UnlinesWithout([COMMENT1, COMMENT2] + Rows(list, simple), '$');
  }

  lemma SameNames(list: seq<Entry>, other: seq<Entry>)
    requires FixedUp(list) == FixedUp(other)
    ensures |list| == |other| && forall i :: 0 <= i < |list| ==> list[i].name == other[i].name
  {
    FixedUpExact(list, FixedUp(list));
    FixedUpExact(other, FixedUp(other));
    var r := FixedUp(list);
    hide FixedUp;
    forall i | 0 <= i < |list| ensures list[i].name == other[i].name {
      assert PlacedBehind(list[i], r[i], EndBefore(r, i)) && PlacedBehind(other[i], r[i], EndBefore(r, i));
    }
  }

  /** A table without variables in its names is read back, fixed up, exactly when all its names are
      clean and all its offsets and sizes can be written. */
  lemma CsvExact(list: seq<Entry>, simple: bool, expand: text -> Option<text>)
    requires KeepsText(expand) && AllPlacedEntries(list) && NoVariables(list)
    ensures FromCsv(ToCsv(list, simple), expand) == Ok(FixedUp(list)) <==> AllSurvive(list, simple)
  {
    hide ReadLines, Rows, ToCsv, FixedUp, Lines, AllSurvive, CleanName, CleanNames, OneLine, KeepsText;
    var lines := Lines(ToCsv(list, simple));
    if AllSurvive(list, simple) {
      CsvRound(list, simple, expand);
    } else if FromCsv(ToCsv(list, simple), expand) == Ok(FixedUp(list)) {
      TextWithout(list, simple);
      LinesParts(ToCsv(list, simple));
      assert forall i :: 0 <= i < |lines| ==> OneLine(lines[i]) && '$' !in lines[i];
      var read := ReadLines(lines, expand).value;
      NamesReadClean(lines, expand);
      SameNames(list, read);
      SameClean(list, read);
      ReadBehindComments(list, simple, expand);
      RowsRefused(list, simple, expand);
    }
  }

  lemma SameClean(list: seq<Entry>, other: seq<Entry>)
    requires |list| == |other| && forall i :: 0 <= i < |list| ==> list[i].name == other[i].name
    requires CleanNames(other)
    ensures CleanNames(list)
  {
    hide CleanName;
  }
}
