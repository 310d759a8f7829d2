/** Multi-sector transfers of the SD driver, with their retries.

  Buffers are arrays of 512-byte blocks. The card is whatever answers the commands: for reading its
  answers are arbitrary, for writing they are a script with one entry per pass of the retry loop.
  A block the card delivers with a good CRC is taken to be the block on the card.
*/
module SdTransfer {
  import opened Rings
  import opened Wrappers

  type Block = seq<bv8>

  datatype CardType = NONE | MMC | SD | SDHC | UNKNOWN

  // ---------- Addresses ----------

  /** The 32-bit command argument for a sector: a block number or a byte offset, cut to 32 bits. */
  function Argument(kind: CardType, sector: nat): nat {
    (if kind == SDHC then sector else sector * 512) % 0x1_0000_0000
  }

  /** The block the card takes an argument to mean. */
  function BlockAt(kind: CardType, argument: nat): nat {
    if kind == SDHC then argument else argument / 512
  }

  function Capacity(kind: CardType): nat {
    if kind == SDHC then 0x1_0000_0000 else 0x80_0000
  }

  /** A command reaches the intended block exactly when its number is within the capacity. */
  lemma AddressExact(kind: CardType, sector: nat)
    ensures Argument(kind, sector) == (if kind == SDHC then sector else 512 * sector) % 0x1_0000_0000
    ensures Capacity(kind) == if kind == SDHC then 0x1_0000_0000 else 0x1_0000_0000 / 512
    ensures BlockAt(kind, Argument(kind, sector)) == sector <==> sector < Capacity(kind)
  {
  }

  // ---------- Reading ----------

  class Source {
    const kind: CardType
    const disk: nat -> Block
    var cursor: nat
    ghost var refused: bool  // some command was answered with an error
    ghost var failures: nat  // blocks lost in a row

    constructor (kind: CardType, disk: nat -> Block)
      ensures this.kind == kind && this.disk == disk && !refused && failures == 0
    {
      this.kind, this.disk, cursor := kind, disk, 0;
      refused, failures := false, 0;
    }

    /** READ_BLOCK_MULTIPLE: when accepted, the card streams from the addressed block on. */
    method StartRead(argument: nat) returns (token: nat)
      modifies this
      ensures token == 0 ==> cursor == BlockAt(kind, argument)
      ensures failures == old(failures) && refused == (old(refused) || token != 0)
    {
      token := *;
      cursor := BlockAt(kind, argument);
      refused := refused || token != 0;
    }

    /** STOP_TRANSMISSION. */
    method StopRead() returns (token: nat)
      modifies this
      ensures failures == old(failures) && refused == (old(refused) || token != 0)
    {
      token := *;
      refused := refused || token != 0;
    }

    /** One data block; on failure the buffer position may hold anything. */
    method ReadBytes(buffer: array<Block>, pos: nat) returns (ok: bool)
      requires pos < buffer.Length
      modifies this, buffer
      ensures ok ==> buffer[pos] == disk(old(cursor)) && cursor == old(cursor) + 1
      ensures forall k :: 0 <= k < buffer.Length && k != pos ==> buffer[k] == old(buffer[k])
      ensures refused == old(refused) && failures == if ok then 0 else old(failures) + 1
    {
      ok := *;
      failures := if ok then 0 else failures + 1;
      if ok {
        buffer[pos] := disk(cursor);
        cursor := cursor + 1;
      } else {
        var garbage: Block := *;
        buffer[pos] := garbage;
      }
    }
  }

  /** How a transfer ends: it may also go on past the end of the buffer, and a write may outlast its
      script of answers. */
  datatype Finish = Unfinished | Result(ok: bool) | Overrun

  /** Terminates whatever the card answers: each pass reads a sector or uses up a try. The count is
      tested after it has been lowered, so from zero down it is never met. */
  method ReadSectors(card: Source, buffer: array<Block>, first: nat, total: int) returns (result: Finish)
    requires total <= buffer.Length
    requires !card.refused && card.failures == 0
    modifies card, buffer
    ensures total > 0 ==> result == Result(!card.refused && card.failures < 3)
    ensures result != Unfinished && (total < 0 ==> result != Result(true))
    ensures result == Result(true) && first + total <= Capacity(card.kind) ==>
              forall k :: 0 <= k < total ==> buffer[k] == card.disk(first + k)
    ensures total > 0 ==> forall k :: total <= k < buffer.Length ==> buffer[k] == old(buffer[k])
  {
    ghost var within := first + total <= Capacity(card.kind);
    var f, sector, pos, count := 0, first, 0, total;
    while f < 3
      invariant f == card.failures && !card.refused
      invariant count == total - pos && sector == first + pos && pos <= buffer.Length && (total > 0 ==> count > 0)
      invariant total > 0 && within ==> forall k :: 0 <= k < pos ==> buffer[k] == card.disk(first + k)
      invariant total > 0 ==> forall k :: total <= k < buffer.Length ==> buffer[k] == old(buffer[k])
      decreases buffer.Length - pos, 3 - f
    {
      AddressExact(card.kind, sector);
      ghost var pos0, f0 := pos, f;
      var token := card.StartRead(Argument(card.kind, sector));
      if token != 0 {
        break;
      }
      var more := true;
      while more
        invariant f == card.failures && !card.refused
        invariant count == total - pos && sector == first + pos && pos <= buffer.Length
        invariant total > 0 ==> 0 <= count && (more ==> count > 0) && (!more && count == 0 ==> f == 0)
        invariant total > 0 && within && more ==> card.cursor == sector
        invariant total > 0 && within ==> forall k :: 0 <= k < pos ==> buffer[k] == card.disk(first + k)
        invariant total > 0 ==> forall k :: total <= k < buffer.Length ==> buffer[k] == old(buffer[k])
        invariant if more then pos > pos0 || (pos == pos0 && f == f0)
                  else pos > pos0 || (pos == pos0 && f == f0 + 1)
        decreases buffer.Length - pos, more
      {
        if pos == buffer.Length {
          return Overrun;
        }
        var good := card.ReadBytes(buffer, pos);
        if !good {
          f := f + 1;
          more := false;
        } else {
          sector := sector + 1;
          pos := pos + 1;
          f := 0;
          count := count - 1;
          more := count != 0;
        }
      }
      var stopToken := card.StopRead();
      if stopToken != 0 {
        break;
      }
      if count == 0 {
        return Result(true);
      }
    }
    return Result(false);
  }

  // ---------- Writing: one pass of the retry loop ----------

  /** The card's answers during one pass. */
  datatype Answers = Answers(
    prepared: bool,   // SET_WR_BLK_ERASE_COUNT, not sent to MMC cards
    started: bool,    // WRITE_BLOCK_MULTIPLE
    accepted: nat,    // blocks answered by 0x05 before another token comes
    token: nat,       // that other token
    stored: nat,      // how many of the accepted blocks a cancelled command has really written
    ready: bool,      // the card stops being busy
    stopped: bool,    // STOP_TRANSMISSION
    report: nat,      // SEND_NUM_WR_BLOCKS; 0 when it cannot be read
    status: bool)     // SEND_STATUS without error bits

  /** The disk and the loop's variables; `buf` counts blocks from the start of the buffer. */
  datatype Pass = Pass(disk: map<nat, Block>, buf: int, sector: int, count: int, f: nat)

  datatype Outcome =
    | Going(pass: Pass)
    | Returned(ok: bool, disk: map<nat, Block>)
    | Runaway // would write beyond the request

  const CRC_ERROR := 0x0A

  /** The transfer requested. */
  datatype Request = Request(kind: CardType, buffer: seq<Block>, first: nat, total: int) {
    predicate Valid() {
      total <= |buffer|
    }

    predicate WithinCapacity() {
      first < Capacity(kind) && first + total <= Capacity(kind)
    }
  }

  function Store(disk: map<nat, Block>, at: nat, blocks: seq<Block>): map<nat, Block> {
    if blocks == [] then
      disk
    else
      var k := |blocks| - 1;
      Store(disk, at, blocks[..k])[at + k := blocks[k]]
  }

  lemma {:induction false} StoreAt(disk: map<nat, Block>, at: nat, blocks: seq<Block>, sector: nat)
    ensures var d := Store(disk, at, blocks);
            if at <= sector < at + |blocks| then sector in d && d[sector] == blocks[sector - at]
            else (sector in d <==> sector in disk) && (sector in disk ==> d[sector] == disk[sector])
  {
    if blocks != [] {
      StoreAt(disk, at, blocks[..|blocks| - 1], sector);
    }
  }

  /** Blocks accepted by the card, and blocks written to it, in a pass over `count` blocks. */
  function Accepted(a: Answers, count: nat): nat {
    Min(a.accepted, count)
  }

  function Written(a: Answers, count: nat): nat {
    if a.accepted >= count && a.ready && a.status then count else Min(a.stored, Accepted(a, count))
  }

  /** The three cursors agree on the block to write next. */
  predicate InStep(q: Request, p: Pass) {
    p.buf >= 0 && p.sector == q.first + p.buf && p.count == q.total - p.buf
  }

  /** One pass. Whatever the card reports, the cursors are in step again at a restart. */
  function OnePass(q: Request, p: Pass, a: Answers): (o: Outcome)
    requires q.Valid() && InStep(q, p)
    ensures o.Going? ==> InStep(q, o.pass)
  {
    if q.kind != MMC && !a.prepared then Returned(false, p.disk)
    else if !a.started then Returned(false, p.disk)
    else if p.count <= 0 then Runaway
    else
      var at := BlockAt(q.kind, Argument(q.kind, p.sector));
      var disk := Store(p.disk, at, q.buffer[p.buf..p.buf + Written(a, p.count)]);
      if !a.ready then Returned(false, disk)
      else if a.accepted >= p.count then Returned(a.status, disk)
      else if !a.stopped || a.token != CRC_ERROR then Returned(false, disk)
      else Going(Pass(disk, Report(q, a), q.first + Report(q, a), q.total - Report(q, a),
                      (if a.accepted > 0 then 0 else p.f) + 1))
  }

  /** The block number the loop restarts from; MMC cards are not asked. */
  function Report(q: Request, a: Answers): nat {
    if q.kind == MMC then 0 else a.report
  }

  // ---------- Writing: whole runs ----------

  function Start(q: Request, disk: map<nat, Block>): Pass {
    Pass(disk, 0, q.first, q.total, 0)
  }

  /** The loop on a script of answers; still going when the script ends before the loop does. */
  function Run(q: Request, p: Pass, script: seq<Answers>): Outcome
    requires q.Valid() && InStep(q, p)
    decreases |script|
  {
    if p.f >= 3 then Returned(false, p.disk)
    else if script == [] then Going(p)
    else match OnePass(q, p, script[0])
      case Going(p') => Run(q, p', script[1..])
      case Returned(ok, disk) => Returned(ok, disk)
      case Runaway => Runaway
  }

  /** Block `i` of the request is in its place on the disk. */
  ghost predicate HasBlock(q: Request, disk: map<nat, Block>, i: nat) {
    i < |q.buffer| && q.first + i in disk && disk[q.first + i] == q.buffer[i]
  }

  /** The first `k` blocks of the request are. */
  ghost predicate HasBlocks(q: Request, disk: map<nat, Block>, k: int) {
    forall i :: 0 <= i < k ==> HasBlock(q, disk, i)
  }

  /** Only sectors of the request differ. */
  ghost predicate OnlyRequest(q: Request, before: map<nat, Block>, after: map<nat, Block>) {
    forall s: nat :: !(q.first <= s < q.first + q.total) ==>
      (s in after <==> s in before) && (s in before ==> after[s] == before[s])
  }

  /** No report in the run goes beyond the blocks already on the card. The source counts a report
      from the start of the request, although the card counts from the start of its last command;
      a card that counts its last command correctly therefore never over-reports. */
  ghost predicate NeverOverReports(q: Request, p: Pass, script: seq<Answers>)
    requires q.Valid() && InStep(q, p)
    decreases |script|
  {
    p.f >= 3 || script == [] || p.count <= 0 ||
    (OnePass(q, p, script[0]).Going? ==>
       && Report(q, script[0]) <= p.buf + Written(script[0], p.count)
       && NeverOverReports(q, OnePass(q, p, script[0]).pass, script[1..]))
  }

  lemma StoreExtends(q: Request, disk: map<nat, Block>, buf: nat, n: nat)
    requires buf + n <= q.total <= |q.buffer| && HasBlocks(q, disk, buf)
    ensures var d := Store(disk, q.first + buf, q.buffer[buf..buf + n]);
            HasBlocks(q, d, buf + n) && OnlyRequest(q, disk, d)
  {
    hide Store;
    var at, blocks := q.first + buf, q.buffer[buf..buf + n];
    var d := Store(disk, at, blocks);
    forall s: nat
      ensures !(q.first <= s < q.first + q.total) ==> (s in d <==> s in disk) && (s in disk ==> d[s] == disk[s])
    {
      StoreAt(disk, at, blocks, s);
    }
    forall i | 0 <= i < buf + n
      ensures HasBlock(q, d, i)
    {
      StoreAt(disk, at, blocks, q.first + i);
      if i < buf {
        assert HasBlock(q, disk, i);
      } else {
        assert blocks[i - buf] == q.buffer[i];
      }
    }
  }

  lemma PassStores(q: Request, p: Pass, a: Answers)
    requires q.Valid() && q.WithinCapacity() && InStep(q, p) && p.count > 0
    requires HasBlocks(q, p.disk, p.buf)
    ensures !OnePass(q, p, a).Runaway?
    ensures var o := OnePass(q, p, a);
            var disk := if o.Going? then o.pass.disk else o.disk;
            && OnlyRequest(q, p.disk, disk)
            && (o.Going? ==> HasBlocks(q, disk, p.buf + Written(a, p.count)) && Written(a, p.count) < p.count)
            && (o == Returned(true, disk) ==> HasBlocks(q, disk, q.total))
  {
    hide Store;
    AddressExact(q.kind, p.sector);
    StoreExtends(q, p.disk, p.buf, Written(a, p.count));
  }

  /** Main result: with such a card, every run that returns true has put every block of the request
      in its place, across any number of CRC retries and backward restarts; no run writes outside
      the request. */
  lemma {:induction false} WriteSafe(q: Request, p: Pass, script: seq<Answers>)
    requires q.Valid() && q.WithinCapacity() && InStep(q, p) && p.count > 0
    requires HasBlocks(q, p.disk, p.buf) && NeverOverReports(q, p, script)
    ensures match Run(q, p, script)
            case Going(p') => p'.count > 0 && OnlyRequest(q, p.disk, p'.disk) && HasBlocks(q, p'.disk, p'.buf)
            case Returned(ok, disk) => OnlyRequest(q, p.disk, disk) && (ok ==> HasBlocks(q, disk, q.total))
            case Runaway => false
    decreases |script|
  {
    if p.f < 3 && script != [] {
      hide OnePass, Written;
      PassStores(q, p, script[0]);
      var o := OnePass(q, p, script[0]);
      if o.Going? {
        NextCursor(q, p, script[0]);
        WriteSafe(q, o.pass, script[1..]);
      }
    }
  }

  lemma NextCursor(q: Request, p: Pass, a: Answers)
    requires q.Valid() && InStep(q, p) && OnePass(q, p, a).Going?
    ensures OnePass(q, p, a).pass.buf == Report(q, a)
  {
  }

  /** The condition on reports is needed: from a restart that skips a missing block, the next
      faultless pass returns true without it. */
  lemma RestartNeedsPrefix(q: Request, p: Pass, a: Answers, k: nat)
    requires q.Valid() && q.WithinCapacity() && InStep(q, p) && p.count > 0 && p.f < 3
    requires k < p.buf && !HasBlock(q, p.disk, k)
    requires a.prepared && a.started && a.accepted >= p.count && a.ready && a.status
    ensures var o := Run(q, p, [a]);
            o.Returned? && o.ok && !HasBlocks(q, o.disk, q.total)
  {
    AddressExact(q.kind, p.sector);
    StoreAt(p.disk, p.sector, q.buffer[p.buf..p.buf + p.count], q.first + k);
    var o := Run(q, p, [a]);
    assert !HasBlock(q, o.disk, k);
  }

  /** A pass without faults succeeds. */
  lemma FaultlessSucceeds(q: Request, p: Pass, a: Answers)
    requires q.Valid() && q.WithinCapacity() && InStep(q, p) && p.count > 0 && p.f < 3
    requires HasBlocks(q, p.disk, p.buf)
    requires a.prepared && a.started && a.accepted >= p.count && a.ready && a.status
    ensures var o := Run(q, p, [a]);
            o.Returned? && o.ok && HasBlocks(q, o.disk, q.total)
  {
    PassStores(q, p, a);
  }

  /** Block `i` of the request is written in this pass. */
  predicate WrittenInPass(q: Request, p: Pass, a: Answers, i: nat)
    requires q.Valid() && InStep(q, p)
  {
    (q.kind == MMC || a.prepared) && a.started && p.count > 0 && p.buf <= i < p.buf + Written(a, p.count)
  }

  /** The disk when a pass is over. */
  function DiskAfter(o: Outcome): map<nat, Block>
    requires !o.Runaway?
  {
    if o.Going? then o.pass.disk else o.disk
  }

  lemma PassExact(q: Request, p: Pass, a: Answers, i: nat)
    requires q.Valid() && q.WithinCapacity() && InStep(q, p) && p.count > 0 && i < q.total
    ensures HasBlock(q, DiskAfter(OnePass(q, p, a)), i) <==> WrittenInPass(q, p, a, i) || HasBlock(q, p.disk, i)
  {
    var blocks := q.buffer[p.buf..p.buf + Written(a, p.count)];
    AddressExact(q.kind, p.sector);
    StoreAt(p.disk, p.sector, blocks, q.first + i);
    hide Store, BlockAt, Argument, Written;
    if p.buf <= i < p.buf + |blocks| {
      assert blocks[i - p.buf] == q.buffer[i];
      assert p.sector <= q.first + i < p.sector + |blocks|;
    } else {
      assert !(p.sector <= q.first + i < p.sector + |blocks|);
    }
  }

  // ---------- The outcome of a run, read off the answers ----------

  /** The block a pass starts from: what the card has reported at the end of the pass before. */
  function From(q: Request, script: seq<Answers>, k: nat): nat
    requires k <= |script|
  {
    if k == 0 || q.kind == MMC then 0 else script[k - 1].report
  }

  function Left(q: Request, script: seq<Answers>, k: nat): int
    requires k <= |script|
  {
    q.total - From(q, script, k)
  }

  /** The commands that begin a pass are accepted. */
  predicate Taken(q: Request, a: Answers) {
    (q.kind == MMC || a.prepared) && a.started
  }

  /** The pass stops at a block lost to a CRC error, and the card can go on. */
  predicate Interrupted(q: Request, script: seq<Answers>, k: nat)
    requires k < |script|
  {
    var a := script[k];
    Taken(q, a) && a.accepted < Left(q, script, k) && a.ready && a.stopped && a.token == 0x0A
  }

  /** Three passes in a row have failed at their first block, the first of them perhaps later. */
  predicate Exhausted(script: seq<Answers>, k: nat)
    requires k < |script|
  {
    k >= 2 && script[k - 1].accepted == 0 && script[k].accepted == 0
  }

  predicate Retried(q: Request, script: seq<Answers>, k: nat)
    requires k < |script|
  {
    Interrupted(q, script, k) && !Exhausted(script, k)
  }

  /** All passes before pass `k` are followed by another. */
  predicate Reaches(q: Request, script: seq<Answers>, k: nat)
    requires k <= |script|
  {
    forall j :: 0 <= j < k ==> Retried(q, script, j)
  }

  /** All blocks left are accepted, the card becomes ready, and its status is clean. */
  predicate Completes(q: Request, script: seq<Answers>, k: nat)
    requires k < |script|
  {
    var a := script[k];
    Taken(q, a) && 0 < Left(q, script, k) <= a.accepted && a.ready && a.status
  }

  /** The pass would write behind the request. */
  predicate GoesPast(q: Request, script: seq<Answers>, k: nat)
    requires k < |script|
  {
    Taken(q, script[k]) && Left(q, script, k) <= 0
  }

  /** Some pass of the run completes the request. */
  ghost predicate Succeeds(q: Request, script: seq<Answers>) {
    exists k: nat :: k < |script| && Reaches(q, script, k) && Completes(q, script, k)
  }

  /** Some pass goes past its end. */
  ghost predicate Escapes(q: Request, script: seq<Answers>) {
    exists k: nat :: k < |script| && Reaches(q, script, k) && GoesPast(q, script, k)
  }

  /** Some pass does neither, and is the last. */
  ghost predicate Fails(q: Request, script: seq<Answers>) {
    exists k: nat :: k < |script| && Reaches(q, script, k) &&
      !Retried(q, script, k) && !Completes(q, script, k) && !GoesPast(q, script, k)
  }

  /** Tries without progress before pass `k`. */
  function Tries(script: seq<Answers>, k: nat): nat
    requires k <= |script|
  {
    if k == 0 then 0 else (if script[k - 1].accepted > 0 then 0 else Tries(script, k - 1)) + 1
  }

  lemma TriesMean(script: seq<Answers>, k: nat)
    requires k < |script| && Tries(script, k) < 3
    ensures Tries(script, k + 1) >= 3 <==> Exhausted(script, k)
  {
    if k >= 1 {
      assert Tries(script, k) == (if script[k - 1].accepted > 0 then 0 else Tries(script, k - 1)) + 1;
    }
  }

  /** The variables of the loop when pass `k` begins, on some disk. */
  ghost predicate Before(q: Request, script: seq<Answers>, k: nat, p: Pass)
    requires k <= |script|
  {
    && p.buf == From(q, script, k) && p.sector == q.first + p.buf && p.count == Left(q, script, k)
    && p.f == Tries(script, k) < 3
  }

  lemma OnePassExact(q: Request, script: seq<Answers>, k: nat, p: Pass)
    requires q.Valid() && k < |script| && Before(q, script, k, p)
    ensures var o := OnePass(q, p, script[k]);
            && (o.Going? <==> Interrupted(q, script, k))
            && (o.Runaway? <==> GoesPast(q, script, k))
            && (o.Returned? && o.ok <==> Completes(q, script, k))
            && (Retried(q, script, k) ==> Before(q, script, k + 1, o.pass))
            && (o.Going? && Exhausted(script, k) ==> o.pass.f >= 3)
  {
    TriesMean(script, k);
    hide Written, Store, BlockAt, Argument;
  }

  /** A pass that is reached begins in that state. */
  lemma {:induction false} Reached(q: Request, disk: map<nat, Block>, script: seq<Answers>, k: nat) returns (p: Pass)
    requires q.Valid() && k <= |script| && Reaches(q, script, k)
    ensures Before(q, script, k, p) && InStep(q, p)
    ensures Run(q, Start(q, disk), script) == Run(q, p, script[k..])
  {
    hide OnePass, Retried, Interrupted, Exhausted;
    if k == 0 {
      p := Start(q, disk);
      assert script[0..] == script;
    } else {
      var p0 := Reached(q, disk, script, k - 1);
      assert Retried(q, script, k - 1);
      OnePassExact(q, script, k - 1, p0);
      RetriedGoes(q, script, k - 1);
      RunStep(q, p0, script[k - 1..]);
      assert script[k - 1..][1..] == script[k..];
      p := OnePass(q, p0, script[k - 1]).pass;
    }
  }

  lemma RetriedGoes(q: Request, script: seq<Answers>, k: nat)
    requires k < |script| && Retried(q, script, k)
    ensures Interrupted(q, script, k)
  {
  }

  /** The first pass that is not retried decides. */
  lemma Decided(q: Request, disk: map<nat, Block>, script: seq<Answers>, k: nat)
    requires q.Valid() && k < |script| && Reaches(q, script, k) && !Retried(q, script, k)
    ensures var o := Run(q, Start(q, disk), script);
            && !o.Going?
            && (o.Runaway? <==> GoesPast(q, script, k))
            && (o.Returned? && o.ok <==> Completes(q, script, k))
  {
    hide Completes, GoesPast, OnePass, Reaches;
    var p := Reached(q, disk, script, k);
    OnePassExact(q, script, k, p);
    RunStep(q, p, script[k..]);
  }

  lemma Undecided(q: Request, disk: map<nat, Block>, script: seq<Answers>)
    requires q.Valid() && Reaches(q, script, |script|)
    ensures Run(q, Start(q, disk), script).Going?
  {
    hide Reaches;
    var p := Reached(q, disk, script, |script|);
  }

  lemma {:induction false} FirstDecided(q: Request, script: seq<Answers>, n: nat) returns (k: nat)
    requires n <= |script|
    ensures k <= n && Reaches(q, script, k) && (k < n ==> !Retried(q, script, k))
  {
    hide Retried;
    if n == 0 {
      k := 0;
    } else {
      k := FirstDecided(q, script, n - 1);
      if k == n - 1 && Retried(q, script, k) {
        k := n;
      }
    }
  }

  lemma NotBoth(q: Request, script: seq<Answers>, k: nat)
    requires k < |script| && (Completes(q, script, k) || GoesPast(q, script, k))
    ensures !Retried(q, script, k) && !(Completes(q, script, k) && GoesPast(q, script, k))
  {
  }

  /** What a run comes to: true exactly if some pass completes the request and each pass before it was
      interrupted by a CRC error, with the card able to go on, and never three times in a row without a
      block; unfinished exactly if all passes were; and so for the other two outcomes. */
  lemma OutcomeExact(q: Request, disk: map<nat, Block>, script: seq<Answers>)
    requires q.Valid()
    ensures var o := Run(q, Start(q, disk), script);
            && (o.Returned? && o.ok <==> Succeeds(q, script))
            && (o.Returned? && !o.ok <==> Fails(q, script))
            && (o.Runaway? <==> Escapes(q, script))
            && (o.Going? <==> Reaches(q, script, |script|))
  {
    hide Run, Completes, GoesPast, Retried, Reaches;
    var k := FirstDecided(q, script, |script|);
    if k == |script| {
      Undecided(q, disk, script);
    } else {
      Decided(q, disk, script, k);
    }
    forall j: nat | j < |script| && Reaches(q, script, j) && !Retried(q, script, j)
      ensures j == k
    {
      SameDecision(q, script, j, k);
    }
    forall j: nat | j < |script|
      ensures Completes(q, script, j) || GoesPast(q, script, j) ==> !Retried(q, script, j)
      ensures !(Completes(q, script, j) && GoesPast(q, script, j))
    {
      if Completes(q, script, j) || GoesPast(q, script, j) {
        NotBoth(q, script, j);
      }
    }
    if k < |script| && Reaches(q, script, |script|) {
      SameDecision(q, script, k, |script|);
    }
  }

  /** Only one pass is the last. */
  lemma SameDecision(q: Request, script: seq<Answers>, j: nat, k: nat)
    requires j < |script| && k <= |script| && Reaches(q, script, j) && !Retried(q, script, j)
    requires Reaches(q, script, k) && (k < |script| ==> !Retried(q, script, k))
    ensures j == k
  {
    hide Retried;
  }

  /** Pass `k` writes block `i` of the request. */
  predicate WrittenAt(q: Request, script: seq<Answers>, k: nat, i: nat)
    requires k < |script|
  {
    var from := From(q, script, k);
    Taken(q, script[k]) && from <= i < q.total && i < from + Written(script[k], q.total - from)
  }

  /** Some pass that is made does. */
  ghost predicate WrittenInRun(q: Request, script: seq<Answers>, i: nat) {
    exists k: nat :: k < |script| && Reaches(q, script, k) && WrittenAt(q, script, k, i)
  }

  /** The disk when pass `k` is over. */
  lemma StoredAt(q: Request, script: seq<Answers>, k: nat, p: Pass, i: nat)
    requires q.Valid() && q.WithinCapacity() && k < |script| && i < q.total
    requires Before(q, script, k, p) && InStep(q, p) && !OnePass(q, p, script[k]).Runaway?
    ensures HasBlock(q, DiskAfter(OnePass(q, p, script[k])), i) <==>
              WrittenAt(q, script, k, i) || HasBlock(q, p.disk, i)
  {
    if p.count > 0 {
      PassExact(q, p, script[k], i);
    }
    WrittenFits(script[k], if p.count > 0 then p.count else 0);
    hide Written, HasBlock;
  }

  /** The disk when pass `k` begins. */
  lemma {:induction false} StoredBefore(q: Request, disk: map<nat, Block>, script: seq<Answers>, k: nat, i: nat)
    returns (p: Pass)
    requires q.Valid() && q.WithinCapacity() && k <= |script| && Reaches(q, script, k) && i < q.total
    ensures Before(q, script, k, p) && InStep(q, p)
    ensures Run(q, Start(q, disk), script) == Run(q, p, script[k..])
    ensures HasBlock(q, p.disk, i) <==>
              (exists j :: 0 <= j < k && WrittenAt(q, script, j, i)) || HasBlock(q, disk, i)
  {
    hide OnePass, Retried, Interrupted, Exhausted, HasBlock, WrittenAt;
    if k == 0 {
      p := Start(q, disk);
      assert script[0..] == script;
    } else {
      var p0 := StoredBefore(q, disk, script, k - 1, i);
      assert Retried(q, script, k - 1);
      OnePassExact(q, script, k - 1, p0);
      RetriedGoes(q, script, k - 1);
      StoredAt(q, script, k - 1, p0, i);
      RunStep(q, p0, script[k - 1..]);
      assert script[k - 1..][1..] == script[k..];
      p := OnePass(q, p0, script[k - 1]).pass;
      OneMore(q, script, k - 1, i);
    }
  }

  lemma OneMore(q: Request, script: seq<Answers>, k: nat, i: nat)
    requires k < |script|
    ensures (exists j :: 0 <= j < k + 1 && WrittenAt(q, script, j, i)) <==>
            (exists j :: 0 <= j < k && WrittenAt(q, script, j, i)) || WrittenAt(q, script, k, i)
  {
    hide WrittenAt;
  }

  /** Which passes are made: those up to the first that is not retried. */
  lemma ReachedExact(q: Request, script: seq<Answers>, k: nat, i: nat)
    requires k <= |script| && Reaches(q, script, k) && (k < |script| ==> !Retried(q, script, k))
    ensures WrittenInRun(q, script, i) <==>
            (exists j :: 0 <= j < k && WrittenAt(q, script, j, i)) || (k < |script| && WrittenAt(q, script, k, i))
  {
    hide WrittenAt, Retried;
    if j: nat :| j < |script| && Reaches(q, script, j) && WrittenAt(q, script, j, i) {
      assert j <= k;
    }
    if j :| 0 <= j < k && WrittenAt(q, script, j, i) {
      assert Reaches(q, script, j);
    }
  }

  /** Exactly which blocks are in place after a run, whatever the card reports: those written by one
      of its passes, and those that were there before. */
  lemma RunExact(q: Request, disk: map<nat, Block>, script: seq<Answers>, i: nat)
    requires q.Valid() && q.WithinCapacity() && i < q.total
    requires !Run(q, Start(q, disk), script).Runaway?
    ensures HasBlock(q, DiskAfter(Run(q, Start(q, disk), script)), i) <==>
              WrittenInRun(q, script, i) || HasBlock(q, disk, i)
  {
    hide HasBlock, WrittenInRun, WrittenAt, OnePass, Retried, Reaches, GoesPast, Completes;
    var k := FirstDecided(q, script, |script|);
    var p := StoredBefore(q, disk, script, k, i);
    ReachedExact(q, script, k, i);
    if k < |script| {
      LastPass(q, p, script, k);
      StoredAt(q, script, k, p, i);
    } else {
      RunEnd(q, p, script[k..]);
    }
  }

  lemma LastPass(q: Request, p: Pass, script: seq<Answers>, k: nat)
    requires q.Valid() && k < |script| && Before(q, script, k, p) && InStep(q, p) && !Retried(q, script, k)
    requires !Run(q, p, script[k..]).Runaway?
    ensures !OnePass(q, p, script[k]).Runaway?
    ensures DiskAfter(Run(q, p, script[k..])) == DiskAfter(OnePass(q, p, script[k]))
  {
    OnePassExact(q, script, k, p);
    RunStep(q, p, script[k..]);
    hide OnePass, Interrupted, Completes, GoesPast;
    var o := OnePass(q, p, script[k]);
    if o.Going? {
      RunEnd(q, o.pass, script[k..][1..]);
    }
  }

  // ---------- When the loop ends ----------

  /** A report is counted from the start of the request, so retries need not make progress: here the
      card takes one block in each pass and its count cannot be read. */
  function OneBlockEachTime(): Answers {
    Answers(true, true, 1, CRC_ERROR, 1, true, true, 0, true)
  }

  function Repeated(a: Answers, n: nat): seq<Answers> {
    if n == 0 then [] else [a] + Repeated(a, n - 1)
  }

  /** With two blocks or more, and any kind of card, the loop may go on for ever. */
  lemma {:induction false} Livelock(q: Request, p: Pass, n: nat)
    requires q.Valid() && q.total > 1 && InStep(q, p) && p.buf == 0 && p.f <= 1
    ensures var script := Repeated(OneBlockEachTime(), n);
            |script| == n && NeverOverReports(q, p, script) && Run(q, p, script).Going?
    decreases n
  {
    if n > 0 {
      var a, script := OneBlockEachTime(), Repeated(OneBlockEachTime(), n);
      assert script[0] == a && script[1..] == Repeated(a, n - 1);
      Livelock(q, OnePass(q, p, a).pass, n - 1);
    }
  }

  /** A single block is tried three times at most. */
  lemma {:induction false} OneBlockEnds(q: Request, p: Pass, script: seq<Answers>)
    requires q.Valid() && q.total == 1 && InStep(q, p) && p.buf == 0 && p.f <= 3
    requires |script| >= 3 - p.f && NeverOverReports(q, p, script)
    ensures !Run(q, p, script).Going?
    decreases 3 - p.f
  {
    if p.f < 3 {
      var o := OnePass(q, p, script[0]);
      if o.Going? {
        NextCursor(q, p, script[0]);
        WrittenFits(script[0], p.count);
        assert o.pass.f == p.f + 1;
        OneBlockEnds(q, o.pass, script[1..]);
      }
    }
  }

  /** Every run in which the card never over-reports is over after `n` passes. */
  ghost predicate EndsWithin(q: Request, disk: map<nat, Block>, n: nat)
    requires q.Valid()
  {
    forall script :: |script| >= n && NeverOverReports(q, Start(q, disk), script) ==>
      !Run(q, Start(q, disk), script).Going?
  }

  /** The retry loop is sure to end exactly for requests of at most one block, and then after three
      passes. */
  lemma EndsExact(q: Request, disk: map<nat, Block>)
    requires q.Valid()
    ensures q.total <= 1 <==> EndsWithin(q, disk, 3)
    ensures q.total <= 1 <==> exists n: nat :: EndsWithin(q, disk, n)
  {
    var p := Start(q, disk);
    if q.total <= 1 {
      forall script | |script| >= 3 && NeverOverReports(q, p, script)
        ensures !Run(q, p, script).Going?
      {
        if q.total == 1 {
          OneBlockEnds(q, p, script);
        }
      }
      assert EndsWithin(q, disk, 3);
    } else {
      forall n: nat ensures !EndsWithin(q, disk, n) {
        Livelock(q, p, n);
        assert !(!Run(q, p, Repeated(OneBlockEachTime(), n)).Going?);
      }
    }
  }

  // ---------- Writing: the loop itself ----------

  class Target {
    const kind: CardType
    var disk: map<nat, Block>

    constructor (kind: CardType, disk: map<nat, Block>)
      ensures this.kind == kind && this.disk == disk
    {
      this.kind, this.disk := kind, disk;
    }

    /** The card writes what it has accepted, from the block its command addressed. */
    method Program(argument: nat, buffer: array<Block>, from: nat, n: nat)
      requires from + n <= buffer.Length
      modifies this
      ensures disk == Store(old(disk), BlockAt(kind, argument), buffer[from..from + n])
    {
      var at := BlockAt(kind, argument);
      for i := 0 to n
        invariant disk == Store(old(disk), at, buffer[from..from + i])
      {
        assert buffer[from..from + i + 1][..i] == buffer[from..from + i];
        disk := disk[at + i := buffer[from + i]];
      }
    }

    /** It writes a single block when it answers with the token 0x05. */
    method Answer(argument: nat, block: Block, token: nat)
      modifies this
      ensures disk == if token == 0x05 then old(disk)[BlockAt(kind, argument) := block] else old(disk)
    {
      if token == 0x05 {
        disk := disk[BlockAt(kind, argument) := block];
      }
    }
  }

  /** Sends blocks until one is not accepted or none is left; `f` counts tries without progress. */
  method SendBlocks(a: Answers, count0: nat, f0: nat) returns (sent: nat, count: nat, f: nat)
    requires count0 > 0
    ensures sent == Accepted(a, count0) && count == count0 - sent
    ensures f == if count == 0 then 0 else (if sent > 0 then 0 else f0) + 1
  {
    sent, count, f := 0, count0, f0;
    var more := true;
    while more
      invariant sent == count0 - count && sent <= a.accepted && 0 <= count <= count0
      invariant more ==> count > 0 && f == if sent > 0 then 0 else f0
      invariant !more ==> (count == 0 && f == 0) ||
                          (count > 0 && sent == a.accepted && f == (if sent > 0 then 0 else f0) + 1)
      decreases count, more
    {
      if sent == a.accepted {
        f := f + 1;
        more := false;
      } else {
        sent := sent + 1;
        f := 0;
        count := count - 1;
        more := count != 0;
      }
    }
  }

  /** The retry loop, against the specification of a run. */
  method RetryLoop(card: Target, buffer: array<Block>, first: nat, total: int, script: seq<Answers>)
    returns (result: Finish)
    requires total <= buffer.Length
    modifies card
    ensures var q := Request(card.kind, buffer[..], first, total);
            match Run(q, Start(q, old(card.disk)), script)
            case Going(p) => result == Unfinished && card.disk == p.disk
            case Returned(ok, disk) => result == Result(ok) && card.disk == disk
            case Runaway => result == Overrun
  {
    hide Run, Store, BlockAt, Argument, Written;
    ghost var q := Request(card.kind, buffer[..], first, total);
    var currentBuffer, currentSector, currentCount: int, f, i := 0, first, total, 0, 0;
    assert script[0..] == script;
    while f < 3 && i < |script|
      invariant 0 <= i <= |script| && 0 <= currentBuffer && buffer[..] == q.buffer
      invariant var p := Pass(card.disk, currentBuffer, currentSector, currentCount, f);
                InStep(q, p) && Run(q, Start(q, old(card.disk)), script) == Run(q, p, script[i..])
      decreases |script| - i
    {
      ghost var p := Pass(card.disk, currentBuffer, currentSector, currentCount, f);
      var a := script[i];
      RunStep(q, p, script[i..]);
      assert script[i..][1..] == script[i + 1..];
      i := i + 1;
      if card.kind != MMC && !a.prepared {
        return Result(false);
      }
      if !a.started {
        return Result(false);
      }
      if currentCount <= 0 {
        return Overrun;
      }
      WrittenFits(a, currentCount);
      var written := Written(a, currentCount);
      var sent, left, tries := SendBlocks(a, currentCount, f);
      card.Program(Argument(card.kind, currentSector), buffer, currentBuffer, written);
      currentBuffer, currentCount, f := currentBuffer + sent, left, tries;
      if !a.ready {
        return Result(false);
      }
      if currentCount == 0 {
        return Result(a.status);
      }
      if !a.stopped {
        return Result(false);
      }
      if a.token != CRC_ERROR {
        return Result(false);
      }
      var writtenBlocks := if card.kind != MMC then a.report else 0;
      currentBuffer := writtenBlocks;
      currentSector := first + writtenBlocks;
      currentCount := total - writtenBlocks;
    }
    RunEnd(q, Pass(card.disk, currentBuffer, currentSector, currentCount, f), script[i..]);
    return if f < 3 then Unfinished else Result(false);
  }

  method WriteSectors(card: Target, buffer: array<Block>, first: nat, total: int, script: seq<Answers>)
    returns (result: Finish)
    requires total <= buffer.Length
    modifies card
    ensures var q := Request(card.kind, buffer[..], first, total);
            match Run(q, Start(q, old(card.disk)), script)
            case Going(p) => result == Unfinished && card.disk == p.disk
            case Returned(ok, disk) => result == Result(ok) && card.disk == disk
            case Runaway => result == Overrun
    ensures var q := Request(card.kind, buffer[..], first, total);
            && (result == Result(true) <==> Succeeds(q, script))
            && (result == Result(false) <==> Fails(q, script))
            && (result == Overrun <==> Escapes(q, script))
            && (result == Unfinished <==> Reaches(q, script, |script|))
    ensures var q := Request(card.kind, buffer[..], first, total);
            total > 0 && q.WithinCapacity() && NeverOverReports(q, Start(q, old(card.disk)), script) ==>
              result != Overrun && (result == Result(true) ==> HasBlocks(q, card.disk, total))
  {
    hide Run, NeverOverReports, Store, BlockAt, Argument, Written, HasBlocks, OnlyRequest, Succeeds, Fails, Escapes,
         Reaches;
    ghost var q := Request(card.kind, buffer[..], first, total);
    OutcomeExact(q, card.disk, script);
    NoBlocksYet(q, card.disk);
    if total > 0 && q.WithinCapacity() && NeverOverReports(q, Start(q, card.disk), script) {
      WriteSafe(q, Start(q, card.disk), script);
    }
    result := RetryLoop(card, buffer, first, total, script);
  }

  lemma RunStep(q: Request, p: Pass, script: seq<Answers>)
    requires q.Valid() && InStep(q, p) && p.f < 3 && script != []
    ensures var o := OnePass(q, p, script[0]);
            Run(q, p, script) == if o.Going? then Run(q, o.pass, script[1..]) else o
  {
  }

  lemma RunEnd(q: Request, p: Pass, script: seq<Answers>)
    requires q.Valid() && InStep(q, p) && (p.f >= 3 || script == [])
    ensures Run(q, p, script) == if p.f < 3 then Going(p) else Returned(false, p.disk)
  {
  }

  lemma NoBlocksYet(q: Request, disk: map<nat, Block>)
    ensures HasBlocks(q, disk, 0)
  {
  }

  lemma WrittenFits(a: Answers, count: nat)
    ensures Written(a, count) <= count
    ensures a.accepted < count ==> Written(a, count) < count
  {
  }

  // ---------- Single sectors, and the entry point of the file system ----------

  datatype SingleAnswers = SingleAnswers(started: bool, token: nat, status: bool)

  /** A single-sector write with at most three tries; token 0 stands for a card that stayed busy. */
  function RunSingle(disk: map<nat, Block>, at: nat, block: Block, f: nat, script: seq<SingleAnswers>)
    : (Option<bool>, map<nat, Block>)
    requires f <= 3
    decreases 3 - f
  {
    if f == 3 then (Some(false), disk)
    else if script == [] then (None, disk)
    else
      var a := script[0];
      var disk' := if a.started && a.token == 0x05 then disk[at := block] else disk;
      if !a.started then (Some(false), disk')
      else if a.token == 0x0A then RunSingle(disk', at, block, f + 1, script[1..])
      else if a.token == 0x0C then (Some(false), disk')
      else (Some(a.status), disk')
  }

  /** A try whose block is lost to a CRC error. */
  predicate LostTry(a: SingleAnswers) {
    a.started && a.token == 0x0A
  }

  /** A try that is taken for success: any token but the two errors will do. */
  predicate GoodTry(a: SingleAnswers) {
    a.started && a.token != 0x0A && a.token != 0x0C && a.status
  }

  /** All tries before try `k` are lost. */
  predicate AllLost(script: seq<SingleAnswers>, k: nat)
    requires k <= |script|
  {
    forall j :: 0 <= j < k ==> LostTry(script[j])
  }

  /** One of the first `n` tries is good, and those before it are lost. */
  ghost predicate GoodWithin(script: seq<SingleAnswers>, n: nat) {
    exists k: nat :: k < |script| && k < n && AllLost(script, k) && GoodTry(script[k])
  }

  /** One of them stores the block. */
  ghost predicate StoredWithin(script: seq<SingleAnswers>, n: nat) {
    exists k: nat :: k < |script| && k < n && AllLost(script, k) && script[k].started && script[k].token == 0x05
  }

  lemma AllLostCons(script: seq<SingleAnswers>, k: nat)
    requires 0 < k <= |script|
    ensures AllLost(script, k) <==> LostTry(script[0]) && AllLost(script[1..], k - 1)
  {
    hide LostTry;
    if LostTry(script[0]) && AllLost(script[1..], k - 1) {
      forall j | 0 <= j < k ensures LostTry(script[j]) {
        if j > 0 {
          assert LostTry(script[1..][j - 1]);
        }
      }
    }
  }

  lemma WithinCons(script: seq<SingleAnswers>, n: nat)
    requires script != [] && n > 0
    ensures GoodWithin(script, n) <==>
            GoodTry(script[0]) || (LostTry(script[0]) && GoodWithin(script[1..], n - 1))
    ensures StoredWithin(script, n) <==>
            (script[0].started && script[0].token == 0x05) || (LostTry(script[0]) && StoredWithin(script[1..], n - 1))
  {
    hide AllLost, GoodTry, LostTry;
    forall k: nat | 0 < k < |script|
      ensures AllLost(script, k) <==> LostTry(script[0]) && AllLost(script[1..], k - 1)
    {
      AllLostCons(script, k);
    }
    NoneLost(script);
    var rest := script[1..];
    if k: nat :| k < |rest| && k < n - 1 && AllLost(rest, k) && GoodTry(rest[k]) {
      assert LostTry(script[0]) ==> AllLost(script, k + 1) && GoodTry(script[k + 1]);
    }
    if k: nat :| k < |rest| && k < n - 1 && AllLost(rest, k) && rest[k].started && rest[k].token == 0x05 {
      assert LostTry(script[0]) ==> AllLost(script, k + 1) && script[k + 1].token == 0x05;
    }
    if k: nat :| k < |script| && k < n && AllLost(script, k) && GoodTry(script[k]) && k > 0 {
      assert AllLost(rest, k - 1) && GoodTry(rest[k - 1]);
    }
    if k: nat :| k < |script| && k < n && AllLost(script, k) && script[k].started && script[k].token == 0x05 && k > 0 {
      assert AllLost(rest, k - 1) && rest[k - 1].token == 0x05;
    }
  }

  lemma NoneLost(script: seq<SingleAnswers>)
    ensures AllLost(script, 0)
  {
  }

  /** What a single-sector write comes to: true exactly if one of three tries is good after lost ones;
      unfinished exactly if the script ends before that; and the block is stored exactly by 0x05. */
  lemma {:induction false} SingleOutcome(
      disk: map<nat, Block>, at: nat, block: Block, f: nat, script: seq<SingleAnswers>)
    requires f <= 3
    ensures var (result, disk') := RunSingle(disk, at, block, f, script);
            && (result == Some(true) <==> GoodWithin(script, 3 - f))
            && (result == None <==> |script| < 3 - f && AllLost(script, |script|))
            && disk' == if StoredWithin(script, 3 - f) then disk[at := block] else disk
    decreases 3 - f
  {
    if f < 3 && script != [] {
      WithinCons(script, 3 - f);
      AllLostCons(script, |script|);
      hide GoodWithin, StoredWithin, AllLost;
      if LostTry(script[0]) {
        SingleOutcome(disk, at, block, f + 1, script[1..]);
      }
    }
  }

  /** The loop of a single-sector write. */
  method WriteSector(card: Target, block: Block, first: nat, script: seq<SingleAnswers>) returns (result: Finish)
    modifies card
    ensures result == Result(true) <==> GoodWithin(script, 3)
    ensures result == Unfinished <==> |script| < 3 && AllLost(script, |script|)
    ensures result != Overrun
    ensures var at := BlockAt(card.kind, Argument(card.kind, first));
            card.disk == if StoredWithin(script, 3) then old(card.disk)[at := block] else old(card.disk)
  {
    hide Argument, BlockAt, GoodWithin, StoredWithin, AllLost;
    ghost var disk0 := card.disk;
    ghost var at := BlockAt(card.kind, Argument(card.kind, first));
    SingleOutcome(disk0, at, block, 0, script);
    assert script[0..] == script;
    var f := 0;
    while f < 3 && f < |script|
      invariant 0 <= f <= 3 && f <= |script|
      invariant RunSingle(disk0, at, block, 0, script) == RunSingle(card.disk, at, block, f, script[f..])
    {
      var a := script[f];
      assert script[f..][1..] == script[f + 1..];
      if !a.started {
        break;
      }
      card.Answer(Argument(card.kind, first), block, a.token);
      if a.token == 0x0A {
        f := f + 1;
        continue;
      } else if a.token == 0x0C {
        return Result(false);
      }
      return Result(a.status);
    }
    return if f < 3 && f == |script| then Unfinished else Result(false);
  }

  /** The first answer that is not a CRC error decides; true is returned for every token but 0x0C. */
  function Decisive(script: seq<SingleAnswers>): nat {
    if script != [] && script[0].started && script[0].token == 0x0A then 1 + Decisive(script[1..]) else 0
  }

  /** When a single-sector write returns true, the block is on the card exactly when it was there
      already or the deciding token was 0x05; the source does not look at the other tokens. */
  lemma {:induction false} SingleExact(disk: map<nat, Block>, at: nat, block: Block, f: nat, script: seq<SingleAnswers>)
    requires f <= 3 && RunSingle(disk, at, block, f, script).0 == Some(true)
    ensures Decisive(script) < |script|
    ensures var disk' := RunSingle(disk, at, block, f, script).1;
            (at in disk' && disk'[at] == block) <==>
              (script[Decisive(script)].token == 0x05 || (at in disk && disk[at] == block))
    decreases 3 - f
  {
    if script[0].token == 0x0A {
      SingleExact(disk, at, block, f + 1, script[1..]);
    }
  }

  /** `ff_sd_write`: the result of the multi-sector transfer is replaced by that of a second,
      single-sector write of the first block. */
  function FileSystemWrite(q: Request, disk: map<nat, Block>, script: seq<Answers>, single: seq<SingleAnswers>)
    : (Option<bool>, map<nat, Block>)
    requires q.Valid() && q.buffer != []
  {
    var at := BlockAt(q.kind, Argument(q.kind, q.first));
    if q.total > 1 then
      match Run(q, Start(q, disk), script)
      case Returned(_, disk') => RunSingle(disk', at, q.buffer[0], 0, single)
      case _ => (None, disk)
    else
      RunSingle(disk, at, q.buffer[0], 0, single)
  }

  /** So its success does not mean the data is stored: a card that refuses the multi-sector command
      and takes the single one reports success with the second block missing. */
  lemma FileSystemWriteLoses(q: Request, disk: map<nat, Block>)
    requires q.Valid() && q.buffer != [] && q.WithinCapacity() && q.total > 1 && !HasBlock(q, disk, 1)
    ensures exists script, single ::
              var (result, disk') := FileSystemWrite(q, disk, script, single);
              result == Some(true) && !HasBlocks(q, disk', q.total)
  {
    var script := [Answers(true, false, 0, 0, 0, true, true, 0, true)];
    var single := [SingleAnswers(true, 0x05, true)];
    AddressExact(q.kind, q.first);
    assert Run(q, Start(q, disk), script) == Returned(false, disk);
    var (result, disk') := FileSystemWrite(q, disk, script, single);
    assert result == Some(true) && !HasBlock(q, disk', 1);
  }

  /** Block `i` is written by the multi-sector part of the call, if there is one. */
  ghost predicate WrittenFirst(q: Request, script: seq<Answers>, i: nat) {
    q.total > 1 && WrittenInRun(q, script, i)
  }

  /** The disk when the single-sector write begins. */
  function FirstDisk(q: Request, disk: map<nat, Block>, script: seq<Answers>): map<nat, Block>
    requires q.Valid()
  {
    if q.total > 1 then
      match Run(q, Start(q, disk), script)
      case Returned(_, disk') => disk'
      case _ => disk
    else
      disk
  }

  /** Success is only reported after a single-sector write that returned true. */
  lemma SuccessOfSingle(q: Request, disk: map<nat, Block>, script: seq<Answers>, single: seq<SingleAnswers>)
    requires q.Valid() && q.buffer != [] && q.WithinCapacity()
    requires FileSystemWrite(q, disk, script, single).0 == Some(true)
    ensures q.total > 1 ==> Run(q, Start(q, disk), script).Returned?
    ensures FileSystemWrite(q, disk, script, single) ==
            RunSingle(FirstDisk(q, disk, script), q.first, q.buffer[0], 0, single)
  {
    AddressExact(q.kind, q.first);
    hide RunSingle, Run, BlockAt, Argument;
  }

  /** When it reports success, the data is stored exactly if every block was written by a pass of the
      multi-sector transfer or was there before, where for the first block the token 0x05 at the
      decisive single-sector try will also do. */
  lemma FileSystemWriteExact(q: Request, disk: map<nat, Block>, script: seq<Answers>, single: seq<SingleAnswers>)
    requires q.Valid() && q.buffer != [] && q.WithinCapacity()
    requires FileSystemWrite(q, disk, script, single).0 == Some(true)
    ensures Decisive(single) < |single|
    ensures HasBlocks(q, FileSystemWrite(q, disk, script, single).1, q.total) <==>
              forall i: nat :: i < q.total ==>
                || WrittenFirst(q, script, i)
                || HasBlock(q, disk, i)
                || (i == 0 && single[Decisive(single)].token == 0x05)
  {
    var disk1 := FirstDisk(q, disk, script);
    SuccessOfSingle(q, disk, script, single);
    SingleExact(disk1, q.first, q.buffer[0], 0, single);
    SingleHarmless(disk1, q.first, q.buffer[0], 0, single);
    hide RunSingle, Decisive, WrittenInRun, Run, FileSystemWrite;
    var disk2 := FileSystemWrite(q, disk, script, single).1;
    forall i: nat | i < q.total
      ensures HasBlock(q, disk2, i) <==>
                || WrittenFirst(q, script, i)
                || HasBlock(q, disk, i)
                || (i == 0 && single[Decisive(single)].token == 0x05)
    {
      if q.total > 1 {
        RunExact(q, disk, script, i);
      }
    }
    assert HasBlocks(q, disk2, q.total) <==> forall i: nat :: i < q.total ==> HasBlock(q, disk2, i);
  }

  /** In particular whenever the multi-sector transfer itself succeeded. */
  lemma FileSystemWriteStores(q: Request, disk: map<nat, Block>, script: seq<Answers>, single: seq<SingleAnswers>)
    requires q.Valid() && q.buffer != [] && q.WithinCapacity() && q.total > 1
    requires NeverOverReports(q, Start(q, disk), script)
    requires Run(q, Start(q, disk), script).Returned? && Run(q, Start(q, disk), script).ok
    ensures HasBlocks(q, FileSystemWrite(q, disk, script, single).1, q.total)
  {
    NoBlocksYet(q, disk);
    WriteSafe(q, Start(q, disk), script);
    var disk1 := Run(q, Start(q, disk), script).disk;
    AddressExact(q.kind, q.first);
    SingleHarmless(disk1, q.first, q.buffer[0], 0, single);
    forall i: nat | i < q.total
      ensures HasBlock(q, FileSystemWrite(q, disk, script, single).1, i)
    {
      assert HasBlock(q, disk1, i) && HasBlock(q, disk1, 0);
    }
  }

  lemma {:induction false} SingleHarmless(
      disk: map<nat, Block>, at: nat, block: Block, f: nat, script: seq<SingleAnswers>)
    requires f <= 3
    ensures var disk' := RunSingle(disk, at, block, f, script).1;
            disk' == disk || disk' == disk[at := block]
    decreases 3 - f
  {
    if f < 3 && script != [] && script[0].started && script[0].token == 0x0A {
      SingleHarmless(disk, at, block, f + 1, script[1..]);
    }
  }
}
