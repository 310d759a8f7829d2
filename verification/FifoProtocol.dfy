/** The FIFO as a protocol between one writing and one reading thread.

  Each step is one access to shared memory: reading the other side's position, copying one cell, or
  publishing one's own position. Accesses are taken to be sequentially consistent. Blocking calls
  repeat the first step; non-blocking ones may give up there.
*/
module FifoProtocol {
  import opened Rings
  import opened Sequences
  import opened Fifo

  // ---------- The two threads ----------

  /** Where the writing thread is in `put`. */
  datatype Producer =
    | PutIdle
    | PutWaiting(data: seq<bv8>)                              // about to read the free space
    | PutCopying(data: seq<bv8>, f: nat, at: nat, done: nat)  // chunk of f cells from `at`, `done` copied

  /** Where the reading thread is in `get`. */
  datatype Consumer =
    | GetIdle
    | GetWaiting(want: nat)
    | GetCopying(want: nat, f: nat, at: nat, copied: seq<bv8>)

  /** Shared memory and both threads; then what either side has published so far, and what the
      calls of `put` have been given, less what was refused when a call gave up. */
  datatype State = State(
    b: seq<bv8>, w: nat, r: nat,
    producer: Producer, consumer: Consumer,
    put: seq<bv8>, got: seq<bv8>, offered: seq<bv8>)

  datatype Step =
    | StartPut(data: seq<bv8>)
    | ReadFree
    | GiveUpPut
    | CopyIn
    | PublishWrite
    | StartGet(want: nat)
    | ReadSize
    | GiveUpGet
    | CopyOut
    | PublishRead

  /** `free()` and `size()` as the source computes them. */
  function Free(r: nat, w: nat, n: nat): (f: nat)
    requires r < n && w < n
  {
    var s := r - w;
    if s <= 0 then s + n - 1 else s - 1
  }

  function Size(w: nat, r: nat, n: nat): nat
    requires r < n && w < n
  {
    var s := w - r;
    if s < 0 then s + n else s
  }

  function Inc(i: nat, k: nat, n: nat): nat
    requires n > 0
  {
    (i + k) % n
  }

  ghost predicate InRange(s: State) {
    && s.w < |s.b| && s.r < |s.b|
    && (s.producer.PutCopying? ==>
          s.producer.done <= s.producer.f <= |s.producer.data| && s.producer.at + s.producer.f <= |s.b|)
    && (s.consumer.GetCopying? ==>
          |s.consumer.copied| <= s.consumer.f && s.consumer.at + s.consumer.f <= |s.b|)
  }

  /** One step; a step that its thread cannot take now changes nothing. */
  function Next(s: State, step: Step): (s': State)
    requires InRange(s)
    ensures |s'.b| == |s.b|
  {
    var n := |s.b|;
    match step
    case StartPut(data) =>
      if s.producer.PutIdle? && data != [] then
        s.(producer := PutWaiting(data), offered := s.offered + data)
      else s
    case ReadFree =>
      if s.producer.PutWaiting? && Free(s.r, s.w, n) != 0 then
        var data := s.producer.data;
        var f := Min(Min(|data|, Free(s.r, s.w, n)), n - s.w);
        s.(producer := PutCopying(data, f, s.w, 0))
      else s
    case GiveUpPut =>
      if s.producer.PutWaiting? && Free(s.r, s.w, n) == 0 then
        s.(producer := PutIdle, offered := s.put)
      else s
    case CopyIn =>
      if s.producer.PutCopying? && s.producer.done < s.producer.f then
        var PutCopying(data, f, at, done) := s.producer;
        s.(b := s.b[at + done := data[done]], producer := PutCopying(data, f, at, done + 1))
      else s
    case PublishWrite =>
      if s.producer.PutCopying? && s.producer.done == s.producer.f then
        var PutCopying(data, f, at, _) := s.producer;
        s.(w := Inc(at, f, n), put := s.put + data[..f],
           producer := if f == |data| then PutIdle else PutWaiting(data[f..]))
      else s
    case StartGet(want) =>
      if s.consumer.GetIdle? && want > 0 then s.(consumer := GetWaiting(want)) else s
    case ReadSize =>
      if s.consumer.GetWaiting? && Size(s.w, s.r, n) != 0 then
        var f := Min(Min(s.consumer.want, Size(s.w, s.r, n)), n - s.r);
        s.(consumer := GetCopying(s.consumer.want, f, s.r, []))
      else s
    case GiveUpGet =>
      if s.consumer.GetWaiting? && Size(s.w, s.r, n) == 0 then s.(consumer := GetIdle) else s
    case CopyOut =>
      if s.consumer.GetCopying? && |s.consumer.copied| < s.consumer.f then
        var GetCopying(want, f, at, copied) := s.consumer;
        s.(consumer := GetCopying(want, f, at, copied + [s.b[at + |copied|]]))
      else s
    case PublishRead =>
      if s.consumer.GetCopying? && |s.consumer.copied| == s.consumer.f then
        var GetCopying(want, f, at, copied) := s.consumer;
        s.(r := Inc(at, f, n), got := s.got + copied,
           consumer := if f >= want then GetIdle else GetWaiting(want - f))
      else s
  }

  // ---------- The invariant ----------

  /** The bytes in the ring. */
  ghost function Held(s: State): (c: seq<bv8>)
    requires s.w < |s.b| && s.r < |s.b|
    ensures |c| < |s.b|
  {
    Ring(s.b, s.r, s.w)
  }

  /** Bytes given to the current call of `put` and not yet published. */
  function Unpublished(p: Producer): seq<bv8> {
    if p.PutIdle? then [] else p.data
  }

  ghost predicate Inv(s: State) {
    && InRange(s)
    && s.put == s.got + Held(s)
    && s.offered == s.put + Unpublished(s.producer)
    && (s.producer.PutCopying? ==>
          var PutCopying(data, f, at, done) := s.producer;
          && at == s.w && |Held(s)| + f < |s.b| && 0 < f
          && s.b[at..at + done] == data[..done])
    && (s.producer.PutWaiting? ==> s.producer.data != [])
    && (s.consumer.GetCopying? ==>
          var GetCopying(want, f, at, copied) := s.consumer;
          && at == s.r && 0 < f <= |Held(s)| && f <= want
          && copied == s.b[at..at + |copied|])
    && (s.consumer.GetWaiting? ==> s.consumer.want > 0)
  }

  function Init(b: seq<bv8>): State {
    State(b, 0, 0, PutIdle, GetIdle, [], [], [])
  }

  lemma FreeIsRoom(s: State)
    requires s.w < |s.b| && s.r < |s.b|
    ensures Free(s.r, s.w, |s.b|) == |s.b| - 1 - |Held(s)|
    ensures Size(s.w, s.r, |s.b|) == |Held(s)|
  {
  }

  /** A cell outside the held window may be written without changing what is held. */
  lemma WriteOutside(b: seq<bv8>, r: nat, w: nat, k: nat, x: bv8)
    requires r < |b| && w < |b| && k < |b|
    requires w <= k && (w < r ==> k < r)
    ensures Ring(b[k := x], r, w) == Ring(b, r, w)
  {
  }

  // ---------- Every step keeps it ----------

  lemma CopyInKeeps(s: State)
    requires Inv(s) && s.producer.PutCopying? && s.producer.done < s.producer.f
    ensures Inv(Next(s, CopyIn)) && Held(Next(s, CopyIn)) == Held(s)
  {
    var PutCopying(data, f, at, done) := s.producer;
    var s' := Next(s, CopyIn);
    RingSize(s.b, s.r, s.w);
    WriteOutside(s.b, s.r, s.w, at + done, data[done]);
    assert s'.b[at..at + done + 1] == s.b[at..at + done] + [data[done]];
    assert data[..done + 1] == data[..done] + [data[done]];
    if s.consumer.GetCopying? {
      var k := |s.consumer.copied|;
      assert s'.b[s.r..s.r + k] == s.b[s.r..s.r + k];
    }
  }

  lemma ExtendRing(b: seq<bv8>, r: nat, w: nat, data: seq<bv8>)
    requires r < |b| && w < |b| && w + |data| <= |b| && |Ring(b, r, w)| + |data| < |b|
    requires b[w..w + |data|] == data
    ensures Inc(w, |data|, |b|) < |b| && Ring(b, r, Inc(w, |data|, |b|)) == Ring(b, r, w) + data
  {
    hide Ring;
    IncIsAdvance(w, |data|, |b|);
    forall j | 0 <= j < |data| ensures b[Advance(w, j, |b|)] == data[j] {
      assert b[w..w + |data|][j] == data[j];
    }
    RingWrite(b, b, r, w, data);
  }

  lemma PublishWriteKeeps(s: State)
    requires Inv(s) && s.producer.PutCopying? && s.producer.done == s.producer.f
    ensures Inv(Next(s, PublishWrite))
    ensures Held(Next(s, PublishWrite)) == Held(s) + s.producer.data[..s.producer.f]
  {
    hide Ring, Inc;
    var PutCopying(data, f, at, _) := s.producer;
    ExtendRing(s.b, s.r, s.w, data[..f]);
    Associates(s.got, Held(s), data[..f]);
    Associates(s.put, data[..f], data[f..]);
    assert data == data[..f] + data[f..];
    assert f == |data| ==> data[f..] == [];
  }

  lemma CopyOutKeeps(s: State)
    requires Inv(s) && s.consumer.GetCopying? && |s.consumer.copied| < s.consumer.f
    ensures Inv(Next(s, CopyOut)) && Held(Next(s, CopyOut)) == Held(s)
  {
    var GetCopying(want, f, at, copied) := s.consumer;
    assert s.b[at..at + |copied| + 1] == s.b[at..at + |copied|] + [s.b[at + |copied|]];
  }

  /** What is copied out is the front of what is held. */
  lemma CopiedIsFront(s: State)
    requires Inv(s) && s.consumer.GetCopying?
    ensures s.consumer.copied == Held(s)[..|s.consumer.copied|]
  {
    var GetCopying(want, f, at, copied) := s.consumer;
    RingSize(s.b, s.r, s.w);
    forall j | 0 <= j < |copied| ensures copied[j] == s.b[Advance(at, j, |s.b|)] {
      assert copied[j] == s.b[at..at + |copied|][j];
    }
    RingTake(s.b, s.r, s.w, |copied|, copied);
  }

  lemma ShrinkRing(b: seq<bv8>, r: nat, w: nat, f: nat)
    requires r < |b| && w < |b| && r + f <= |b| && f <= |Ring(b, r, w)|
    ensures Inc(r, f, |b|) < |b| && Ring(b, Inc(r, f, |b|), w) == Ring(b, r, w)[f..]
  {
    hide Ring;
    IncIsAdvance(r, f, |b|);
    RingDrop(b, r, w, f);
  }

  lemma PublishReadKeeps(s: State)
    requires Inv(s) && s.consumer.GetCopying? && |s.consumer.copied| == s.consumer.f
    ensures Inv(Next(s, PublishRead))
    ensures Held(s) == s.consumer.copied + Held(Next(s, PublishRead))
  {
    hide Ring, Inc;
    var GetCopying(want, f, at, copied) := s.consumer;
    CopiedIsFront(s);
    ShrinkRing(s.b, s.r, s.w, f);
    var held := Held(s);
    assert held == held[..f] + held[f..];
    Associates(s.got, copied, held[f..]);
  }

  lemma OtherPutStepsKeep(s: State, step: Step)
    requires Inv(s) && (step.StartPut? || step.ReadFree? || step.GiveUpPut?)
    ensures Inv(Next(s, step))
  {
    FreeIsRoom(s);
    hide Ring, Free, Size, Inc;
    assert s.put + [] == s.put;
  }

  lemma OtherGetStepsKeep(s: State, step: Step)
    requires Inv(s) && (step.StartGet? || step.ReadSize? || step.GiveUpGet?)
    ensures Inv(Next(s, step))
  {
    FreeIsRoom(s);
    hide Ring, Free, Size, Inc;
  }

  /** The invariant holds at the start and every step of either thread keeps it. */
  lemma StepKeeps(s: State, step: Step)
    requires Inv(s)
    ensures Inv(Next(s, step))
  {
    hide Ring, Held, Free, Size, Inc;
    match step
    case CopyIn =>
      if s.producer.PutCopying? && s.producer.done < s.producer.f { CopyInKeeps(s); }
    case PublishWrite =>
      if s.producer.PutCopying? && s.producer.done == s.producer.f { PublishWriteKeeps(s); }
    case CopyOut =>
      if s.consumer.GetCopying? && |s.consumer.copied| < s.consumer.f { CopyOutKeeps(s); }
    case PublishRead =>
      if s.consumer.GetCopying? && |s.consumer.copied| == s.consumer.f { PublishReadKeeps(s); }
    case StartPut(_) => OtherPutStepsKeep(s, step);
    case ReadFree => OtherPutStepsKeep(s, step);
    case GiveUpPut => OtherPutStepsKeep(s, step);
    case StartGet(_) => OtherGetStepsKeep(s, step);
    case ReadSize => OtherGetStepsKeep(s, step);
    case GiveUpGet => OtherGetStepsKeep(s, step);
  }

  /** The state after any interleaving of steps of the two threads. */
  function After(b: seq<bv8>, steps: seq<Step>): (s: State)
    requires |b| > 0
    ensures Inv(s) && |s.b| == |b|
  {
    if steps == [] then
      Init(b)
    else
      var s := After(b, steps[..|steps| - 1]);
      StepKeeps(s, steps[|steps| - 1]);
      Next(s, steps[|steps| - 1])
  }

  // ---------- What it means for the two threads ----------

  /** Everything the reading thread has in its own memory. */
  function Delivered(s: State): seq<bv8> {
    s.got + if s.consumer.GetCopying? then s.consumer.copied else []
  }

  /** In every interleaving: what has been read is a prefix of what has been put, which is a prefix
      of what the writing thread was given; and at most N - 1 elements are held. */
  lemma ReadsArePrefix(b: seq<bv8>, steps: seq<Step>)
    requires |b| > 0
    ensures var s := After(b, steps);
            && Delivered(s) <= s.put <= s.offered
            && s.put == s.got + Held(s)
            && |s.put| - |s.got| <= |b| - 1
  {
    var s := After(b, steps);
    if s.consumer.GetCopying? {
      CopiedIsFront(s);
    }
  }

  /** In every interleaving: the cells being filled, the cells being copied out and the other held
      cells never overlap. */
  lemma NoOverlap(b: seq<bv8>, steps: seq<Step>, cell: nat)
    requires |b| > 0
    ensures var s := After(b, steps);
            var filling := s.producer.PutCopying? && s.producer.at <= cell < s.producer.at + s.producer.f;
            var reading := s.consumer.GetCopying? && s.consumer.at <= cell < s.consumer.at + s.consumer.f;
            var held := if s.r <= s.w then s.r <= cell < s.w else s.r <= cell < |b| || cell < s.w;
            && !(filling && held)
            && (reading ==> held)
  {
    var s := After(b, steps);
    RingSize(s.b, s.r, s.w);
  }

  /** With at least two cells the threads never wait for each other: if both are in a call, some
      step other than starting or giving up is possible. */
  lemma NoDeadlock(b: seq<bv8>, steps: seq<Step>)
    requires |b| > 1
    ensures var s := After(b, steps);
            !s.producer.PutIdle? && !s.consumer.GetIdle? ==>
              || Next(s, ReadFree) != s || Next(s, CopyIn) != s || Next(s, PublishWrite) != s
              || Next(s, ReadSize) != s || Next(s, CopyOut) != s || Next(s, PublishRead) != s
  {
    var s := After(b, steps);
    FreeIsRoom(s);
    if s.producer.PutWaiting? && s.consumer.GetWaiting? {
      assert Free(s.r, s.w, |s.b|) + Size(s.w, s.r, |s.b|) == |b| - 1;
    } else if s.producer.PutCopying? && s.producer.done == s.producer.f {
      assert Next(s, PublishWrite).producer != s.producer;
    } else if s.consumer.GetCopying? && |s.consumer.copied| == s.consumer.f {
      assert Next(s, PublishRead).consumer != s.consumer;
    }
  }

  /** The single-element calls make the same test as the bulk calls. */
  lemma SingleSameTest(r: nat, w: nat, n: nat)
    requires r < n && w < n
    ensures Inc(w, 1, n) == r <==> Free(r, w, n) == 0
    ensures r == w <==> Size(w, r, n) == 0
  {
    IncIsAdvance(w, 1, n);
  }
}
