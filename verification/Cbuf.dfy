/** The resizable circular buffer of the ESP32 core.

  Pointers into the heap buffer are indices here; `_bufend` is always `_buf + _size`. `size_t` has
  32 bits on this target.
*/
module Cbuf {
  import opened Rings

  const SIZE_T := 0x1_0000_0000

  // ---------- What it is: a bounded queue ----------

  datatype Queue = Queue(capacity: nat, items: seq<bv8>) {
    predicate Valid() {
      |items| <= capacity
    }

    function Room(): nat
      requires Valid()
    {
      capacity - |items|
    }
  }

  datatype Op =
    | WriteByte(c: bv8)
    | Write(src: seq<bv8>)
    | PeekByte
    | Peek(n: nat)
    | ReadByte
    | Read(n: nat)
    | Remove(n: nat)
    | Flush
    | Resize(n: nat)
    | ResizeAdd(n: nat)

  /** What a call returns: a count or byte value, and the bytes copied out. */
  datatype Answer = Answer(value: int, data: seq<bv8>)

  /** The argument that breaks a buffer holding `held` bytes. */
  predicate Breaks(n: nat, held: nat) {
    (n + 1) % SIZE_T == held
  }

  function Resized(q: Queue, n: nat): (q': Queue)
    requires q.Valid() && !Breaks(n, |q.items|)
    ensures q'.Valid() && q'.items == q.items
  {
    if (n + 1) % SIZE_T < |q.items| then q else q.(capacity := (n + 1) % SIZE_T - 1)
  }

  predicate Allowed(q: Queue, op: Op) {
    match op
    case Resize(n) => !Breaks(n, |q.items|)
    case ResizeAdd(n) => !Breaks((q.capacity + 1 + n) % SIZE_T, |q.items|)
    case _ => true
  }

  /** One operation on the queue. */
  function Apply(q: Queue, op: Op): (r: (Queue, Answer))
    requires q.Valid() && Allowed(q, op)
    ensures r.0.Valid()
  {
    match op
    case WriteByte(c) =>
      if q.Room() == 0 then (q, Answer(0, [])) else (q.(items := q.items + [c]), Answer(1, []))
    case Write(src) =>
      var k := Min(|src|, q.Room());
      (q.(items := q.items + src[..k]), Answer(k, []))
    case PeekByte =>
      (q, Answer(if q.items == [] then -1 else q.items[0] as int, []))
    case Peek(n) =>
      var k := Min(n, |q.items|);
      (q, Answer(k, q.items[..k]))
    case ReadByte =>
      if q.items == [] then (q, Answer(-1, [])) else (q.(items := q.items[1..]), Answer(q.items[0] as int, []))
    case Read(n) =>
      var k := Min(n, |q.items|);
      (q.(items := q.items[k..]), Answer(k, q.items[..k]))
    case Remove(n) =>
      var k := Min(n, |q.items|);
      (q.(items := q.items[k..]), Answer(|q.items| - k, []))
    case Flush =>
      (q.(items := []), Answer(0, []))
    case Resize(n) =>
      var q' := Resized(q, n);
      (q', Answer(q'.capacity + 1, []))
    case ResizeAdd(n) =>
      var q' := Resized(q, (q.capacity + 1 + n) % SIZE_T);
      (q', Answer(q'.capacity + 1, []))
  }

  /** A whole run is allowed when no resize in it meets the breaking argument. */
  predicate AllowedRun(q: Queue, ops: seq<Op>)
    requires q.Valid()
    decreases |ops|
  {
    ops == [] || (Allowed(q, ops[0]) && AllowedRun(Apply(q, ops[0]).0, ops[1..]))
  }

  function Run(q: Queue, ops: seq<Op>): (r: (Queue, seq<Answer>))
    requires q.Valid() && AllowedRun(q, ops)
    ensures r.0.Valid()
    decreases |ops|
  {
    if ops == [] then
      (q, [])
    else
      var (q1, answer) := Apply(q, ops[0]);
      var (q2, answers) := Run(q1, ops[1..]);
      (q2, [answer] + answers)
  }

  /** The bytes an operation stores, and the bytes it takes away. */
  function StoredBy(q: Queue, op: Op): seq<bv8>
    requires q.Valid()
  {
    match op
    case WriteByte(c) => [c][..Min(1, q.Room())]
    case Write(src) => src[..Min(|src|, q.Room())]
    case _ => []
  }

  function TakenBy(q: Queue, op: Op): seq<bv8>
    requires q.Valid()
  {
    match op
    case ReadByte => q.items[..Min(1, |q.items|)]
    case Read(n) => q.items[..Min(n, |q.items|)]
    case Remove(n) => q.items[..Min(n, |q.items|)]
    case Flush => q.items
    case _ => []
  }

  function Stored(q: Queue, ops: seq<Op>): seq<bv8>
    requires q.Valid() && AllowedRun(q, ops)
    decreases |ops|
  {
    if ops == [] then [] else StoredBy(q, ops[0]) + Stored(Apply(q, ops[0]).0, ops[1..])
  }

  function Taken(q: Queue, ops: seq<Op>): seq<bv8>
    requires q.Valid() && AllowedRun(q, ops)
    decreases |ops|
  {
    if ops == [] then [] else TakenBy(q, ops[0]) + Taken(Apply(q, ops[0]).0, ops[1..])
  }

  lemma StepConserves(q: Queue, op: Op)
    requires q.Valid() && Allowed(q, op)
    ensures q.items + StoredBy(q, op) == TakenBy(q, op) + Apply(q, op).0.items
  {
  }

  /** First in, first out over whole runs, whatever is resized on the way: what was there and what
      was stored is what was taken followed by what is left. */
  lemma {:induction false} Conserved(q: Queue, ops: seq<Op>)
    requires q.Valid() && AllowedRun(q, ops)
    ensures q.items + Stored(q, ops) == Taken(q, ops) + Run(q, ops).0.items
    decreases |ops|
  {
    if ops == [] {
      assert q.items + [] == [] + q.items;
    } else {
      hide Apply, StoredBy, TakenBy;
      var q1 := Apply(q, ops[0]).0;
      Conserved(q1, ops[1..]);
      StepConserves(q, ops[0]);
      Regroup(q.items, StoredBy(q, ops[0]), Stored(q1, ops[1..]),
              TakenBy(q, ops[0]), q1.items, Taken(q1, ops[1..]), Run(q, ops).0.items);
    }
  }

  lemma Regroup(a: seq<bv8>, s1: seq<bv8>, s2: seq<bv8>, t1: seq<bv8>, b: seq<bv8>, t2: seq<bv8>, c: seq<bv8>)
    requires a + s1 == t1 + b && b + s2 == t2 + c
    ensures a + (s1 + s2) == t1 + t2 + c
  {
    assert a + (s1 + s2) == a + s1 + s2;
    assert t1 + b + s2 == t1 + (b + s2);
    assert t1 + (t2 + c) == t1 + t2 + c;
  }

  // ---------- How it is done ----------

  class CircularBuffer {
    var size: nat
    var buf: array<bv8>
    var begin: nat
    var end: nat

    ghost predicate Valid()
      reads this
    {
      0 < size == buf.Length && begin < size && end < size
    }

    ghost function Items(): seq<bv8>
      requires Valid()
      reads this, buf
    {
      Ring(buf[..], begin, end)
    }

    /** The queue the buffer stands for: one position always stays free. */
    ghost function View(): (q: Queue)
      requires Valid()
      reads this, buf
      ensures q.Valid()
    {
      Queue(size - 1, Items())
    }

    constructor (n: nat)
      requires n + 1 < SIZE_T
      ensures Valid() && fresh(buf) && View() == Queue(n, [])
    {
      size, begin, end := n + 1, 0, 0;
      buf := new bv8[n + 1];
    }

    function Wrap(p: nat): nat
      reads this
    {
      if p == size then 0 else p
    }

    method Available() returns (n: nat)
      requires Valid()
      ensures n == |View().items|
    {
      if end >= begin {
        return end - begin;
      }
      return size - (begin - end);
    }

    method Room() returns (n: nat)
      requires Valid()
      ensures n == View().Room()
    {
      if end >= begin {
        return size - (end - begin) - 1;
      }
      return begin - end - 1;
    }

    method PeekChar() returns (c: int)
      requires Valid()
      ensures (View(), Answer(c, [])) == Apply(View(), PeekByte)
    {
      if begin == end {
        return -1;
      }
      return buf[begin] as int;
    }

    /** Copies the first k stored bytes out; the pointer moves only in ReadBytes. */
    method PeekBytes(dst: array<bv8>, n: nat) returns (k: nat)
      requires Valid() && dst != buf
      requires Min(n, |Items()|) <= dst.Length
      modifies dst
      ensures k == Min(n, |Items()|) <= dst.Length
      ensures dst[..k] == Items()[..k] && dst[k..] == old(dst[k..])
    {
      hide Ring;
      ghost var data := buf[..];
      var available := Available();
      var toRead := if n < available then n else available;
      k := toRead;
      var from, to := begin, 0;
      if end < begin && toRead > size - begin {
        var top := size - begin;
        Copy(buf, begin, dst, 0, top);
        from := 0;
        toRead := toRead - top;
        to := top;
      }
      RingSize(data, begin, end);
      Copy(buf, from, dst, to, toRead);
      RingTake(data, begin, end, k, dst[..k]);
    }

    method ReadChar() returns (c: int)
      requires Valid()
      modifies this`begin
      ensures Valid() && (View(), Answer(c, [])) == old(Apply(View(), ReadByte))
    {
      if begin == end {
        return -1;
      }
      RingAt(buf[..], begin, end, 0);
      RingDrop(buf[..], begin, end, 1);
      c := buf[begin] as int;
      begin := Wrap(begin + 1);
    }

    method ReadBytes(dst: array<bv8>, n: nat) returns (k: nat)
      requires Valid() && dst != buf
      requires Min(n, |Items()|) <= dst.Length
      modifies this`begin, dst
      ensures Valid() && k == Min(n, |old(Items())|) <= dst.Length
      ensures dst[..k] == old(Items())[..k] && dst[k..] == old(dst[k..])
      ensures Items() == old(Items())[k..]
    {
      hide Ring;
      ghost var data, b0 := buf[..], begin;
      var available := Available();
      var toRead := if n < available then n else available;
      k := toRead;
      RingSize(data, begin, end);
      RingDrop(data, begin, end, k);
      var to := 0;
      if end < begin && toRead > size - begin {
        var top := size - begin;
        Copy(buf, begin, dst, 0, top);
        begin := 0;
        toRead := toRead - top;
        to := top;
      }
      Copy(buf, begin, dst, to, toRead);
      begin := Wrap(begin + toRead);
      assert buf[..] == data && begin == Advance(b0, k, size);
      RingTake(data, b0, end, k, dst[..k]);
    }

    method WriteChar(c: bv8) returns (k: nat)
      requires Valid()
      modifies this`end, buf
      ensures Valid() && (View(), Answer(k, [])) == old(Apply(View(), WriteByte(c)))
    {
      ghost var items, data, e0 := Items(), buf[..], end;
      if Wrap(end + 1) == begin {
        return 0;
      }
      buf[end] := c;
      end := Wrap(end + 1);
      RingWrite(data, buf[..], begin, e0, [c]);
      return 1;
    }

    /** The one or two memcpy calls of a bulk write. */
    method CopyIn(src: array<bv8>, k: nat)
      requires 0 < size == buf.Length && begin < size && end < size
      requires src != buf && k <= src.Length
      requires k < size && (end < begin ==> end + k < begin)
      modifies this`end, buf
      ensures end == Advance(old(end), k, size)
      ensures forall j :: 0 <= j < k ==> buf[Advance(old(end), j, size)] == src[j]
      ensures forall j :: 0 <= j < size && !Written(old(end), k, size, j) ==> buf[j] == old(buf[j])
    {
      var toWrite, from := k, 0;
      if end >= begin && toWrite > size - end {
        var top := size - end;
        Copy(src, 0, buf, end, top);
        end := 0;
        toWrite := toWrite - top;
        from := top;
      }
      Copy(src, from, buf, end, toWrite);
      end := Wrap(end + toWrite);
    }

    method WriteBytes(src: array<bv8>, n: nat) returns (k: nat)
      requires Valid() && src != buf && n <= src.Length
      modifies this`end, buf
      ensures Valid() && k == Min(n, old(View().Room()))
      ensures Items() == old(Items()) + src[..k]
    {
      hide Ring;
      ghost var data, e0 := buf[..], end;
      RingSize(data, begin, end);
      var room := Room();
      k := if n < room then n else room;
      CopyIn(src, k);
      RingWrite(data, buf[..], begin, e0, src[..k]);
    }

    method Clear()
      requires Valid()
      modifies this`begin, this`end
      ensures Valid() && (View(), Answer(0, [])) == old(Apply(View(), Flush))
    {
      begin, end := 0, 0;
    }

    method RemoveBytes(n: nat) returns (left: nat)
      requires Valid()
      modifies this`begin, this`end
      ensures Valid() && (View(), Answer(left, [])) == old(Apply(View(), Remove(n)))
    {
      hide Ring;
      var available := Available();
      if n >= available {
        Clear();
        return 0;
      }
      RingSize(buf[..], begin, end);
      RingDrop(buf[..], begin, end, n);
      var toRemove := n;
      if end < begin && toRemove > size - begin {
        var top := size - begin;
        begin := 0;
        toRemove := toRemove - top;
      }
      begin := Wrap(begin + toRemove);
      left := Available();
    }

    /** Keeps the buffer valid exactly when the argument is not the breaking one; then contents and
        order are kept and only the capacity changes. */
    method Reallocate(n: nat) returns (newSize: nat)
      requires Valid() && n < SIZE_T
      modifies this
      ensures buf == old(buf) || fresh(buf)
      ensures Valid() <==> !Breaks(n, |old(Items())|)
      ensures Valid() ==> View() == Resized(old(View()), n) && newSize == size
    {
      ghost var items := Items();
      var available := Available();
      var wanted := (n + 1) % SIZE_T;
      if wanted < available || wanted == size {
        return size;
      }
      var newbuf := new bv8[wanted];
      var _ := ReadBytes(newbuf, available);
      assert newbuf[..available] == items;
      forall k | available <= k < wanted {
        newbuf[k] := 0;
      }
      assert newbuf[..available] == items;
      begin := 0;
      end := available;
      size := wanted;
      buf := newbuf;
      assert available < wanted ==> Ring(buf[..], 0, available) == items;
      return size;
    }

    method ReallocateAdd(n: nat) returns (newSize: nat)
      requires Valid() && n < SIZE_T
      modifies this
      ensures buf == old(buf) || fresh(buf)
      ensures Valid() <==> old(Allowed(View(), ResizeAdd(n)))
      ensures Valid() ==> (View(), Answer(newSize, [])) == old(Apply(View(), ResizeAdd(n)))
    {
      newSize := Reallocate((size + n) % SIZE_T);
    }

    /** The operations with a buffer supplied by the caller. */
    method Transfer(op: Op) returns (answer: Answer)
      requires Valid() && (op.Write? || op.Peek? || op.Read?)
      modifies this, buf
      ensures Valid() && buf == old(buf)
      ensures (View(), answer) == old(Apply(View(), op))
    {
      hide Ring;
      match op {
        case Write(src) =>
          var a := new bv8[|src|](i requires 0 <= i < |src| => src[i]);
          assert a[..|src|] == src;
          var k := WriteBytes(a, |src|);
          assert a[..k] == src[..k];
          answer := Answer(k, []);
        case Peek(n) =>
          var a := new bv8[n];
          var k := PeekBytes(a, n);
          answer := Answer(k, a[..k]);
        case Read(n) =>
          var a := new bv8[n];
          var k := ReadBytes(a, n);
          answer := Answer(k, a[..k]);
      }
    }

    /** The two resizing calls. */
    method Reshape(op: Op) returns (answer: Answer)
      requires Valid() && Allowed(View(), op)
      requires (op.Resize? || op.ResizeAdd?) && op.n < SIZE_T
      modifies this
      ensures Valid() && (buf == old(buf) || fresh(buf))
      ensures (View(), answer) == old(Apply(View(), op))
    {
      hide Ring;
      var s;
      if op.Resize? {
        s := Reallocate(op.n);
      } else {
        s := ReallocateAdd(op.n);
      }
      answer := Answer(s, []);
    }

    /** The single-byte calls. */
    method Bytewise(op: Op) returns (answer: Answer)
      requires Valid() && (op.WriteByte? || op.PeekByte? || op.ReadByte?)
      modifies this, buf
      ensures Valid() && buf == old(buf)
      ensures (View(), answer) == old(Apply(View(), op))
    {
      hide Ring;
      match op {
        case WriteByte(c) =>
          var k := WriteChar(c);
          answer := Answer(k, []);
        case PeekByte =>
          var c := PeekChar();
          answer := Answer(c, []);
        case ReadByte =>
          var c := ReadChar();
          answer := Answer(c, []);
      }
    }

    /** The two discarding calls. */
    method Discard(op: Op) returns (answer: Answer)
      requires Valid() && (op.Remove? || op.Flush?)
      modifies this
      ensures Valid() && buf == old(buf)
      ensures (View(), answer) == old(Apply(View(), op))
    {
      hide Ring, Apply;
      match op {
        case Remove(n) =>
          var left := RemoveBytes(n);
          answer := Answer(left, []);
        case Flush =>
          Clear();
          answer := Answer(0, []);
      }
    }

    /** Any operation. */
    method Do(op: Op) returns (answer: Answer)
      requires Valid() && Allowed(View(), op)
      requires op.Resize? || op.ResizeAdd? ==> op.n < SIZE_T
      modifies this, buf
      ensures Valid() && (buf == old(buf) || fresh(buf))
      ensures (View(), answer) == old(Apply(View(), op))
    {
      hide Ring, Apply;
      if op.WriteByte? || op.PeekByte? || op.ReadByte? {
        answer := Bytewise(op);
      } else if op.Remove? || op.Flush? {
        answer := Discard(op);
      } else if op.Resize? || op.ResizeAdd? {
        answer := Reshape(op);
      } else {
        answer := Transfer(op);
      }
    }

    /** Refinement over runs: any allowed sequence of calls answers as the queue does. */
    method DoAll(ops: seq<Op>) returns (answers: seq<Answer>)
      requires Valid() && AllowedRun(View(), ops)
      requires forall i :: 0 <= i < |ops| && (ops[i].Resize? || ops[i].ResizeAdd?) ==> ops[i].n < SIZE_T
      modifies this, buf
      ensures Valid() && (buf == old(buf) || fresh(buf))
      ensures (View(), answers) == old(Run(View(), ops))
    {
      answers := [];
      var i := 0;
      hide Ring, Apply;
      ghost var q0 := View();
      assert ops[0..] == ops && [] + Run(q0, ops).1 == Run(q0, ops).1;
      while i < |ops|
        invariant 0 <= i <= |ops|
        invariant Valid() && (buf == old(buf) || fresh(buf))
        invariant AllowedRun(View(), ops[i..])
        invariant Run(q0, ops) == (Run(View(), ops[i..]).0, answers + Run(View(), ops[i..]).1)
      {
        var answer := Do(ops[i]);
        assert ops[i..][1..] == ops[i + 1..];
        assert answers + ([answer] + Run(View(), ops[i + 1..]).1) == answers + [answer] + Run(View(), ops[i + 1..]).1;
        answers := answers + [answer];
        i := i + 1;
      }
      assert ops[i..] == [] && answers + [] == answers;
    }
  }
}
