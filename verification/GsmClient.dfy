/** Reading from a TCP socket of the SIM800 module.

  The module buffers what the peer sends; the driver fetches it piecewise into a FIFO and hands it
  to the caller. The module is modelled by what it may do: it answers a fetch with at most the bytes
  asked for, or with nothing, and it reports how many it still holds. Bytes, notifications and
  disconnections may come at any time.
*/
module GsmClient {
  import opened Rings
  import opened Fifo
  import opened Sequences

  /** The module's answers to two questions: how much is waiting, and is the socket connected. */
  datatype Reply = NoCount | Count(waiting: nat) | Status(connected: bool)

  /** What came of asking how much is waiting: the driver did not ask, or got no answer, or was told.
      When it is left with nothing it also asks whether the socket is still connected. */
  datatype Poll = NotAsked | Unanswered(connected: bool) | Empty(connected: bool) | Answered(waiting: nat)

  /** Unsolicited messages: data waiting, or connection closed. */
  datatype Events = Events(notified: bool, closed: bool)

  /** The module's side of one socket. */
  class Modem {
    var pending: seq<bv8>        // received from the peer, not yet fetched
    ghost var received: seq<bv8> // everything the peer has sent so far
    var patience: nat            // how many fetches may still go unanswered
    ghost var log: seq<Reply>    // its answers so far

    constructor (patience: nat)
      ensures pending == [] && received == [] && this.patience == patience
    {
      pending, received, this.patience, log := [], [], patience, [];
    }

    /** More bytes may have come from the peer. */
    method Arrive() returns (ghost more: seq<bv8>)
      modifies this
      ensures pending == old(pending) + more && received == old(received) + more
      ensures patience == old(patience) && log == old(log)
    {
      var bytes: seq<bv8> := *;
      more := bytes;
      pending := pending + bytes;
      received := received + bytes;
    }

    /** A fetch of at most `size` bytes. Without an answer there is no report either. */
    method Fetch(size: nat) returns (answered: bool, data: seq<bv8>, left: nat)
      modifies this
      ensures |data| <= size && old(pending) == data + pending && received == old(received)
      ensures !answered ==> data == []
      ensures answered ==> left == |pending| % 0x1_0000
      ensures data != [] || size == 0 || old(pending) == [] || patience < old(patience)
      ensures patience <= old(patience) && log == old(log)
    {
      answered := *;
      var n :| 0 <= n <= size && n <= |pending|;
      if patience == 0 && size > 0 && pending != [] && (!answered || n == 0) {
        answered, n := true, 1;
      }
      if !answered {
        n := 0;
      }
      if n == 0 && patience > 0 {
        patience := patience - 1;
      }
      data := pending[..n];
      pending := pending[n..];
      left := |pending| % 0x1_0000;
    }

    /** How many bytes are waiting; no answer counts as none. */
    method Waiting() returns (answered: bool, count: nat)
      modifies this`log
      ensures count == if answered then |pending| else 0
      ensures log == old(log) + [if answered then Count(|pending|) else NoCount]
    {
      answered := *;
      count := if answered then |pending| else 0;
      log := log + [if answered then Count(|pending|) else NoCount];
    }

    method Connected() returns (connected: bool)
      modifies this`log
      ensures log == old(log) + [Status(connected)]
    {
      connected := *;
      log := log + [Status(connected)];
    }
  }

  /** The module's answers during a poll. */
  function Replies(poll: Poll): seq<Reply> {
    match poll
    case NotAsked => []
    case Unanswered(connected) => [NoCount, Status(connected)]
    case Empty(connected) => [Count(0), Status(connected)]
    case Answered(waiting) => [Count(waiting)]
  }

  class Client {
    const rx: TinyGsmFifo
    const modem: Modem
    var sockAvailable: nat // 16 bits in the source
    var sockConnected: bool
    var gotData: bool
    ghost var delivered: seq<bv8> // everything read so far

    ghost predicate Valid()
      reads this, rx, rx.b, modem
    {
      && rx.Valid() && rx.N > 1
      && sockAvailable <= |modem.pending| && sockAvailable < 0x1_0000
      && delivered + rx.Contents() + modem.pending == modem.received
    }

    constructor (n: nat, patience: nat)
      requires n > 1
      ensures Valid() && fresh(rx) && fresh(rx.b) && fresh(modem)
    {
      rx := new TinyGsmFifo(n);
      modem := new Modem(patience);
      sockAvailable, sockConnected, gotData := 0, false, false;
      delivered := [];
    }

    /** Bytes arrive, and unsolicited messages are handled. */
    method Listen() returns (ghost events: Events)
      requires Valid()
      modifies this`gotData, this`sockConnected, modem
      ensures Valid() && rx.Contents() == old(rx.Contents())
      ensures old(modem.received) <= modem.received && modem.patience == old(modem.patience)
      ensures modem.log == old(modem.log)
      ensures gotData == (old(gotData) || events.notified)
      ensures sockConnected == (old(sockConnected) && !events.closed)
    {
      ghost var more := modem.Arrive();
      assert delivered + rx.Contents() + (old(modem.pending) + more) ==
             delivered + rx.Contents() + old(modem.pending) + more;
      var notified: bool := *;
      var closed: bool := *;
      if notified {
        gotData := true;
      }
      if closed {
        sockConnected := false;
      }
      events := Events(notified, closed);
    }

    /** After a notification, and only then, ask how much is waiting. The driver keeps that number in
        16 bits, and 0 for no answer; it asks for the connection when nothing is waiting. */
    method Maintain() returns (ghost poll: Poll, ghost events: Events)
      requires Valid()
      modifies this`gotData, this`sockConnected, this`sockAvailable, modem
      ensures Valid() && rx.Contents() == old(rx.Contents())
      ensures old(modem.received) <= modem.received && modem.patience == old(modem.patience)
      ensures poll == NotAsked <==> !old(gotData)
      ensures poll.Empty? ==> old(modem.pending) == []
      ensures poll.Answered? ==> poll.waiting == |old(modem.pending)| > 0
      ensures modem.log == old(modem.log) + Replies(poll)
      ensures sockAvailable == match poll
              case NotAsked => old(sockAvailable)
              case Answered(waiting) => waiting % 0x1_0000
              case _ => 0
      ensures gotData == events.notified
      ensures sockConnected ==
              (!events.closed &&
               match poll
               case Unanswered(connected) => connected
               case Empty(connected) => connected
               case _ => old(sockConnected))
    {
      poll := NotAsked;
      AppendNothing(modem.log);
      if gotData {
        gotData := false;
        var answered, count := modem.Waiting();
        sockAvailable := count % 0x1_0000;
        poll := Answered(count);
        if count == 0 {
          sockConnected := modem.Connected();
          poll := if answered then Empty(sockConnected) else Unanswered(sockConnected);
        }
      }
      events := Listen();
    }

    /** Put fetched bytes into the FIFO one by one, ignoring whether each fitted. */
    method Fill(data: seq<bv8>)
      requires rx.Valid() && |rx.Contents()| + |data| < rx.N
      modifies rx`w, rx.b
      ensures rx.Valid() && rx.Contents() == old(rx.Contents()) + data
    {
      hide Rings.Ring;
      for i := 0 to |data|
        invariant rx.Valid() && rx.Contents() == old(rx.Contents()) + data[..i]
      {
        var _ := rx.Put(data[i]);
        assert data[..i + 1] == data[..i] + [data[i]];
      }
      assert data[..|data|] == data;
    }

    /** Fetch up to `size` bytes into the FIFO; an answer also says how many are left. */
    method ModemRead(size: nat) returns (len: nat, ghost answered: bool)
      requires Valid() && size <= rx.N - 1 - |rx.Contents()|
      modifies this`gotData, this`sockConnected, this`sockAvailable, modem, rx`w, rx.b
      ensures Valid() && old(modem.received) <= modem.received
      ensures len <= |old(modem.pending)| && rx.Contents() == old(rx.Contents()) + old(modem.pending)[..len]
      ensures sockAvailable == if answered then (|old(modem.pending)| - len) % 0x1_0000 else old(sockAvailable)
      ensures len > 0 || size == 0 || old(modem.pending) == [] || modem.patience < old(modem.patience)
      ensures modem.patience <= old(modem.patience) && modem.log == old(modem.log)
    {
      ghost var contents := rx.Contents();
      var reply, data, left := modem.Fetch(size);
      len, answered := |data|, reply;
      assert old(modem.pending)[..len] == data;
      Regroup(delivered, contents, data, modem.pending);
      if !reply {
        assert contents + data == contents;
        return 0, false;
      }
      sockAvailable := left;
      Fill(data);
      var _ := Listen();
    }

    /** Move bytes from the FIFO to the caller's buffer. */
    method Hand(buf: array<bv8>, at: nat, chunk: nat)
      requires Valid() && at + chunk <= buf.Length && buf != rx.b
      requires chunk <= |rx.Contents()|
      modifies this`delivered, rx`r, buf
      ensures Valid() && |rx.Contents()| == |old(rx.Contents())| - chunk
      ensures delivered == old(delivered) + buf[at..at + chunk]
      ensures buf[..at] == old(buf[..at])
    {
      hide Rings.Ring;
      MoveFront(delivered, rx.Contents(), chunk);
      var _ := rx.GetAll(buf, at, chunk);
      delivered := delivered + buf[at..at + chunk];
    }

    /** The read loop. Nothing is lost, repeated or reordered; and while the connection lasts it only
        stops short when nothing is known to be waiting. A closed socket returns nothing, even if
        bytes are left in the FIFO; otherwise at least what the FIFO holds is returned. */
    method Read(buf: array<bv8>, size: nat) returns (cnt: nat)
      requires Valid() && size <= buf.Length && buf != rx.b
      modifies this, modem, rx, rx.b, buf
      ensures Valid() && cnt <= size
      ensures delivered == old(delivered) + buf[..cnt]
      ensures old(modem.received) <= modem.received
      ensures old(gotData) ==> |modem.log| > |old(modem.log)|
      ensures !old(sockConnected) && !old(gotData) ==> cnt == 0
      ensures cnt >= Min(size, |old(rx.Contents())|) || (cnt == 0 && !sockConnected)
      ensures cnt == size || !sockConnected || (rx.Contents() == [] && sockAvailable == 0)
    {
      hide Rings.Ring;
      var _, _ := Maintain();
      cnt := 0;
      while cnt < size && sockConnected
        invariant Valid() && cnt <= size
        invariant cnt >= Min(size, |old(rx.Contents())|) || (cnt == 0 && rx.Contents() == old(rx.Contents()))
        invariant delivered == old(delivered) + buf[..cnt]
        invariant old(modem.received) <= modem.received
        invariant |modem.log| >= |old(modem.log)| + if old(gotData) then 1 else 0
        invariant !old(sockConnected) && !old(gotData) ==> cnt == 0 && !sockConnected
        decreases size - cnt, modem.patience, if rx.Contents() == [] then 1 else 0
      {
        var held := rx.Size();
        var chunk := Min(size - cnt, held);
        if chunk > 0 {
          Hand(buf, cnt, chunk);
          TakeFurther(buf[..], old(delivered), cnt, chunk);
          cnt := cnt + chunk;
          continue;
        }
        var _, _ := Maintain();
        if sockAvailable > 0 {
          var room := rx.Free();
          var _, _ := ModemRead(room);
        } else {
          break;
        }
      }
    }

    /** What may be read now: what the FIFO holds and what is known to wait. With an empty FIFO the
        driver asks first, after a notification or when a time has passed; then an answer counts. It
        never promises more than is really there. */
    method Available() returns (n: nat, ghost poll: Poll, ghost due: bool)
      requires Valid()
      modifies this`gotData, this`sockConnected, this`sockAvailable, modem
      ensures Valid() && rx.Contents() == old(rx.Contents())
      ensures n == |rx.Contents()| + sockAvailable && n <= |rx.Contents()| + |modem.pending|
      ensures modem.log == old(modem.log) + Replies(poll)
      ensures poll == NotAsked <==>
              old(rx.Contents()) != [] || !old(sockConnected) || !(old(gotData) || due)
      ensures n == match poll
              case NotAsked => |old(rx.Contents())| + old(sockAvailable)
              case Unanswered(_) => 0
              case _ => |old(modem.pending)| % 0x1_0000
    {
      var held := rx.Size();
      poll, due := NotAsked, false;
      AppendNothing(modem.log);
      if held == 0 && sockConnected {
        var elapsed: bool := *;
        due := elapsed;
        if elapsed {
          gotData := true;
        }
        var answer, _ := Maintain();
        poll := answer;
      }
      n := held + sockAvailable;
    }
  }

  lemma TakeFurther(buf: seq<bv8>, delivered: seq<bv8>, cnt: nat, chunk: nat)
    requires cnt + chunk <= |buf|
    ensures delivered + buf[..cnt] + buf[cnt..cnt + chunk] == delivered + buf[..cnt + chunk]
  {
  }

  lemma MoveFront(a: seq<bv8>, b: seq<bv8>, k: nat)
    requires k <= |b|
    ensures a + b[..k] + b[k..] == a + b
  {
  }

  lemma Regroup(a: seq<bv8>, b: seq<bv8>, c: seq<bv8>, d: seq<bv8>)
    ensures a + b + (c + d) == a + (b + c) + d
  {
  }
}
