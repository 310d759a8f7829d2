/** SLIP framing of the serial link to the boot loader (PROTOCOL section of RFC 1055). */
module Slip {
  import opened Wrappers
  import opened Sequences

  const END: bv8 := 0xC0
  const ESC: bv8 := 0xDB
  const ESC_END: bv8 := 0xDC
  const ESC_ESC: bv8 := 0xDD

  // ---------- Writing ----------

  /** Replace every occurrence of one byte. */
  function Replace(s: seq<bv8>, x: bv8, code: seq<bv8>): seq<bv8> {
    if s == [] then
      []
    else
      var k := |s| - 1;
      Replace(s[..k], x, code) + if s[k] == x then code else [s[k]]
  }

  /** A framed packet: the escape byte is replaced first, then the frame byte. */
  function Write(packet: seq<bv8>): seq<bv8> {
    [END] + Replace(Replace(packet, ESC, [ESC, ESC_ESC]), END, [ESC, ESC_END]) + [END]
  }

  function WriteAll(packets: seq<seq<bv8>>): seq<bv8> {
    if packets == [] then
      []
    else
      WriteAll(packets[..|packets| - 1]) + Write(packets[|packets| - 1])
  }

  /** The escaping byte by byte, as the standard has it. */
  function Escaped(packet: seq<bv8>): seq<bv8> {
    if packet == [] then
      []
    else
      var k := |packet| - 1;
      Escaped(packet[..k]) + EscapedByte(packet[k])
  }

  function EscapedByte(b: bv8): seq<bv8> {
    if b == 0xC0 then [0xDB, 0xDC] else if b == 0xDB then [0xDB, 0xDD] else [b]
  }

  lemma {:induction false} ReplaceAppend(a: seq<bv8>, b: seq<bv8>, x: bv8, code: seq<bv8>)
    ensures Replace(a + b, x, code) == Replace(a, x, code) + Replace(b, x, code)
  {
    if b == [] {
      assert a + b == a;
    } else {
      ReplaceAppend(a, b[..|b| - 1], x, code);
      assert (a + b)[..|a + b| - 1] == a + b[..|b| - 1];
    }
  }

  lemma ReplaceOne(b: bv8, x: bv8, code: seq<bv8>)
    ensures Replace([b], x, code) == if b == x then code else [b]
  {
    assert [b][..0] == [];
    assert Replace([], x, code) == [];
  }

  /** In this order the two replacements never disturb each other. */
  lemma {:induction false} TwoReplacements(packet: seq<bv8>)
    ensures Replace(Replace(packet, ESC, [ESC, ESC_ESC]), END, [ESC, ESC_END]) == Escaped(packet)
  {
    if packet != [] {
      var k := |packet| - 1;
      var b := packet[k];
      TwoReplacements(packet[..k]);
      var last := if b == ESC then [ESC, ESC_ESC] else [b];
      ReplaceAppend(Replace(packet[..k], ESC, [ESC, ESC_ESC]), last, END, [ESC, ESC_END]);
      ReplaceOne(ESC, END, [ESC, ESC_END]);
      ReplaceOne(ESC_ESC, END, [ESC, ESC_END]);
      ReplaceAppend([ESC], [ESC_ESC], END, [ESC, ESC_END]);
      assert [ESC] + [ESC_ESC] == [ESC, ESC_ESC];
      ReplaceOne(b, END, [ESC, ESC_END]);
    }
  }

  /** The frame byte stands at both ends of a frame and nowhere inside. */
  lemma {:induction false} NoEndInside(packet: seq<bv8>)
    ensures 0xC0 !in Escaped(packet)
    ensures Write(packet) == [0xC0] + Escaped(packet) + [0xC0]
  {
    TwoReplacements(packet);
    if packet != [] {
      NoEndInside(packet[..|packet| - 1]);
    }
  }

  // ---------- Reading ----------

  /** The generator's local variables: the packet so far, and whether an escape is open. */
  datatype State = State(partial: Option<seq<bv8>>, inEscape: bool)

  datatype Fault = InvalidHead | InvalidEscape | TimedOut(inPacket: bool)

  /** What the reader has done: the packets yielded, and where it is, or why it stopped. */
  datatype Progress =
    | Reading(state: State, packets: seq<seq<bv8>>)
    | Stopped(fault: Fault, packets: seq<seq<bv8>>)

  const START := Reading(State(None, false), [])

  function FeedByte(p: Progress, b: bv8): Progress {
    if p.Stopped? then p else
    var State(partial, inEscape) := p.state;
    if partial == None then
      if b == END then p.(state := State(Some([]), inEscape)) else Stopped(InvalidHead, p.packets)
    else if inEscape then
      if b == ESC_END then p.(state := State(Some(partial.value + [END]), false))
      else if b == ESC_ESC then p.(state := State(Some(partial.value + [ESC]), false))
      else Stopped(InvalidEscape, p.packets)
    else if b == ESC then p.(state := State(partial, true))
    else if b == END then Reading(State(None, inEscape), p.packets + [partial.value])
    else p.(state := State(Some(partial.value + [b]), inEscape))
  }

  function Feed(p: Progress, bytes: seq<bv8>): Progress {
    if bytes == [] then p else FeedByte(Feed(p, bytes[..|bytes| - 1]), bytes[|bytes| - 1])
  }

  lemma {:induction false} FeedAppend(p: Progress, a: seq<bv8>, b: seq<bv8>)
    ensures Feed(p, a + b) == Feed(Feed(p, a), b)
  {
    if b == [] {
      assert a + b == a;
    } else {
      FeedAppend(p, a, b[..|b| - 1]);
      assert (a + b)[..|a + b| - 1] == a + b[..|b| - 1];
    }
  }

  /** A read from the port takes whatever is waiting; when it comes back empty, that is a timeout. */
  function FeedChunk(p: Progress, chunk: seq<bv8>): Progress {
    if p.Reading? && chunk == [] then Stopped(TimedOut(p.state.partial != None), p.packets) else Feed(p, chunk)
  }

  function FeedChunks(p: Progress, chunks: seq<seq<bv8>>): Progress {
    if chunks == [] then p else FeedChunk(FeedChunks(p, chunks[..|chunks| - 1]), chunks[|chunks| - 1])
  }

  function Concat(chunks: seq<seq<bv8>>): seq<bv8> {
    if chunks == [] then [] else Concat(chunks[..|chunks| - 1]) + chunks[|chunks| - 1]
  }

  /** The reads before the first empty one. */
  function BeforeEmpty(chunks: seq<seq<bv8>>): (r: seq<seq<bv8>>)
    ensures r <= chunks && forall i :: 0 <= i < |r| ==> r[i] != []
    ensures |r| < |chunks| ==> chunks[|r|] == []
  {
    if chunks == [] then
      []
    else
      var k := |chunks| - 1;
      var before := BeforeEmpty(chunks[..k]);
      if before == chunks[..k] && chunks[k] != [] then chunks else before
  }

  lemma {:induction false} StoppedStays(p: Progress, bytes: seq<bv8>)
    requires p.Stopped?
    ensures Feed(p, bytes) == p
  {
    if bytes != [] {
      StoppedStays(p, bytes[..|bytes| - 1]);
    }
  }

  /** How the stream is chunked makes no difference, up to the first empty read; there the reader
      times out unless it has stopped before. */
  lemma {:induction false} ChunksIrrelevant(p: Progress, chunks: seq<seq<bv8>>)
    ensures var q := Feed(p, Concat(BeforeEmpty(chunks)));
            FeedChunks(p, chunks) ==
            if q.Reading? && BeforeEmpty(chunks) != chunks then Stopped(TimedOut(q.state.partial != None), q.packets)
            else q
  {
    if chunks != [] {
      var k := |chunks| - 1;
      var last, q := chunks[k], FeedChunks(p, chunks[..k]);
      ChunksIrrelevant(p, chunks[..k]);
      FeedAppend(p, Concat(chunks[..k]), last);
      if q.Stopped? {
        StoppedStays(q, last);
      }
    }
  }

  // ---------- The reader inverts the writer, and nothing else ----------

  /** The bytes of an unfinished frame. */
  function InFlight(s: State): seq<bv8> {
    if s.partial == None then [] else [0xC0] + Escaped(s.partial.value) + if s.inEscape then [0xDB] else []
  }

  /** An escape is only ever open inside a frame. */
  predicate Reachable(s: State) {
    s.inEscape ==> s.partial != None
  }

  lemma EscapedSnoc(packet: seq<bv8>, b: bv8)
    ensures Escaped(packet + [b]) == Escaped(packet) + EscapedByte(b)
  {
    assert (packet + [b])[..|packet|] == packet;
  }

  lemma WriteAllSnoc(packets: seq<seq<bv8>>, packet: seq<bv8>)
    ensures WriteAll(packets + [packet]) == WriteAll(packets) + [END] + Escaped(packet) + [END]
  {
    assert (packets + [packet])[..|packets|] == packets;
    NoEndInside(packet);
    assert WriteAll(packets) + ([END] + Escaped(packet) + [END]) ==
           WriteAll(packets) + [END] + Escaped(packet) + [END];
  }

  /** Whatever the reader has accepted is exactly what the writer produces for the packets yielded,
      followed by the frame it is in. */
  lemma {:induction false} AcceptedIsWritten(bytes: seq<bv8>)
    requires Feed(START, bytes).Reading?
    ensures var Reading(s, packets) := Feed(START, bytes);
            Reachable(s) && bytes == WriteAll(packets) + InFlight(s)
  {
    if bytes != [] {
      var k := |bytes| - 1;
      var b := bytes[k];
      var p := Feed(START, bytes[..k]);
      assert bytes == bytes[..k] + [b] && Feed(START, bytes) == FeedByte(p, b);
      hide Feed, WriteAll, InFlight, Reachable;
      assert p.Reading?;
      AcceptedIsWritten(bytes[..k]);
      AcceptByte(p, b);
      Associates(WriteAll(p.packets), InFlight(p.state), [b]);
    }
  }

  lemma AcceptByte(p: Progress, b: bv8)
    requires p.Reading? && Reachable(p.state) && FeedByte(p, b).Reading?
    ensures var Reading(s, packets) := FeedByte(p, b);
            Reachable(s) && WriteAll(p.packets) + (InFlight(p.state) + [b]) == WriteAll(packets) + InFlight(s)
  {
    hide WriteAll;
    var State(partial, inEscape) := p.state;
    if partial == None {
      assert InFlight(State(Some([]), inEscape)) == [] + [b];
    } else if b == END && !inEscape {
      CloseFrame(p.packets, partial.value);
    } else {
      FlightGrows(partial.value, inEscape, b);
    }
  }

  lemma CloseFrame(packets: seq<seq<bv8>>, packet: seq<bv8>)
    ensures WriteAll(packets) + (InFlight(State(Some(packet), false)) + [END]) == WriteAll(packets + [packet]) + []
  {
    hide WriteAll, Escaped;
    WriteAllSnoc(packets, packet);
    assert WriteAll(packets) + ([END] + Escaped(packet) + [] + [END]) ==
           WriteAll(packets) + [END] + Escaped(packet) + [END] + [];
  }

  /** Inside a frame, an accepted byte extends the written form of the packet. */
  lemma FlightGrows(packet: seq<bv8>, inEscape: bool, b: bv8)
    requires inEscape || b != END
    requires inEscape ==> b == ESC_END || b == ESC_ESC
    ensures InFlight(State(Some(packet), inEscape)) + [b] ==
            if inEscape then InFlight(State(Some(packet + [if b == ESC_END then END else ESC]), false))
            else if b == ESC then InFlight(State(Some(packet), true))
            else InFlight(State(Some(packet + [b]), false))
  {
    hide Escaped;
    EscapedSnoc(packet, if !inEscape then b else if b == ESC_END then END else ESC);
  }

  lemma FeedEscapedByte(packets: seq<seq<bv8>>, packet: seq<bv8>, b: bv8)
    ensures Feed(Reading(State(Some(packet), false), packets), EscapedByte(b)) ==
            Reading(State(Some(packet + [b]), false), packets)
  {
    var p := Reading(State(Some(packet), false), packets);
    var e := EscapedByte(b);
    assert Feed(p, []) == p;
    if |e| == 1 {
      assert e[..0] == [];
    } else {
      assert e[..1] == [ESC] && [ESC][..0] == [];
      assert Feed(p, [ESC]) == Reading(State(Some(packet), true), packets);
    }
  }

  lemma {:induction false} FeedEscaped(packets: seq<seq<bv8>>, packet: seq<bv8>)
    ensures Feed(Reading(State(Some([]), false), packets), Escaped(packet)) ==
            Reading(State(Some(packet), false), packets)
  {
    if packet != [] {
      var k := |packet| - 1;
      FeedEscaped(packets, packet[..k]);
      FeedAppend(Reading(State(Some([]), false), packets), Escaped(packet[..k]), EscapedByte(packet[k]));
      FeedEscapedByte(packets, packet[..k], packet[k]);
      assert packet[..k] + [packet[k]] == packet;
    }
  }

  lemma FeedOne(p: Progress, b: bv8)
    ensures Feed(p, [b]) == FeedByte(p, b)
  {
    assert [b][..0] == [];
    assert Feed(p, []) == p;
  }

  lemma FeedInFlight(packets: seq<seq<bv8>>, s: State)
    requires Reachable(s)
    ensures Feed(Reading(State(None, false), packets), InFlight(s)) == Reading(s, packets)
  {
    var idle := Reading(State(None, false), packets);
    if s.partial == None {
    } else {
      var packet := s.partial.value;
      FeedOne(idle, END);
      FeedAppend(idle, [END], Escaped(packet));
      FeedEscaped(packets, packet);
      FeedOne(Reading(State(Some(packet), false), packets), ESC);
      FeedAppend(idle, [END] + Escaped(packet), [ESC]);
      assert [END] + Escaped(packet) + [] == [END] + Escaped(packet);
    }
  }

  lemma {:induction false} FeedWritten(packets: seq<seq<bv8>>)
    ensures Feed(START, WriteAll(packets)) == Reading(State(None, false), packets)
  {
    if packets != [] {
      var k := |packets| - 1;
      var before, packet := packets[..k], packets[k];
      FeedWritten(before);
      NoEndInside(packet);
      FeedAppend(START, WriteAll(before), Write(packet));
      var idle := Reading(State(None, false), before);
      FeedInFlight(before, State(Some(packet), false));
      assert InFlight(State(Some(packet), false)) == [END] + Escaped(packet);
      FeedAppend(idle, [END] + Escaped(packet), [END]);
      FeedOne(Reading(State(Some(packet), false), before), END);
      assert before + [packet] == packets;
    }
  }

  /** Main result, in both directions: the reader is in a given state having yielded given packets
      exactly when the stream is the writer's output for them plus the unfinished frame. */
  lemma ReaderExact(bytes: seq<bv8>, s: State, packets: seq<seq<bv8>>)
    ensures Feed(START, bytes) == Reading(s, packets) <==>
            Reachable(s) && bytes == WriteAll(packets) + InFlight(s)
  {
    if Feed(START, bytes) == Reading(s, packets) {
      AcceptedIsWritten(bytes);
    }
    if Reachable(s) && bytes == WriteAll(packets) + InFlight(s) {
      FeedAppend(START, WriteAll(packets), InFlight(s));
      FeedWritten(packets);
      FeedInFlight(packets, s);
    }
  }

  /** However the port chunks the frames of any packet list, exactly those packets come out; if the
      port then has nothing more, the reader times out waiting for the next one. */
  lemma RoundTrip(packets: seq<seq<bv8>>, chunks: seq<seq<bv8>>)
    requires Concat(BeforeEmpty(chunks)) == WriteAll(packets)
    ensures FeedChunks(START, chunks) ==
            if BeforeEmpty(chunks) == chunks then Reading(State(None, false), packets)
            else Stopped(TimedOut(false), packets)
  {
    ChunksIrrelevant(START, chunks);
    FeedWritten(packets);
  }

  /** Any stream the reader accepts can be completed to whole frames. */
  lemma Completable(s: State, packets: seq<seq<bv8>>) returns (all: seq<seq<bv8>>)
    requires Reachable(s)
    ensures WriteAll(packets) + InFlight(s) <= WriteAll(all)
  {
    hide WriteAll, Escaped;
    if s.partial == None {
      all := packets;
    } else {
      var packet := s.partial.value;
      var finished := if s.inEscape then packet + [END] else packet;
      all := packets + [finished];
      EscapedSnoc(packet, END);
      WriteAllSnoc(packets, finished);
      var end := if s.inEscape then [ESC_END, END] else [END];
      assert WriteAll(packets) + InFlight(s) + end == WriteAll(all);
    }
  }

  /** The reader reports an error exactly when no packet list starts with the bytes it was given. */
  lemma ErrorExact(bytes: seq<bv8>)
    ensures Feed(START, bytes).Stopped? <==> !exists packets :: bytes <= WriteAll(packets)
  {
    hide WriteAll, Feed;
    var p := Feed(START, bytes);
    if p.Reading? {
      AcceptedIsWritten(bytes);
      var all := Completable(p.state, p.packets);
      assert bytes <= WriteAll(all);
    }
    if packets :| bytes <= WriteAll(packets) {
      var rest := WriteAll(packets)[|bytes|..];
      assert WriteAll(packets) == bytes + rest;
      FeedWritten(packets);
      FeedAppend(START, bytes, rest);
      if p.Stopped? {
        StoppedStays(p, rest);
      }
    }
  }

  /** Which byte stops the reader in a given state, and what it is then called. */
  predicate Stops(s: State, b: bv8, fault: Fault) {
    || (s.partial == None && b != 0xC0 && fault == InvalidHead)
    || (s.partial != None && s.inEscape && b != 0xDC && b != 0xDD && fault == InvalidEscape)
  }

  /** The reader has stopped having yielded given packets exactly when a byte that may not come there
      follows the writer's output for them and an unfinished frame. */
  lemma FaultExact(bytes: seq<bv8>, fault: Fault, packets: seq<seq<bv8>>)
    ensures Feed(START, bytes) == Stopped(fault, packets) <==>
            exists n: nat, s :: n < |bytes| && Reachable(s) && Stops(s, bytes[n], fault) &&
                                bytes[..n] == WriteAll(packets) + InFlight(s)
  {
    hide WriteAll, InFlight, Reachable;
    if Feed(START, bytes) == Stopped(fault, packets) {
      var n := StopPoint(bytes);
      var p := Feed(START, bytes[..n]);
      hide Feed;
      ReaderExact(bytes[..n], p.state, p.packets);
      assert Stops(p.state, bytes[n], fault);
    }
    if n: nat, s :| n < |bytes| && Reachable(s) && Stops(s, bytes[n], fault) &&
                    bytes[..n] == WriteAll(packets) + InFlight(s) {
      ReaderExact(bytes[..n], s, packets);
      FeedByteAt(bytes, n);
      StoppedStays(FeedByte(Reading(s, packets), bytes[n]), bytes[n + 1..]);
    }
  }

  lemma FeedByteAt(bytes: seq<bv8>, n: nat)
    requires n < |bytes|
    ensures Feed(START, bytes) == Feed(FeedByte(Feed(START, bytes[..n]), bytes[n]), bytes[n + 1..])
  {
    hide Feed, FeedByte;
    assert bytes[..n] + [bytes[n]] + bytes[n + 1..] == bytes;
    FeedAppend(START, bytes[..n] + [bytes[n]], bytes[n + 1..]);
    FeedAppend(START, bytes[..n], [bytes[n]]);
    FeedOne(Feed(START, bytes[..n]), bytes[n]);
  }

  /** The byte that stops the reader. */
  lemma {:induction false} StopPoint(bytes: seq<bv8>) returns (n: nat)
    requires Feed(START, bytes).Stopped?
    ensures n < |bytes| && Feed(START, bytes[..n]).Reading?
    ensures Feed(START, bytes) == FeedByte(Feed(START, bytes[..n]), bytes[n])
  {
    var k := |bytes| - 1;
    if Feed(START, bytes[..k]).Reading? {
      n := k;
    } else {
      n := StopPoint(bytes[..k]);
      assert bytes[..k][..n] == bytes[..n];
    }
  }

  // ---------- The generator ----------

  class Reader {
    var partial: Option<seq<bv8>>
    var inEscape: bool

    constructor ()
      ensures View() == State(None, false)
    {
      partial, inEscape := None, false;
    }

    function View(): State
      reads this
    {
      State(partial, inEscape)
    }

    /** Handle one read from the port: the packets completed by it, and the fault if it ends the
        generator. */
    method ReadChunk(bytes: seq<bv8>) returns (packets: seq<seq<bv8>>, error: Option<Fault>)
      modifies this
      ensures match old(FeedChunk(Reading(View(), []), bytes))
              case Reading(s, done) => error == None && View() == s && packets == done
              case Stopped(fault, done) => error == Some(fault) && packets == done
    {
      packets := [];
      if bytes == [] {
        return packets, Some(TimedOut(partial != None));
      }
      ghost var start := Reading(View(), []);
      var i := 0;
      while i < |bytes|
        invariant 0 <= i <= |bytes|
        invariant Feed(start, bytes[..i]) == Reading(View(), packets)
      {
        var b := bytes[i];
        assert bytes[..i + 1][..i] == bytes[..i];
        assert bytes == bytes[..i + 1] + bytes[i + 1..];
        FeedAppend(start, bytes[..i + 1], bytes[i + 1..]);
        ghost var next := FeedByte(Reading(View(), packets), b);
        if partial == None {
          if b == END {
            partial := Some([]);
          } else {
            StoppedStays(next, bytes[i + 1..]);
            return packets, Some(InvalidHead);
          }
        } else if inEscape {
          inEscape := false;
          if b == ESC_END {
            partial := Some(partial.value + [END]);
          } else if b == ESC_ESC {
            partial := Some(partial.value + [ESC]);
          } else {
            StoppedStays(next, bytes[i + 1..]);
            return packets, Some(InvalidEscape);
          }
        } else if b == ESC {
          inEscape := true;
        } else if b == END {
          packets := packets + [partial.value];
          partial := None;
        } else {
          partial := Some(partial.value + [b]);
        }
        i := i + 1;
      }
      assert bytes[..i] == bytes;
      return packets, None;
    }
  }
}
