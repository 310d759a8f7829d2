/** Circular storage: what a buffer with a read and a write position holds, as a sequence.

  Shared by the resizable buffer of the core and the receive FIFO of the modem driver. One position
  always stays free, so `begin == end` means empty.
*/
module Rings {

  function Min(a: int, b: int): int {
    if a < b then a else b
  }

  /** The stored bytes, from `begin` round to `end`. */
  function Ring<T>(data: seq<T>, begin: nat, end: nat): (r: seq<T>)
    requires begin < |data| && end < |data|
    ensures |r| < |data|
  {
    if begin <= end then data[begin..end] else data[begin..] + data[..end]
  }

  function Advance(p: nat, k: nat, size: nat): nat {
    if p + k >= size then p + k - size else p + k
  }

  lemma RingAt<T>(data: seq<T>, begin: nat, end: nat, k: nat)
    requires begin < |data| && end < |data| && k < |Ring(data, begin, end)|
    ensures Advance(begin, k, |data|) < |data|
    ensures Ring(data, begin, end)[k] == data[Advance(begin, k, |data|)]
  {
  }

  lemma RingSize<T>(data: seq<T>, begin: nat, end: nat)
    requires begin < |data| && end < |data|
    ensures |Ring(data, begin, end)| == if begin <= end then end - begin else |data| - (begin - end)
  {
  }

  lemma RingDrop<T>(data: seq<T>, begin: nat, end: nat, k: nat)
    requires begin < |data| && end < |data| && k <= |Ring(data, begin, end)|
    ensures var b := Advance(begin, k, |data|);
            b < |data| && Ring(data, b, end) == Ring(data, begin, end)[k..]
  {
  }

  lemma RingTake<T>(data: seq<T>, begin: nat, end: nat, k: nat, out: seq<T>)
    requires begin < |data| && end < |data| && k <= |Ring(data, begin, end)| && |out| == k
    requires forall j :: 0 <= j < k ==> out[j] == data[Advance(begin, j, |data|)]
    ensures out == Ring(data, begin, end)[..k]
  {
    forall j | 0 <= j < k ensures out[j] == Ring(data, begin, end)[j] {
      RingAt(data, begin, end, j);
    }
  }

  /** Position `j` is among the `k` positions from `end` on, going round. */
  predicate Written(end: nat, k: nat, size: nat, j: nat) {
    if end + k <= size then end <= j < end + k else end <= j || j < end + k - size
  }

  lemma RingWrite<T>(old_: seq<T>, data: seq<T>, begin: nat, end: nat, src: seq<T>)
    requires |old_| == |data| && begin < |data| && end < |data|
    requires |Ring(old_, begin, end)| + |src| < |data|
    requires forall j :: 0 <= j < |src| ==> data[Advance(end, j, |data|)] == src[j]
    requires forall j :: 0 <= j < |data| && !Written(end, |src|, |data|, j) ==> data[j] == old_[j]
    ensures var e := Advance(end, |src|, |data|);
            e < |data| && Ring(data, begin, e) == Ring(old_, begin, end) + src
  {
    var e := Advance(end, |src|, |data|);
    var before, after := Ring(old_, begin, end), Ring(data, begin, e);
    forall k | 0 <= k < |before| + |src|
      ensures after[k] == (before + src)[k]
    {
      RingAt(data, begin, e, k);
      if k < |before| {
        RingAt(old_, begin, end, k);
      } else {
        assert Advance(begin, k, |data|) == Advance(end, k - |before|, |data|);
      }
    }
  }

  /** memcpy between different buffers. */
  method Copy<T>(src: array<T>, from: nat, dst: array<T>, to: nat, n: nat)
    requires src != dst && from + n <= src.Length && to + n <= dst.Length
    modifies dst
    ensures forall j :: to <= j < to + n ==> dst[j] == src[from + (j - to)]
    ensures forall j :: 0 <= j < dst.Length && !(to <= j < to + n) ==> dst[j] == old(dst[j])
  {
    forall j | to <= j < to + n {
      dst[j] := src[from + (j - to)];
    }
  }
}
