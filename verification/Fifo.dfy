/** The receive FIFO of the modem driver, used from one thread.

  FifoProtocol has the interleavings of a writing with a reading thread. The elements are bytes, as
  in the one FIFO the driver has; `WidthExact` says why the bulk calls need that.
*/
module Fifo {
  import opened Rings

  class TinyGsmFifo {
    const N: nat
    const b: array<bv8>
    var w: int
    var r: int

    ghost predicate Valid()
      reads this
    {
      b.Length == N && 0 <= w < N && 0 <= r < N
    }

    ghost function Contents(): (c: seq<bv8>)
      requires Valid()
      reads this, b
      ensures |c| < N
    {
      Ring(b[..], r, w)
    }

    constructor (n: nat)
      requires n > 0
      ensures Valid() && fresh(b) && N == n && Contents() == []
    {
      N := n;
      b := new bv8[n];
      w, r := 0, 0;
    }

    method Clear()
      requires Valid()
      modifies this
      ensures Valid() && Contents() == []
    {
      r, w := 0, 0;
    }

    method Free() returns (s: int)
      requires Valid()
      ensures s == N - 1 - |Contents()|
    {
      s := r - w;
      if s <= 0 {
        s := s + N;
      }
      s := s - 1;
    }

    method Size() returns (s: int)
      requires Valid()
      ensures s == |Contents()|
    {
      s := w - r;
      if s < 0 {
        s := s + N;
      }
    }

    function Inc(i: nat, n: nat): nat
      requires N > 0
    {
      (i + n) % N
    }

    method Put(c: bv8) returns (ok: bool)
      requires Valid()
      modifies this`w, b
      ensures Valid() && ok == (old(|Contents()|) < N - 1)
      ensures Contents() == if ok then old(Contents()) + [c] else old(Contents())
    {
      ghost var before := b[..];
      var j := w;
      var i := Inc(j, 1);
      IncIsAdvance(w, 1, N);
      if i == r {
        return false;
      }
      b[j] := c;
      w := i;
      RingWrite(before, b[..], r, j, [c]);
      return true;
    }

    method Get() returns (ok: bool, c: bv8)
      requires Valid()
      modifies this`r
      ensures Valid() && ok == (old(Contents()) != [])
      ensures if ok then old(Contents()) == [c] + Contents() else Contents() == old(Contents())
    {
      c := b[r];
      if r == w {
        return false, c;
      }
      RingAt(b[..], r, w, 0);
      RingDrop(b[..], r, w, 1);
      IncIsAdvance(r, 1, N);
      r := Inc(r, 1);
      return true, c;
    }

    /** One chunk of a bulk put: copy first, then publish the new write position. */
    method PutChunk(p: array<bv8>, off: nat, f: nat)
      requires Valid() && p != b && off + f <= p.Length
      requires f <= N - 1 - |Contents()| && f <= N - w
      modifies this`w, b
      ensures Valid() && Contents() == old(Contents()) + p[off..off + f]
    {
      hide Ring;
      ghost var before := b[..];
      var at := w;
      Copy(p, off, b, at, f);
      IncIsAdvance(at, f, N);
      RingWrite(before, b[..], r, at, p[off..off + f]);
      w := Inc(at, f);
    }

    /** One chunk of a bulk get. */
    method GetChunk(p: array<bv8>, at: nat, f: nat)
      requires Valid() && p != b && at + f <= p.Length
      requires f <= |Contents()| && f <= N - r
      modifies this`r, p
      ensures Valid() && p[at..at + f] == old(Contents())[..f] && Contents() == old(Contents())[f..]
      ensures forall j :: 0 <= j < p.Length && !(at <= j < at + f) ==> p[j] == old(p[j])
    {
      hide Ring;
      ghost var data := b[..];
      RingSize(data, r, w);
      Copy(b, r, p, at, f);
      IncIsAdvance(r, f, N);
      RingDrop(data, r, w, f);
      RingTake(data, r, w, f, p[at..at + f]);
      r := Inc(r, f);
      assert b[..] == data;
    }

    /** Bulk put without waiting: as much as fits, in order. */
    method PutAll(p: array<bv8>, n: nat) returns (k: nat)
      requires Valid() && p != b && n <= p.Length
      modifies this`w, b
      ensures Valid() && k == Min(n, N - 1 - |old(Contents())|)
      ensures Contents() == old(Contents()) + p[..k]
    {
      hide Ring;
      ghost var contents := Contents();
      var c, off := n, 0;
      assert contents == contents + p[..0];
      while c > 0
        invariant Valid() && 0 <= c <= n && off == n - c
        invariant Contents() == contents + p[..off]
      {
        var f := Free();
        if f == 0 {
          return n - c;
        }
        if c < f {
          f := c;
        }
        var m := N - w;
        if f > m {
          f := m;
        }
        PutChunk(p, off, f);
        assert p[..off + f] == p[..off] + p[off..off + f];
        c := c - f;
        off := off + f;
      }
      return n - c;
    }

    /** Bulk get without waiting, into `p` from position `at` on. */
    method GetAll(p: array<bv8>, at: nat, n: nat) returns (k: nat)
      requires Valid() && p != b && at + n <= p.Length
      modifies this`r, p
      ensures Valid() && k == Min(n, |old(Contents())|)
      ensures p[at..at + k] == old(Contents())[..k] && Contents() == old(Contents())[k..]
      ensures forall j :: 0 <= j < p.Length && !(at <= j < at + k) ==> p[j] == old(p[j])
    {
      hide Ring;
      ghost var contents, given := Contents(), p[..];
      var c, off := n, 0;
      while c > 0
        invariant Valid() && 0 <= c <= n && off == n - c <= |contents|
        invariant p[at..at + off] == contents[..off] && Contents() == contents[off..]
        invariant forall j :: 0 <= j < p.Length && !(at <= j < at + off) ==> p[j] == given[j]
      {
        var f := Size();
        if f == 0 {
          return n - c;
        }
        if c < f {
          f := c;
        }
        var m := N - r;
        if f > m {
          f := m;
        }
        ghost var before := p[..];
        GetChunk(p, at + off, f);
        TakenBehind(before, p[..], at, off, f);
        SliceStep(contents, off, f);
        c := c - f;
        off := off + f;
      }
      return n - c;
    }
  }

  lemma IncIsAdvance(i: nat, k: nat, n: nat)
    requires i < n && i + k <= n
    ensures (i + k) % n == Advance(i, k, n)
  {
    if i + k < n {
      Small(i + k, n);
    }
  }

  lemma SliceStep(s: seq<bv8>, off: nat, f: nat)
    requires off + f <= |s|
    ensures s[..off + f] == s[..off] + s[off..][..f] && s[off..][f..] == s[off + f..]
  {
  }

  /** A buffer filled further. */
  lemma TakenBehind(before: seq<bv8>, after: seq<bv8>, at: nat, off: nat, f: nat)
    requires |before| == |after| && at + off + f <= |after|
    requires forall j :: 0 <= j < |after| && !(at + off <= j < at + off + f) ==> after[j] == before[j]
    ensures after[at..at + off + f] == before[at..at + off] + after[at + off..at + off + f]
  {
  }

  lemma Small(x: nat, n: nat)
    requires x < n
    ensures x % n == x
  {
  }

  // ---------- Elements wider than a byte ----------

  type Element = seq<bv8>

  predicate AllWide(cells: seq<Element>, width: nat) {
    forall k :: 0 <= k < |cells| ==> |cells[k]| == width
  }

  /** How many bytes of element `k` are among the first `n` of a copy. */
  function BytesCopied(width: nat, k: nat, n: nat): (c: nat)
    ensures c <= width
  {
    if n <= k * width then 0 else if n >= k * width + width then width else n - k * width
  }

  /** The cells behind a chunk of elements of the given width: the source copies as many bytes as there
      are elements, so they are filled one after the other until the bytes run out. */
  function AfterCopy(cells: seq<Element>, src: seq<Element>, width: nat): (r: seq<Element>)
    requires |cells| == |src| && AllWide(cells, width) && AllWide(src, width)
    ensures |r| == |src| && AllWide(r, width)
  {
    seq(|src|, k requires 0 <= k < |src| =>
      var c := BytesCopied(width, k, |src|);
      src[k][..c] + cells[k][c..])
  }

  /** Element `k` of a chunk of `n` arrives, whatever the elements and the cells hold. */
  ghost predicate Arrives(width: nat, n: nat, k: nat)
    requires k < n
  {
    forall cells: seq<Element>, src: seq<Element> ::
      |cells| == |src| == n && AllWide(cells, width) && AllWide(src, width) ==>
        AfterCopy(cells, src, width)[k] == src[k]
  }

  /** Just the elements that lie within the first `n` bytes arrive. */
  lemma ArrivesExact(width: nat, n: nat, k: nat)
    requires width > 0 && k < n
    ensures Arrives(width, n, k) <==> n >= k * width + width
  {
    var c := BytesCopied(width, k, n);
    if n >= k * width + width {
      forall cells: seq<Element>, src: seq<Element>
        | |cells| == |src| == n && AllWide(cells, width) && AllWide(src, width)
        ensures AfterCopy(cells, src, width)[k] == src[k]
      {
        assert c == width && |src[k]| == width && |cells[k]| == width;
      }
    } else {
      var old0, new1: Element := seq(width, i => 0), seq(width, i => 1);
      var cells, src := seq(n, i => old0), seq(n, i => new1);
      assert c < width;
      assert AfterCopy(cells, src, width)[k][c] == 0 && src[k][c] == 1;
      assert AfterCopy(cells, src, width)[k] != src[k];
    }
  }

  /** So all elements of a chunk arrive exactly when they are one byte wide. */
  lemma WidthExact(width: nat, n: nat)
    requires width > 0 && n > 0
    ensures (forall k: nat :: k < n ==> Arrives(width, n, k)) <==> width == 1
  {
    ArrivesExact(width, n, n - 1);
    if width == 1 {
      forall k: nat | k < n ensures Arrives(width, n, k) {
        ArrivesExact(width, n, k);
      }
    } else {
      TooMany(width, n);
    }
  }

  lemma TooMany(width: nat, n: nat)
    requires width > 1 && n > 0
    ensures n < (n - 1) * width + width
  {
  }

  /** What a chunk of a bulk put leaves in a ring of wide elements: what it held, then the cells as the
      copy has left them. */
  lemma WidePut(cells: seq<Element>, r: nat, w: nat, src: seq<Element>, width: nat)
    requires r < |cells| && w < |cells| && AllWide(cells, width) && AllWide(src, width)
    requires w + |src| <= |cells| && |Ring(cells, r, w)| + |src| < |cells|
    ensures var arrived := AfterCopy(cells[w..w + |src|], src, width);
            var cells' := cells[..w] + arrived + cells[w + |src|..];
            Ring(cells', r, Advance(w, |src|, |cells|)) == Ring(cells, r, w) + arrived
  {
    hide Ring, BytesCopied;
    var arrived := AfterCopy(cells[w..w + |src|], src, width);
    RingWrite(cells, cells[..w] + arrived + cells[w + |src|..], r, w, arrived);
  }

  /** For bytes that is what `PutChunk` promises. */
  lemma WidePutOfBytes(cells: seq<Element>, r: nat, w: nat, src: seq<Element>)
    requires r < |cells| && w < |cells| && AllWide(cells, 1) && AllWide(src, 1)
    requires w + |src| <= |cells| && |Ring(cells, r, w)| + |src| < |cells|
    ensures var cells' := cells[..w] + AfterCopy(cells[w..w + |src|], src, 1) + cells[w + |src|..];
            Ring(cells', r, Advance(w, |src|, |cells|)) == Ring(cells, r, w) + src
  {
    WidePut(cells, r, w, src, 1);
    var old_ := cells[w..w + |src|];
    forall k: nat | k < |src| ensures AfterCopy(old_, src, 1)[k] == src[k] {
      ArrivesExact(1, |src|, k);
    }
    assert AfterCopy(old_, src, 1) == src;
  }
}
