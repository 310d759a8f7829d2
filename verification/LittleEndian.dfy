/** Bytes as numbers: little-endian integers, as `struct` packs them, and exclusive or. */
module LittleEndian {

  type byte = x: int | 0 <= x < 0x100
  type uint32 = x: int | 0 <= x < 0x1_0000_0000

  function Pack4(x: nat): (b: seq<byte>)
    requires x < 0x1_0000_0000
    ensures |b| == 4
  {
    [x % 0x100, x / 0x100 % 0x100, x / 0x100 / 0x100 % 0x100, x / 0x100 / 0x100 / 0x100]
  }

  function Unpack4(b: seq<byte>): (x: nat)
    requires |b| == 4
    ensures x < 0x1_0000_0000
  {
    b[0] as int + 0x100 * (b[1] as int + 0x100 * (b[2] as int + 0x100 * (b[3] as int)))
  }

  lemma Round4(x: nat)
    requires x < 0x1_0000_0000
    ensures Unpack4(Pack4(x)) == x
  {
  }

  /** The number in the four bytes of a file from `pos` on: the byte at pos + i counts 256^i. */
  function Word(f: seq<byte>, pos: nat): nat
    requires pos + 4 <= |f|
  {
    var b0: int, b1: int, b2: int, b3: int := f[pos], f[pos + 1], f[pos + 2], f[pos + 3];
    b0 + 0x100 * b1 + 0x1_0000 * b2 + 0x100_0000 * b3
  }

  lemma UnpackedWord(f: seq<byte>, pos: nat)
    requires pos + 4 <= |f|
    ensures Unpack4(f[pos..pos + 4]) == Word(f, pos)
  {
    var b := f[pos..pos + 4];
    assert b[0] == f[pos] && b[1] == f[pos + 1] && b[2] == f[pos + 2] && b[3] == f[pos + 3];
  }

  lemma PackedWord(f: seq<byte>, pos: nat, x: nat)
    requires x < 0x1_0000_0000 && pos + 4 <= |f| && f[pos..pos + 4] == Pack4(x)
    ensures Word(f, pos) == x
  {
    UnpackedWord(f, pos);
    Round4(x);
    hide Pack4, Unpack4, Word;
  }

  /** Exclusive or, bit by bit from the lowest. */
  function Xor(a: nat, b: nat): nat {
    if a == 0 && b == 0 then 0 else 2 * Xor(a / 2, b / 2) + (a + b) % 2
  }

  lemma {:induction false} XorSymmetric(a: nat, b: nat)
    ensures Xor(a, b) == Xor(b, a)
  {
    if a != 0 || b != 0 {
      XorSymmetric(a / 2, b / 2);
    }
  }

  lemma {:induction false} XorZero(a: nat)
    ensures Xor(a, 0) == a
  {
    if a != 0 {
      XorZero(a / 2);
    }
  }

  lemma XorHalves(a: nat, b: nat)
    ensures Xor(a, b) / 2 == Xor(a / 2, b / 2) && Xor(a, b) % 2 == (a + b) % 2
  {
  }

  lemma {:induction false} XorAssociative(a: nat, b: nat, c: nat)
    ensures Xor(Xor(a, b), c) == Xor(a, Xor(b, c))
    decreases a + b + c
  {
    if a + b + c != 0 {
      hide Xor;
      XorAssociative(a / 2, b / 2, c / 2);
      XorHalves(a, b);
      XorHalves(b, c);
      XorHalves(Xor(a, b), c);
      XorHalves(a, Xor(b, c));
      SumParity(a, b, c, Xor(a, b), Xor(b, c));
      SameHalves(Xor(Xor(a, b), c), Xor(a, Xor(b, c)));
    }
  }

  lemma SumParity(a: nat, b: nat, c: nat, ab: nat, bc: nat)
    requires ab % 2 == (a + b) % 2 && bc % 2 == (b + c) % 2
    ensures (ab + c) % 2 == (a + bc) % 2
  {
  }

  lemma SameHalves(x: nat, y: nat)
    requires x / 2 == y / 2 && x % 2 == y % 2
    ensures x == y
  {
  }

  lemma {:induction false} XorBound(a: nat, b: nat, limit: nat)
    requires a < Power2(limit) && b < Power2(limit)
    ensures Xor(a, b) < Power2(limit)
  {
    if limit > 0 {
      XorBound(a / 2, b / 2, limit - 1);
      XorHalves(a, b);
    }
  }

  function Power2(n: nat): nat {
    if n == 0 then 1 else 2 * Power2(n - 1)
  }

  /** On bytes it stays a byte. */
  lemma XorByte(a: byte, b: byte)
    ensures 0 <= Xor(a, b) < 0x100
  {
    assert Power2(8) == 0x100;
    XorBound(a, b, 8);
  }
}
