/** The CRC7 and CRC16 of the SD driver: table look-ups, and what they compute.

  The C functions index a 256-entry table by a byte. Here line `l` of a table holds entries
  8*l .. 8*l+7, as the source lays them out. `char` is unsigned on this target.
*/
module SdCrc {
  import opened PolynomialCrc

  // ---------- Tables ----------

  function Line7(l: bv8): (line: seq<bv8>)
    ensures |line| == 8
  {
    match l
    case 0 => [0x00, 0x09, 0x12, 0x1B, 0x24, 0x2D, 0x36, 0x3F]
    case 1 => [0x48, 0x41, 0x5A, 0x53, 0x6C, 0x65, 0x7E, 0x77]
    case 2 => [0x19, 0x10, 0x0B, 0x02, 0x3D, 0x34, 0x2F, 0x26]
    case 3 => [0x51, 0x58, 0x43, 0x4A, 0x75, 0x7C, 0x67, 0x6E]
    case 4 => [0x32, 0x3B, 0x20, 0x29, 0x16, 0x1F, 0x04, 0x0D]
    case 5 => [0x7A, 0x73, 0x68, 0x61, 0x5E, 0x57, 0x4C, 0x45]
    case 6 => [0x2B, 0x22, 0x39, 0x30, 0x0F, 0x06, 0x1D, 0x14]
    case 7 => [0x63, 0x6A, 0x71, 0x78, 0x47, 0x4E, 0x55, 0x5C]
    case 8 => [0x64, 0x6D, 0x76, 0x7F, 0x40, 0x49, 0x52, 0x5B]
    case 9 => [0x2C, 0x25, 0x3E, 0x37, 0x08, 0x01, 0x1A, 0x13]
    case 10 => [0x7D, 0x74, 0x6F, 0x66, 0x59, 0x50, 0x4B, 0x42]
    case 11 => [0x35, 0x3C, 0x27, 0x2E, 0x11, 0x18, 0x03, 0x0A]
    case 12 => [0x56, 0x5F, 0x44, 0x4D, 0x72, 0x7B, 0x60, 0x69]
    case 13 => [0x1E, 0x17, 0x0C, 0x05, 0x3A, 0x33, 0x28, 0x21]
    case 14 => [0x4F, 0x46, 0x5D, 0x54, 0x6B, 0x62, 0x79, 0x70]
    case 15 => [0x07, 0x0E, 0x15, 0x1C, 0x23, 0x2A, 0x31, 0x38]
    case 16 => [0x41, 0x48, 0x53, 0x5A, 0x65, 0x6C, 0x77, 0x7E]
    case 17 => [0x09, 0x00, 0x1B, 0x12, 0x2D, 0x24, 0x3F, 0x36]
    case 18 => [0x58, 0x51, 0x4A, 0x43, 0x7C, 0x75, 0x6E, 0x67]
    case 19 => [0x10, 0x19, 0x02, 0x0B, 0x34, 0x3D, 0x26, 0x2F]
    case 20 => [0x73, 0x7A, 0x61, 0x68, 0x57, 0x5E, 0x45, 0x4C]
    case 21 => [0x3B, 0x32, 0x29, 0x20, 0x1F, 0x16, 0x0D, 0x04]
    case 22 => [0x6A, 0x63, 0x78, 0x71, 0x4E, 0x47, 0x5C, 0x55]
    case 23 => [0x22, 0x2B, 0x30, 0x39, 0x06, 0x0F, 0x14, 0x1D]
    case 24 => [0x25, 0x2C, 0x37, 0x3E, 0x01, 0x08, 0x13, 0x1A]
    case 25 => [0x6D, 0x64, 0x7F, 0x76, 0x49, 0x40, 0x5B, 0x52]
    case 26 => [0x3C, 0x35, 0x2E, 0x27, 0x18, 0x11, 0x0A, 0x03]
    case 27 => [0x74, 0x7D, 0x66, 0x6F, 0x50, 0x59, 0x42, 0x4B]
    case 28 => [0x17, 0x1E, 0x05, 0x0C, 0x33, 0x3A, 0x21, 0x28]
    case 29 => [0x5F, 0x56, 0x4D, 0x44, 0x7B, 0x72, 0x69, 0x60]
    case 30 => [0x0E, 0x07, 0x1C, 0x15, 0x2A, 0x23, 0x38, 0x31]
    case _ => [0x46, 0x4F, 0x54, 0x5D, 0x62, 0x6B, 0x70, 0x79]
  }

  function Line16(l: bv8): (line: seq<bv16>)
    ensures |line| == 8
  {
    match l
    case 0 => [0x0000, 0x1021, 0x2042, 0x3063, 0x4084, 0x50A5, 0x60C6, 0x70E7]
    case 1 => [0x8108, 0x9129, 0xA14A, 0xB16B, 0xC18C, 0xD1AD, 0xE1CE, 0xF1EF]
    case 2 => [0x1231, 0x0210, 0x3273, 0x2252, 0x52B5, 0x4294, 0x72F7, 0x62D6]
    case 3 => [0x9339, 0x8318, 0xB37B, 0xA35A, 0xD3BD, 0xC39C, 0xF3FF, 0xE3DE]
    case 4 => [0x2462, 0x3443, 0x0420, 0x1401, 0x64E6, 0x74C7, 0x44A4, 0x5485]
    case 5 => [0xA56A, 0xB54B, 0x8528, 0x9509, 0xE5EE, 0xF5CF, 0xC5AC, 0xD58D]
    case 6 => [0x3653, 0x2672, 0x1611, 0x0630, 0x76D7, 0x66F6, 0x5695, 0x46B4]
    case 7 => [0xB75B, 0xA77A, 0x9719, 0x8738, 0xF7DF, 0xE7FE, 0xD79D, 0xC7BC]
    case 8 => [0x48C4, 0x58E5, 0x6886, 0x78A7, 0x0840, 0x1861, 0x2802, 0x3823]
    case 9 => [0xC9CC, 0xD9ED, 0xE98E, 0xF9AF, 0x8948, 0x9969, 0xA90A, 0xB92B]
    case 10 => [0x5AF5, 0x4AD4, 0x7AB7, 0x6A96, 0x1A71, 0x0A50, 0x3A33, 0x2A12]
    case 11 => [0xDBFD, 0xCBDC, 0xFBBF, 0xEB9E, 0x9B79, 0x8B58, 0xBB3B, 0xAB1A]
    case 12 => [0x6CA6, 0x7C87, 0x4CE4, 0x5CC5, 0x2C22, 0x3C03, 0x0C60, 0x1C41]
    case 13 => [0xEDAE, 0xFD8F, 0xCDEC, 0xDDCD, 0xAD2A, 0xBD0B, 0x8D68, 0x9D49]
    case 14 => [0x7E97, 0x6EB6, 0x5ED5, 0x4EF4, 0x3E13, 0x2E32, 0x1E51, 0x0E70]
    case 15 => [0xFF9F, 0xEFBE, 0xDFDD, 0xCFFC, 0xBF1B, 0xAF3A, 0x9F59, 0x8F78]
    case 16 => [0x9188, 0x81A9, 0xB1CA, 0xA1EB, 0xD10C, 0xC12D, 0xF14E, 0xE16F]
    case 17 => [0x1080, 0x00A1, 0x30C2, 0x20E3, 0x5004, 0x4025, 0x7046, 0x6067]
    case 18 => [0x83B9, 0x9398, 0xA3FB, 0xB3DA, 0xC33D, 0xD31C, 0xE37F, 0xF35E]
    case 19 => [0x02B1, 0x1290, 0x22F3, 0x32D2, 0x4235, 0x5214, 0x6277, 0x7256]
    case 20 => [0xB5EA, 0xA5CB, 0x95A8, 0x8589, 0xF56E, 0xE54F, 0xD52C, 0xC50D]
    case 21 => [0x34E2, 0x24C3, 0x14A0, 0x0481, 0x7466, 0x6447, 0x5424, 0x4405]
    case 22 => [0xA7DB, 0xB7FA, 0x8799, 0x97B8, 0xE75F, 0xF77E, 0xC71D, 0xD73C]
    case 23 => [0x26D3, 0x36F2, 0x0691, 0x16B0, 0x6657, 0x7676, 0x4615, 0x5634]
    case 24 => [0xD94C, 0xC96D, 0xF90E, 0xE92F, 0x99C8, 0x89E9, 0xB98A, 0xA9AB]
    case 25 => [0x5844, 0x4865, 0x7806, 0x6827, 0x18C0, 0x08E1, 0x3882, 0x28A3]
    case 26 => [0xCB7D, 0xDB5C, 0xEB3F, 0xFB1E, 0x8BF9, 0x9BD8, 0xABBB, 0xBB9A]
    case 27 => [0x4A75, 0x5A54, 0x6A37, 0x7A16, 0x0AF1, 0x1AD0, 0x2AB3, 0x3A92]
    case 28 => [0xFD2E, 0xED0F, 0xDD6C, 0xCD4D, 0xBDAA, 0xAD8B, 0x9DE8, 0x8DC9]
    case 29 => [0x7C26, 0x6C07, 0x5C64, 0x4C45, 0x3CA2, 0x2C83, 0x1CE0, 0x0CC1]
    case 30 => [0xEF1F, 0xFF3E, 0xCF5D, 0xDF7C, 0xAF9B, 0xBFBA, 0x8FD9, 0x9FF8]
    case _ => [0x6E17, 0x7E36, 0x4E55, 0x5E74, 0x2E93, 0x3EB2, 0x0ED1, 0x1EF0]
  }

  function Entry7(i: bv8): bv8 {
    Line7(i >> 3)[(i & 7) as nat]
  }

  function Entry16(i: bv8): bv16 {
    Line16(i >> 3)[(i & 7) as nat]
  }

  // ---------- Registers and messages as polynomials ----------

  /** x^3 + 1, the low part of the generator x^7 + x^3 + 1. */
  const G7: Bits := [false, false, false, true, false, false, true]

  /** x^12 + x^5 + 1, the low part of the generator x^16 + x^12 + x^5 + 1. */
  const G16: Bits := [false, false, false, true, false, false, false, false,
                      false, false, true, false, false, false, false, true]

  function Mask(i: nat): (m: bv16)
    requires i < 16
    ensures m != 0 && m & (m - 1) == 0
  {
    match i
    case 0 => 0x8000 case 1 => 0x4000 case 2 => 0x2000 case 3 => 0x1000
    case 4 => 0x0800 case 5 => 0x0400 case 6 => 0x0200 case 7 => 0x0100
    case 8 => 0x0080 case 9 => 0x0040 case 10 => 0x0020 case 11 => 0x0010
    case 12 => 0x0008 case 13 => 0x0004 case 14 => 0x0002 case _ => 0x0001
  }

  /** Coefficient `i` of a 16-bit register, highest power first. */
  predicate Bit(r: bv16, i: nat)
    requires i < 16
  {
    r & Mask(i) != 0
  }

  function Bits16(r: bv16): (b: Bits)
    ensures |b| == 16
    ensures forall i :: 0 <= i < 16 ==> b[i] == Bit(r, i)
  {
    seq(16, i requires 0 <= i < 16 => Bit(r, i))
  }

  function Bits8(r: bv8): (b: Bits)
    ensures |b| == 8
  {
    Bits16(r as bv16)[8..]
  }

  function Bits7(r: bv8): (b: Bits)
    ensures |b| == 7
  {
    Bits16(r as bv16)[9..]
  }

  /** The bits of a message in the order they are sent. */
  function MessageBits(data: seq<bv8>): (b: Bits)
    ensures |b| == 8 * |data|
  {
    if data == [] then [] else MessageBits(data[..|data| - 1]) + Bits8(data[|data| - 1])
  }

  lemma XorMask(a: bv16, b: bv16, m: bv16)
    requires m != 0 && m & (m - 1) == 0
    ensures ((a ^ b) & m != 0) == ((a & m != 0) != (b & m != 0))
  {
  }

  function Sum16(a: bv16, b: bv16): bv16 {
    a ^ b
  }

  lemma XorBits(a: bv16, b: bv16)
    ensures Bits16(Sum16(a, b)) == Xor(Bits16(a), Bits16(b))
  {
    forall i: nat | i < 16
      ensures Bits16(a ^ b)[i] == Xor(Bits16(a), Bits16(b))[i]
    {
      XorMask(a, b, Mask(i));
    }
  }

  lemma ShiftBit(r: bv16, i: nat)
    requires i < 16
    ensures Bit(r << 1, i) == (i < 15 && Bit(r, i + 1))
  {
  }

  lemma ShiftBits(r: bv16)
    ensures Bits16(r << 1) == Bits16(r)[1..] + [false]
  {
    forall i: nat | i < 16
      ensures Bits16(r << 1)[i] == (Bits16(r)[1..] + [false])[i]
    {
      ShiftBit(r, i);
    }
  }

  lemma ByteBit(r: bv16, i: nat)
    requires i < 8
    ensures Bit(r << 8, i) == Bit(r, i + 8) && !Bit(r << 8, i + 8)
    ensures Bit(r >> 8, i + 8) == Bit(r, i)
  {
  }

  lemma ByteBits(r: bv16)
    ensures Bits16(r << 8) == Bits16(r)[8..] + Zeros(8)
    ensures Bits8((r >> 8) as bv8) == Bits16(r)[..8]
  {
    forall i: nat | i < 8
      ensures Bits16(r << 8)[i] == Bits16(r)[8..][i] && !Bits16(r << 8)[8 + i]
      ensures Bits8((r >> 8) as bv8)[i] == Bits16(r)[..8][i]
    {
      ByteBit(r, i);
    }
  }

  lemma XorByteBits(a: bv8, b: bv8)
    ensures Bits8(a ^ b) == Xor(Bits8(a), Bits8(b))
  {
    XorBits(a as bv16, b as bv16);
    assert (a ^ b) as bv16 == (a as bv16) ^ (b as bv16);
  }

  lemma ByteMasks(i: bv8)
    ensures Bit(i as bv16, 8) == (i & 0x80 != 0) && Bit(i as bv16, 9) == (i & 0x40 != 0)
    ensures Bit(i as bv16, 10) == (i & 0x20 != 0) && Bit(i as bv16, 11) == (i & 0x10 != 0)
    ensures Bit(i as bv16, 12) == (i & 0x08 != 0) && Bit(i as bv16, 13) == (i & 0x04 != 0)
    ensures Bit(i as bv16, 14) == (i & 0x02 != 0) && Bit(i as bv16, 15) == (i & 0x01 != 0)
  {
  }

  // ---------- One division step on a machine register ----------

  function Shift7(r: bv8, bit: bool): bv8 {
    var s := (r << 1) & 0x7F;
    if (r & 0x40 != 0) != bit then s ^ 0x09 else s
  }

  function Shift16(r: bv16, bit: bool): bv16 {
    var s := r << 1;
    if (r & 0x8000 != 0) != bit then s ^ 0x1021 else s
  }

  lemma GeneratorBits()
    ensures Bits16(0x1021) == G16 && Bits7(0x09) == G7
    ensures Bits16(0) == Zeros(16) && Bits7(0) == Zeros(7)
  {
  }

  lemma TopBit(r: bv16)
    ensures Bit(r, 0) == (r & 0x8000 != 0)
  {
  }

  lemma Shift16IsStep(r: bv16, bit: bool)
    ensures Bits16(Shift16(r, bit)) == Step(G16, Bits16(r), bit)
  {
    TopBit(r);
    hide Bit;
    GeneratorBits();
    ShiftBits(r);
    XorBits(r << 1, 0x1021);
  }

  /** Only the low seven bits of a CRC7 register matter. */
  lemma LowBits(a: bv16, b: bv16)
    requires a & 0x7F == b & 0x7F
    ensures Bits16(a)[9..] == Bits16(b)[9..]
  {
    forall k: nat | k < 7
      ensures Bits16(a)[9..][k] == Bits16(b)[9..][k]
    {
    }
  }

  lemma Widen7(r: bv8)
    ensures ((r << 1) & 0x7F) as bv16 & 0x7F == (r as bv16 << 1) & 0x7F
  {
  }

  lemma Shifted7Low(r: bv8)
    ensures Bits7((r << 1) & 0x7F) == Bits7(r)[1..] + [false]
  {
    hide Bit;
    Widen7(r);
    ShiftBits(r as bv16);
    LowBits(((r << 1) & 0x7F) as bv16, r as bv16 << 1);
  }

  lemma Add9Bits(s: bv8)
    ensures Bits7(s ^ 0x09) == Xor(Bits7(s), Bits7(0x09))
  {
    hide Bit;
    assert (s ^ 0x09) as bv16 == (s as bv16) ^ 0x09;
    XorBits(s as bv16, 0x09);
  }

  lemma Shift7IsStep(r: bv8, bit: bool)
    requires r < 0x80
    ensures Shift7(r, bit) < 0x80 && Bits7(Shift7(r, bit)) == Step(G7, Bits7(r), bit)
  {
    ByteMasks(r);
    hide Bit;
    GeneratorBits();
    Shifted7Low(r);
    Add9Bits((r << 1) & 0x7F);
  }

  // ---------- Every table entry is eight division steps ----------

  /** The register after the first `k` bits of a byte, started from zero. */
  function Feed7(i: bv8, k: nat): bv8
    requires k <= 8
  {
    if k == 0 then 0 else Shift7(Feed7(i, k - 1), Bit(i as bv16, 7 + k))
  }

  function Feed16(i: bv8, k: nat): bv16
    requires k <= 8
  {
    if k == 0 then 0 else Shift16(Feed16(i, k - 1), Bit(i as bv16, 7 + k))
  }

  function Eight7(i: bv8): bv8 {
    var r := Shift7(Shift7(0, i & 0x80 != 0), i & 0x40 != 0);
    var r := Shift7(Shift7(r, i & 0x20 != 0), i & 0x10 != 0);
    var r := Shift7(Shift7(r, i & 0x08 != 0), i & 0x04 != 0);
    Shift7(Shift7(r, i & 0x02 != 0), i & 0x01 != 0)
  }

  function Eight16(i: bv8): bv16 {
    var r := Shift16(Shift16(0, i & 0x80 != 0), i & 0x40 != 0);
    var r := Shift16(Shift16(r, i & 0x20 != 0), i & 0x10 != 0);
    var r := Shift16(Shift16(r, i & 0x08 != 0), i & 0x04 != 0);
    Shift16(Shift16(r, i & 0x02 != 0), i & 0x01 != 0)
  }

  lemma EightIsFeed(i: bv8)
    ensures Eight7(i) == Feed7(i, 8) && Eight16(i) == Feed16(i, 8)
  {
    ByteMasks(i);
    hide Bit, Shift7, Shift16;
    assert Feed7(i, 1) == Shift7(0, Bit(i as bv16, 8));
    assert Feed7(i, 2) == Shift7(Shift7(0, Bit(i as bv16, 8)), Bit(i as bv16, 9));
    assert Feed7(i, 4) == Shift7(Shift7(Feed7(i, 2), Bit(i as bv16, 10)), Bit(i as bv16, 11));
    assert Feed7(i, 6) == Shift7(Shift7(Feed7(i, 4), Bit(i as bv16, 12)), Bit(i as bv16, 13));
    assert Feed16(i, 1) == Shift16(0, Bit(i as bv16, 8));
    assert Feed16(i, 2) == Shift16(Shift16(0, Bit(i as bv16, 8)), Bit(i as bv16, 9));
    assert Feed16(i, 4) == Shift16(Shift16(Feed16(i, 2), Bit(i as bv16, 10)), Bit(i as bv16, 11));
    assert Feed16(i, 6) == Shift16(Shift16(Feed16(i, 4), Bit(i as bv16, 12)), Bit(i as bv16, 13));
  }

  lemma {:induction false} Feed7IsRun(i: bv8, k: nat)
    requires k <= 8
    ensures Feed7(i, k) < 0x80 && Bits7(Feed7(i, k)) == Run(G7, Zeros(7), Bits8(i)[..k])
  {
    GeneratorBits();
    if k > 0 {
      var bit := Bits8(i)[k - 1];
      assert bit == Bit(i as bv16, 7 + k);
      hide Bit, Bits7, Bits16, Shift7, Shift16, Step;
      Feed7IsRun(i, k - 1);
      Shift7IsStep(Feed7(i, k - 1), bit);
      RunPrefix(G7, Zeros(7), Bits8(i), k - 1);
    }
  }

  lemma {:induction false} Feed16IsRun(i: bv8, k: nat)
    requires k <= 8
    ensures Bits16(Feed16(i, k)) == Run(G16, Zeros(16), Bits8(i)[..k])
  {
    GeneratorBits();
    if k > 0 {
      var bit := Bits8(i)[k - 1];
      assert bit == Bit(i as bv16, 7 + k);
      hide Bit, Bits7, Bits16, Shift7, Shift16, Step;
      Feed16IsRun(i, k - 1);
      Shift16IsStep(Feed16(i, k - 1), bit);
      RunPrefix(G16, Zeros(16), Bits8(i), k - 1);
    }
  }

  function FedLine7(i: bv8): (line: seq<bv8>)
    ensures |line| == 8
  {
    [Eight7(i), Eight7(i + 1), Eight7(i + 2), Eight7(i + 3),
     Eight7(i + 4), Eight7(i + 5), Eight7(i + 6), Eight7(i + 7)]
  }

  function FedLine16(i: bv8): (line: seq<bv16>)
    ensures |line| == 8
  {
    [Eight16(i), Eight16(i + 1), Eight16(i + 2), Eight16(i + 3),
     Eight16(i + 4), Eight16(i + 5), Eight16(i + 6), Eight16(i + 7)]
  }

  lemma Line7Fed(l: bv8)
    requires l < 32
    ensures Line7(l) == FedLine7(l << 3)
  {
    match l
    case 0 => case 1 => case 2 => case 3 => case 4 => case 5 => case 6 => case 7 =>
    case 8 => case 9 => case 10 => case 11 => case 12 => case 13 => case 14 => case 15 =>
    case 16 => case 17 => case 18 => case 19 => case 20 => case 21 => case 22 => case 23 =>
    case 24 => case 25 => case 26 => case 27 => case 28 => case 29 => case 30 =>
    case _ => assert l == 31;
  }

  lemma Line16Fed(l: bv8)
    requires l < 32
    ensures Line16(l) == FedLine16(l << 3)
  {
    match l
    case 0 => case 1 => case 2 => case 3 => case 4 => case 5 => case 6 => case 7 =>
    case 8 => case 9 => case 10 => case 11 => case 12 => case 13 => case 14 => case 15 =>
    case 16 => case 17 => case 18 => case 19 => case 20 => case 21 => case 22 => case 23 =>
    case 24 => case 25 => case 26 => case 27 => case 28 => case 29 => case 30 =>
    case _ => assert l == 31;
  }

  lemma EntriesAreEight(i: bv8)
    ensures Entry7(i) == Eight7(i) && Entry16(i) == Eight16(i)
  {
    hide Bit, Eight7, Eight16, Line7, Line16;
    Line7Fed(i >> 3);
    Line16Fed(i >> 3);
    assert i == (i >> 3 << 3) + (i & 7);
    match i & 7
    case 0 => case 1 => case 2 => case 3 => case 4 => case 5 => case 6 =>
    case _ => assert i & 7 == 7;
  }

  /** Every CRC7 table entry is the remainder of its index byte, and fits in seven bits. */
  lemma Entry7IsRemainder(i: bv8)
    ensures Entry7(i) < 0x80 && Bits7(Entry7(i)) == Run(G7, Zeros(7), Bits8(i))
  {
    EntriesAreEight(i);
    EightIsFeed(i);
    Feed7IsRun(i, 8);
    assert Bits8(i)[..8] == Bits8(i);
  }

  /** Every CRC16 table entry is the remainder of its index byte. */
  lemma Entry16IsRemainder(i: bv8)
    ensures Bits16(Entry16(i)) == Run(G16, Zeros(16), Bits8(i))
  {
    EntriesAreEight(i);
    EightIsFeed(i);
    Feed16IsRun(i, 8);
    assert Bits8(i)[..8] == Bits8(i);
  }

  // ---------- One byte by table look-up ----------

  function Next7(crc: bv8, b: bv8): bv8 {
    Entry7((crc << 1) ^ b)
  }

  /** The register moved up one byte; what leaves at the top goes into the index. */
  function Raised(crc: bv16): bv16 {
    crc << 8
  }

  function Index16(crc: bv16, b: bv8): bv8 {
    ((crc >> 8) as bv8) ^ b
  }

  function Next16(crc: bv16, b: bv8): bv16 {
    Sum16(Raised(crc), Entry16(Index16(crc, b)))
  }

  lemma WidenShift(r: bv8)
    requires r < 0x80
    ensures (r << 1) as bv16 == r as bv16 << 1
  {
  }

  lemma Shifted7Bits(crc: bv8)
    requires crc < 0x80
    ensures Bits8(crc << 1) == Bits7(crc) + [false]
  {
    hide Bit;
    WidenShift(crc);
    ShiftBits(crc as bv16);
  }

  lemma Index7Bits(crc: bv8, b: bv8)
    requires crc < 0x80
    ensures Bits8((crc << 1) ^ b) == Xor(Bits7(crc), Bits8(b)[..7]) + Bits8(b)[7..]
  {
    hide Bits7, Bits8;
    Shifted7Bits(crc);
    XorByteBits(crc << 1, b);
  }

  lemma Next7IsRun(crc: bv8, b: bv8)
    requires crc < 0x80
    ensures Next7(crc, b) < 0x80 && Bits7(Next7(crc, b)) == Run(G7, Bits7(crc), Bits8(b))
  {
    Entry7IsRemainder((crc << 1) ^ b);
    Index7Bits(crc, b);
    FoldLong(G7, Bits7(crc), Bits8(b)[..7], Bits8(b)[7..]);
    assert Bits8(b) == Bits8(b)[..7] + Bits8(b)[7..];
  }

  lemma Index16Bits(crc: bv16, b: bv8)
    ensures Bits8(Index16(crc, b)) == Xor(Bits16(crc)[..8], Bits8(b))
    ensures Bits16(Raised(crc)) == Bits16(crc)[8..] + Zeros(8)
  {
    hide Bits8, Bits16;
    ByteBits(crc);
    XorByteBits((crc >> 8) as bv8, b);
  }

  lemma FoldByte16(r: Bits, b: Bits, shifted: Bits, index: Bits, entry: Bits)
    requires |r| == 16 && |b| == 8
    requires shifted == r[8..] + Zeros(8) && index == Xor(r[..8], b)
    requires entry == Run(G16, Zeros(16), index)
    ensures Run(G16, r, b) == Xor(shifted, entry)
  {
    FoldShort(G16, r, b);
  }

  lemma Next16IsRun(crc: bv16, b: bv8)
    ensures Bits16(Next16(crc, b)) == Run(G16, Bits16(crc), Bits8(b))
  {
    hide Sum16, Entry16, Index16, Raised, Bits16, Bits8, Run, Xor, Zeros;
    var index := Index16(crc, b);
    var raised, entry := Bits16(Raised(crc)), Bits16(Entry16(index));
    assert entry == Run(G16, Zeros(16), Bits8(index)) by {
      Entry16IsRemainder(index);
    }
    assert Run(G16, Bits16(crc), Bits8(b)) == Xor(raised, entry) by {
      Index16Bits(crc, b);
      FoldByte16(Bits16(crc), Bits8(b), raised, Bits8(index), entry);
    }
    XorBits(Raised(crc), Entry16(index));
  }

  // ---------- Whole messages ----------

  function Crc7(data: seq<bv8>): bv8 {
    if data == [] then 0 else Next7(Crc7(data[..|data| - 1]), data[|data| - 1])
  }

  function Crc16(data: seq<bv8>): bv16 {
    if data == [] then 0 else Next16(Crc16(data[..|data| - 1]), data[|data| - 1])
  }

  lemma {:induction false} Crc7IsRun(data: seq<bv8>)
    ensures Crc7(data) < 0x80 && Bits7(Crc7(data)) == Run(G7, Zeros(7), MessageBits(data))
  {
    hide Bits7, Bits8, Next7;
    if data == [] {
      GeneratorBits();
    } else {
      var k := |data| - 1;
      Crc7IsRun(data[..k]);
      Next7IsRun(Crc7(data[..k]), data[k]);
      RunAppend(G7, Zeros(7), MessageBits(data[..k]), Bits8(data[k]));
    }
  }

  lemma {:induction false} Crc16IsRun(data: seq<bv8>)
    ensures Bits16(Crc16(data)) == Run(G16, Zeros(16), MessageBits(data))
  {
    hide Bits16, Bits8, Next16;
    if data == [] {
      GeneratorBits();
    } else {
      var k := |data| - 1;
      Crc16IsRun(data[..k]);
      Next16IsRun(Crc16(data[..k]), data[k]);
      RunAppend(G16, Zeros(16), MessageBits(data[..k]), Bits8(data[k]));
    }
  }

  lemma Bits16Injective(a: bv16, b: bv16)
    requires Bits16(a) == Bits16(b)
    ensures a == b
  {
    forall i: nat | i < 16
      ensures (a & Mask(i) != 0) == (b & Mask(i) != 0)
    {
      assert Bits16(a)[i] == Bits16(b)[i];
    }
    SameMasks(a, b);
  }

  lemma SameMasks(a: bv16, b: bv16)
    requires forall i: nat | i < 16 :: (a & Mask(i) != 0) == (b & Mask(i) != 0)
    ensures a == b
  {
    assert Mask(0) == 0x8000 && Mask(1) == 0x4000 && Mask(2) == 0x2000 && Mask(3) == 0x1000;
    assert Mask(4) == 0x0800 && Mask(5) == 0x0400 && Mask(6) == 0x0200 && Mask(7) == 0x0100;
    assert Mask(8) == 0x0080 && Mask(9) == 0x0040 && Mask(10) == 0x0020 && Mask(11) == 0x0010;
    assert Mask(12) == 0x0008 && Mask(13) == 0x0004 && Mask(14) == 0x0002 && Mask(15) == 0x0001;
  }

  /** CRC16 is the remainder of the message, and no other register value is. */
  lemma Crc16IsRemainder(data: seq<bv8>, crc: bv16)
    ensures crc == Crc16(data) <==> IsRemainder(G16, MessageBits(data), Bits16(crc))
  {
    hide Bits16, Bit;
    Crc16IsRun(data);
    RemainderUnique(G16, MessageBits(data), Bits16(crc));
    if Bits16(crc) == Bits16(Crc16(data)) {
      Bits16Injective(crc, Crc16(data));
    }
  }

  /** CRC7 is the remainder of the message, and no other seven-bit value is. */
  lemma Crc7IsRemainder(data: seq<bv8>, crc: bv8)
    requires crc < 0x80
    ensures crc == Crc7(data) <==> IsRemainder(G7, MessageBits(data), Bits7(crc))
  {
    Crc7IsRun(data);
    RemainderUnique(G7, MessageBits(data), Bits7(crc));
    if Bits7(crc) == Bits7(Crc7(data)) {
      Bits7Injective(crc, Crc7(data));
    }
  }

  lemma Bits7Injective(a: bv8, b: bv8)
    requires a < 0x80 && b < 0x80 && Bits7(a) == Bits7(b)
    ensures a == b
  {
    var x, y := a as bv16, b as bv16;
    forall i: nat | i < 16
      ensures Bits16(x)[i] == Bits16(y)[i]
    {
      if i >= 9 {
        assert Bits7(a)[i - 9] == Bits7(b)[i - 9];
      }
    }
    Bits16Injective(x, y);
  }

  // ---------- The loops of the driver ----------

  /** The C `int length` may be negative, in which case nothing is read. */
  function Taken(data: seq<bv8>, length: int): seq<bv8>
    requires length <= |data|
  {
    if length < 0 then [] else data[..length]
  }

  method CRC7(data: array<bv8>, length: int) returns (crc: bv8)
    requires length <= data.Length
    ensures crc == Crc7(Taken(data[..], length)) < 0x80
    ensures IsRemainder(G7, MessageBits(Taken(data[..], length)), Bits7(crc))
  {
    crc := 0;
    var i := 0;
    hide Entry7;
    while i < length
      invariant 0 <= i && (0 <= length ==> i <= length) && (length < 0 ==> i == 0)
      invariant i <= data.Length
      invariant crc == Crc7(data[..i]) < 0x80
    {
      assert data[..i + 1][..i] == data[..i];
      Crc7IsRun(data[..i + 1]);
      crc := Entry7((crc << 1) ^ data[i]);
      i := i + 1;
    }
    assert data[..][..i] == data[..i];
    Crc7IsRemainder(data[..i], crc);
  }

  method CRC16(data: array<bv8>, length: int) returns (crc: bv16)
    requires length <= data.Length
    ensures crc == Crc16(Taken(data[..], length))
    ensures IsRemainder(G16, MessageBits(Taken(data[..], length)), Bits16(crc))
  {
    crc := 0;
    var i := 0;
    hide Sum16, Entry16, Index16, Raised;
    while i < length
      invariant 0 <= i && (0 <= length ==> i <= length) && (length < 0 ==> i == 0)
      invariant i <= data.Length
      invariant crc == Crc16(data[..i])
    {
      assert data[..i + 1][..i] == data[..i];
      crc := Sum16(Raised(crc), Entry16(Index16(crc, data[i])));
      i := i + 1;
    }
    assert data[..][..i] == data[..i];
    Crc16IsRemainder(data[..i], crc);
  }

  // ---------- Messages and their bits ----------

  lemma {:induction false} MessageBitsSplit(data: seq<bv8>, k: nat)
    requires k <= |data|
    ensures MessageBits(data)[..8 * k] == MessageBits(data[..k])
    ensures MessageBits(data)[8 * k..] == MessageBits(data[k..])
    decreases |data|
  {
    hide Bits8;
    if k == |data| {
      assert data[..k] == data;
    } else {
      var n := |data| - 1;
      MessageBitsSplit(data[..n], k);
      assert data[..n][..k] == data[..k];
      assert data[k..][..|data[k..]| - 1] == data[..n][k..];
    }
  }

  lemma Bits8Injective(a: bv8, b: bv8)
    requires Bits8(a) == Bits8(b)
    ensures a == b
  {
    ByteMasks(a);
    ByteMasks(b);
    assert Bits8(a)[0] == Bits8(b)[0] && Bits8(a)[1] == Bits8(b)[1] && Bits8(a)[2] == Bits8(b)[2];
    assert Bits8(a)[3] == Bits8(b)[3] && Bits8(a)[4] == Bits8(b)[4] && Bits8(a)[5] == Bits8(b)[5];
    assert Bits8(a)[6] == Bits8(b)[6] && Bits8(a)[7] == Bits8(b)[7];
  }

  lemma {:induction false} MessageBitsInjective(a: seq<bv8>, b: seq<bv8>)
    requires |a| == |b|
    ensures MessageBits(a) == MessageBits(b) ==> a == b
  {
    hide Bits8;
    if a != [] && MessageBits(a) == MessageBits(b) {
      var n := |a| - 1;
      assert MessageBits(a)[..8 * n] == MessageBits(a[..n]) && MessageBits(b)[..8 * n] == MessageBits(b[..n]);
      assert MessageBits(a)[8 * n..] == Bits8(a[n]) && MessageBits(b)[8 * n..] == Bits8(b[n]);
      MessageBitsInjective(a[..n], b[..n]);
      Bits8Injective(a[n], b[n]);
      assert a == a[..n] + [a[n]] && b == b[..n] + [b[n]];
    }
  }

  lemma LowByteBit(r: bv16, i: nat)
    requires 8 <= i < 16
    ensures Bit(r & 0xFF, i) == Bit(r, i)
  {
  }

  lemma TwoBytes(r: bv16)
    ensures Bits8((r >> 8) as bv8) + Bits8((r & 0xFF) as bv8) == Bits16(r)
  {
    ByteBits(r);
    var low := r & 0xFF;
    forall k: nat | k < 8
      ensures Bits16(low)[8..][k] == Bits16(r)[8..][k]
    {
      LowByteBit(r, 8 + k);
    }
    assert ((r & 0xFF) as bv8) as bv16 == r & 0xFF;
  }

  // ---------- What the driver's checks detect ----------

  /** Any change within 16 consecutive bits of a data block is caught by CRC16. */
  lemma Crc16Burst(sent: seq<bv8>, received: seq<bv8>, start: nat, end: nat)
    requires |sent| == |received| && sent != received
    requires start <= end <= start + 16 && end <= 8 * |sent|
    requires MessageBits(sent)[..start] == MessageBits(received)[..start]
    requires MessageBits(sent)[end..] == MessageBits(received)[end..]
    ensures Crc16(sent) != Crc16(received)
  {
    hide Bits16, MessageBits;
    var a, b := MessageBits(sent), MessageBits(received);
    MessageBitsInjective(sent, received);
    assert a == a[..start] + a[start..end] + a[end..] && b == b[..start] + b[start..end] + b[end..];
    BurstDetected(G16, a[..start], a[start..end], b[start..end], a[end..]);
    Crc16IsRun(sent);
    Crc16IsRun(received);
  }

  /** In particular any change within one byte or two adjacent bytes. */
  lemma Crc16AdjacentBytes(sent: seq<bv8>, received: seq<bv8>, k: nat)
    requires |sent| == |received| && sent != received && k + 2 <= |sent|
    requires sent[..k] == received[..k] && sent[k + 2..] == received[k + 2..]
    ensures Crc16(sent) != Crc16(received)
  {
    MessageBitsSplit(sent, k);
    MessageBitsSplit(received, k);
    MessageBitsSplit(sent, k + 2);
    MessageBitsSplit(received, k + 2);
    Crc16Burst(sent, received, 8 * k, 8 * (k + 2));
  }

  lemma OddGenerator16()
    ensures Odd(G16)
  {
    var z := [false, false, false];
    var tail := [true, false, false, false, false, true];
    assert G16 == z + [true] + (z + z) + tail;
    assert !Odd(z) && Odd([true]);
    assert tail == [true] + (z + [false, true]);
    assert Odd([false, true]);
    OddAppend(z, z);
    OddAppend(z, [false, true]);
    OddAppend([true], z + [false, true]);
    OddAppend(z, [true]);
    OddAppend(z + [true], z + z);
    OddAppend(z + [true] + (z + z), tail);
  }

  /** An odd number of flipped bits is always caught by CRC16. */
  lemma Crc16OddError(sent: seq<bv8>, received: seq<bv8>)
    requires |sent| == |received|
    requires Odd(Xor(MessageBits(sent), MessageBits(received)))
    ensures Crc16(sent) != Crc16(received)
  {
    OddGenerator16();
    OddErrorDetected(G16, MessageBits(sent), MessageBits(received));
    Crc16IsRun(sent);
    Crc16IsRun(received);
  }

  /** Any change within seven consecutive bits of a command is caught by CRC7. */
  lemma Crc7Burst(sent: seq<bv8>, received: seq<bv8>, start: nat, end: nat)
    requires |sent| == |received| && sent != received
    requires start <= end <= start + 7 && end <= 8 * |sent|
    requires MessageBits(sent)[..start] == MessageBits(received)[..start]
    requires MessageBits(sent)[end..] == MessageBits(received)[end..]
    ensures Crc7(sent) != Crc7(received)
  {
    hide Bits7, MessageBits;
    var a, b := MessageBits(sent), MessageBits(received);
    MessageBitsInjective(sent, received);
    assert a == a[..start] + a[start..end] + a[end..] && b == b[..start] + b[start..end] + b[end..];
    BurstDetected(G7, a[..start], a[start..end], b[start..end], a[end..]);
    Crc7IsRun(sent);
    Crc7IsRun(received);
  }

  lemma MessageBitsTwo(data: seq<bv8>, high: bv8, low: bv8)
    ensures MessageBits(data + [high, low]) == MessageBits(data) + (Bits8(high) + Bits8(low))
  {
    var whole := data + [high, low];
    assert whole[..|whole| - 1] == data + [high] && (data + [high])[..|data|] == data;
  }

  lemma SameCrc16(a: bv16, b: bv16)
    ensures Bits16(a) == Bits16(b) <==> a == b
  {
    hide Bits16;
    if Bits16(a) == Bits16(b) {
      Bits16Injective(a, b);
    }
  }

  /** A data block followed by two bytes, high byte first, has CRC 0 exactly when they are its CRC. */
  lemma Crc16CheckField(data: seq<bv8>, check: bv16)
    ensures Crc16(data + [(check >> 8) as bv8, (check & 0xFF) as bv8]) == 0 <==> check == Crc16(data)
  {
    var high, low := (check >> 8) as bv8, (check & 0xFF) as bv8;
    hide Bits16, Bits8;
    TwoBytes(check);
    MessageBitsTwo(data, high, low);
    CheckFieldExact(G16, MessageBits(data), Bits16(check));
    Crc16IsRun(data + [high, low]);
    Crc16IsRun(data);
    GeneratorBits();
    SameCrc16(check, Crc16(data));
    SameCrc16(Crc16(data + [high, low]), 0);
  }
}
