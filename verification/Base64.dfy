/** The resumable base64 coder of libb64.

  Both directions are coroutines: a block may end anywhere, and the step reached and the bits not
  yet used are carried to the next block. Text and plain bytes are both unsigned 8-bit here;
  the decoder's `int8_t` values keep their bit patterns, so a negative value has its top bit set.
*/
module Base64 {

  const EQUALS: bv8 := 61
  const LINE_FEED: bv8 := 10
  const BRACE: bv8 := 123
  const GROUPS_PER_LINE := 18 // CHARS_PER_LINE / 4

  // ---------- The two tables ----------

  function AlphabetLine(l: bv8): (line: seq<bv8>)
    ensures |line| == 8
  {
    match l
    case 0 => [65, 66, 67, 68, 69, 70, 71, 72]  // ABCDEFGH
    case 1 => [73, 74, 75, 76, 77, 78, 79, 80]  // IJKLMNOP
    case 2 => [81, 82, 83, 84, 85, 86, 87, 88]  // QRSTUVWX
    case 3 => [89, 90, 97, 98, 99, 100, 101, 102]  // YZabcdef
    case 4 => [103, 104, 105, 106, 107, 108, 109, 110]  // ghijklmn
    case 5 => [111, 112, 113, 114, 115, 116, 117, 118]  // opqrstuv
    case 6 => [119, 120, 121, 122, 48, 49, 50, 51]  // wxyz0123
    case _ => [52, 53, 54, 55, 56, 57, 43, 47]  // 456789+/
  }

  function Letter(v: bv8): bv8 {
    if v > 63 then EQUALS else AlphabetLine(v >> 3)[(v & 7) as nat]
  }

  function DecodingLine(l: bv8): (line: seq<bv8>)
    ensures |line| == 8
  {
    match l
    case 0 => [62, 0xFF, 0xFF, 0xFF, 63, 52, 53, 54]
    case 1 => [55, 56, 57, 58, 59, 60, 61, 0xFF]
    case 2 => [0xFF, 0xFF, 0xFE, 0xFF, 0xFF, 0xFF, 0, 1]
    case 3 => [2, 3, 4, 5, 6, 7, 8, 9]
    case 4 => [10, 11, 12, 13, 14, 15, 16, 17]
    case 5 => [18, 19, 20, 21, 22, 23, 24, 25]
    case 6 => [0xFF, 0xFF, 0xFF, 0xFF, 0xFF, 0xFF, 26, 27]
    case 7 => [28, 29, 30, 31, 32, 33, 34, 35]
    case 8 => [36, 37, 38, 39, 40, 41, 42, 43]
    case _ => [44, 45, 46, 47, 48, 49, 50, 51]
  }

  predicate Negative(v: bv8) {
    v & 0x80 != 0
  }

  /** The table has 80 entries, but index 80 passes the range check; `beyond` stands for whatever
      byte follows the table in memory. */
  function Value(c: bv8, beyond: bv8): bv8 {
    var i := c - 43;
    if Negative(i) || i > 80 then 0xFF
    else if i == 80 then beyond
    else DecodingLine(i >> 3)[(i & 7) as nat]
  }

  /** Every letter decodes to the six bits it stands for. */
  lemma ValueOfLetter(v: bv8, beyond: bv8)
    requires v < 64
    ensures Value(Letter(v), beyond) == v
    ensures Letter(v) != LINE_FEED && Letter(v) != EQUALS && Letter(v) != BRACE
  {
    match v >> 3
    case 0 => ValueOfLine(v, 0, beyond);
    case 1 => ValueOfLine(v, 1, beyond);
    case 2 => ValueOfLine(v, 2, beyond);
    case 3 => ValueOfLine(v, 3, beyond);
    case 4 => ValueOfLine(v, 4, beyond);
    case 5 => ValueOfLine(v, 5, beyond);
    case 6 => ValueOfLine(v, 6, beyond);
    case _ => assert v >> 3 == 7; ValueOfLine(v, 7, beyond);
  }

  lemma ValueOfLine(v: bv8, l: bv8, beyond: bv8)
    requires v < 64 && l < 8 && v >> 3 == l
    ensures Value(Letter(v), beyond) == v
    ensures Letter(v) != LINE_FEED && Letter(v) != EQUALS && Letter(v) != BRACE
  {
    match v & 7
    case 0 => case 1 => case 2 => case 3 => case 4 => case 5 => case 6 =>
    case _ => assert v & 7 == 7;
  }

  lemma ValueOfOthers(beyond: bv8)
    ensures Negative(Value(LINE_FEED, beyond)) && Negative(Value(EQUALS, beyond))
  {
  }

  // ---------- Table 1 of RFC 4648 ----------

  /** The letter for six bits: A to Z, a to z, 0 to 9, + and /. */
  function StandardLetter(v: bv8): bv8 {
    if v < 26 then 65 + v
    else if v < 52 then 97 + (v - 26)
    else if v < 62 then 48 + (v - 52)
    else if v == 62 then 43
    else 47
  }

  /** The encoder's table is that of the standard. */
  lemma LetterStandard(v: bv8)
    requires v < 64
    ensures Letter(v) == StandardLetter(v)
  {
    match v >> 3
    case 0 => LineStandard(v, 0);
    case 1 => LineStandard(v, 1);
    case 2 => LineStandard(v, 2);
    case 3 => LineStandard(v, 3);
    case 4 => LineStandard(v, 4);
    case 5 => LineStandard(v, 5);
    case 6 => LineStandard(v, 6);
    case _ => assert v >> 3 == 7; LineStandard(v, 7);
  }

  lemma LineStandard(v: bv8, l: bv8)
    requires v < 64 && l < 8 && v >> 3 == l
    ensures Letter(v) == StandardLetter(v)
  {
    match v & 7
    case 0 => case 1 => case 2 => case 3 => case 4 => case 5 => case 6 =>
    case _ => assert v & 7 == 7;
  }

  /** What the decoder makes of each of the 256 characters: the letters of the standard have their six
      bits, `{` has what stands behind the table, and all others are skipped. */
  lemma ValueStandard(c: bv8, beyond: bv8)
    ensures var v := Value(c, beyond);
            if 65 <= c <= 90 then v == c - 65
            else if 97 <= c <= 122 then v == c - 97 + 26
            else if 48 <= c <= 57 then v == c - 48 + 52
            else if c == 43 then v == 62
            else if c == 47 then v == 63
            else if c == 123 then v == beyond
            else Negative(v)
  {
    var i := c - 43;
    if !Negative(i) && i < 80 {
      ValueInTable(c, i >> 3, beyond);
    }
  }

  lemma ValueInTable(c: bv8, l: bv8, beyond: bv8)
    requires var i := c - 43; !Negative(i) && i < 80 && i >> 3 == l && l < 10
    ensures var v := Value(c, beyond);
            if 65 <= c <= 90 then v == c - 65
            else if 97 <= c <= 122 then v == c - 97 + 26
            else if 48 <= c <= 57 then v == c - 48 + 52
            else if c == 43 then v == 62
            else if c == 47 then v == 63
            else Negative(v)
  {
    match (c - 43) & 7
    case 0 => case 1 => case 2 => case 3 => case 4 => case 5 => case 6 =>
    case _ => assert (c - 43) & 7 == 7;
  }

  /** The look-up leaves the table for one character only. */
  lemma ValueDefined(c: bv8)
    ensures (forall x, y :: Value(c, x) == Value(c, y)) <==> c != 123
  {
    if c == BRACE {
      assert Value(c, 0) == 0 && Value(c, 1) == 1;
    }
  }

  // ---------- The encoder ----------

  datatype EncodeStep = StepA | StepB | StepC

  datatype Encoder = Encoder(step: EncodeStep, result: bv8, stepcount: int)

  const ENCODER_START := Encoder(StepA, 0, 0)

  // The six bits of each letter, and the bits of a byte left for the next letter.
  function First(b: bv8): bv8 { (b & 0xFC) >> 2 }
  function Carry1(b: bv8): bv8 { (b & 0x03) << 4 }
  function Second(result: bv8, b: bv8): bv8 { result | ((b & 0xF0) >> 4) }
  function Carry2(b: bv8): bv8 { (b & 0x0F) << 2 }
  function Third(result: bv8, b: bv8): bv8 { result | ((b & 0xC0) >> 6) }
  function Fourth(b: bv8): bv8 { b & 0x3F }

  /** What one plain byte does: the next state and the characters written. */
  function EncodeByte(s: Encoder, b: bv8): (Encoder, seq<bv8>) {
    match s.step
    case StepA =>
      (Encoder(StepB, Carry1(b), s.stepcount), [Letter(First(b))])
    case StepB =>
      (Encoder(StepC, Carry2(b), s.stepcount), [Letter(Second(s.result, b))])
    case StepC =>
      var pair := [Letter(Third(s.result, b)), Letter(Fourth(b))];
      if s.stepcount + 1 == GROUPS_PER_LINE then
        (Encoder(StepA, Fourth(b), 0), pair + [LINE_FEED])
      else
        (Encoder(StepA, Fourth(b), s.stepcount + 1), pair)
  }

  function Encode(s: Encoder, data: seq<bv8>): (Encoder, seq<bv8>) {
    if data == [] then
      (s, [])
    else
      var k := |data| - 1;
      var (s1, out1) := Encode(s, data[..k]);
      var (s2, out2) := EncodeByte(s1, data[k]);
      (s2, out1 + out2)
  }

  /** The padding that ends a text. */
  function EncodeEnd(s: Encoder): seq<bv8> {
    match s.step
    case StepA => []
    case StepB => [Letter(s.result), EQUALS, EQUALS]
    case StepC => [Letter(s.result), EQUALS]
  }

  function EncodeAll(data: seq<bv8>): seq<bv8> {
    var (s, out) := Encode(ENCODER_START, data);
    out + EncodeEnd(s)
  }

  // ---------- The decoder ----------

  datatype DecodeStep = Stepa | Stepb | Stepc | Stepd

  /** `partial` is the byte under construction; before the first letter of a group there is none. */
  datatype Decoder = Decoder(step: DecodeStep, partial: bv8)

  const DECODER_START := Decoder(Stepa, 0)

  // The bits a letter adds to the byte under construction, and those that start the next byte.
  function Put1(f: bv8): bv8 { (f & 0x3F) << 2 }
  function Join1(partial: bv8, f: bv8): bv8 { partial | ((f & 0x30) >> 4) }
  function Put2(f: bv8): bv8 { (f & 0x0F) << 4 }
  function Join2(partial: bv8, f: bv8): bv8 { partial | ((f & 0x3C) >> 2) }
  function Put3(f: bv8): bv8 { (f & 0x03) << 6 }
  function Join3(partial: bv8, f: bv8): bv8 { partial | (f & 0x3F) }

  /** What one letter's six bits do. */
  function DecodeSix(s: Decoder, f: bv8): (Decoder, seq<bv8>) {
    match s.step
    case Stepa => (Decoder(Stepb, Put1(f)), [])
    case Stepb => (Decoder(Stepc, Put2(f)), [Join1(s.partial, f)])
    case Stepc => (Decoder(Stepd, Put3(f)), [Join2(s.partial, f)])
    case Stepd => (Decoder(Stepa, 0), [Join3(s.partial, f)])
  }

  /** What one character does; characters without a value are skipped. */
  function DecodeChar(s: Decoder, c: bv8, beyond: bv8): (Decoder, seq<bv8>) {
    if Negative(Value(c, beyond)) then (s, []) else DecodeSix(s, Value(c, beyond))
  }

  function Decode(s: Decoder, code: seq<bv8>, beyond: bv8): (Decoder, seq<bv8>) {
    if code == [] then
      (s, [])
    else
      var k := |code| - 1;
      var (s1, out1) := Decode(s, code[..k], beyond);
      var (s2, out2) := DecodeChar(s1, code[k], beyond);
      (s2, out1 + out2)
  }

  // ---------- Resumption ----------

  lemma {:induction false} EncodeAppend(s: Encoder, a: seq<bv8>, b: seq<bv8>)
    ensures var (s1, out1) := Encode(s, a);
            var (s2, out2) := Encode(s1, b);
            Encode(s, a + b) == (s2, out1 + out2)
  {
    hide EncodeByte;
    var (s1, out1) := Encode(s, a);
    if b == [] {
      assert a + b == a && out1 + [] == out1;
    } else {
      var k := |b| - 1;
      EncodeAppend(s, a, b[..k]);
      assert (a + b)[..|a + b| - 1] == a + b[..k];
      var (s2, out2) := Encode(s1, b[..k]);
      var (s3, out3) := EncodeByte(s2, b[k]);
      assert out1 + (out2 + out3) == (out1 + out2) + out3;
    }
  }

  lemma {:induction false} DecodeAppend(s: Decoder, a: seq<bv8>, b: seq<bv8>, beyond: bv8)
    ensures var (s1, out1) := Decode(s, a, beyond);
            var (s2, out2) := Decode(s1, b, beyond);
            Decode(s, a + b, beyond) == (s2, out1 + out2)
  {
    hide DecodeChar;
    var (s1, out1) := Decode(s, a, beyond);
    if b == [] {
      assert a + b == a && out1 + [] == out1;
    } else {
      var k := |b| - 1;
      DecodeAppend(s, a, b[..k], beyond);
      assert (a + b)[..|a + b| - 1] == a + b[..k];
      var (s2, out2) := Decode(s1, b[..k], beyond);
      var (s3, out3) := DecodeChar(s2, b[k], beyond);
      assert out1 + (out2 + out3) == (out1 + out2) + out3;
    }
  }

  function Concat(blocks: seq<seq<bv8>>): seq<bv8> {
    if blocks == [] then [] else Concat(blocks[..|blocks| - 1]) + blocks[|blocks| - 1]
  }

  function EncodeBlocks(s: Encoder, blocks: seq<seq<bv8>>): (Encoder, seq<bv8>) {
    if blocks == [] then
      (s, [])
    else
      var k := |blocks| - 1;
      var (s1, out1) := EncodeBlocks(s, blocks[..k]);
      var (s2, out2) := Encode(s1, blocks[k]);
      (s2, out1 + out2)
  }

  function DecodeBlocks(s: Decoder, blocks: seq<seq<bv8>>, beyond: bv8): (Decoder, seq<bv8>) {
    if blocks == [] then
      (s, [])
    else
      var k := |blocks| - 1;
      var (s1, out1) := DecodeBlocks(s, blocks[..k], beyond);
      var (s2, out2) := Decode(s1, blocks[k], beyond);
      (s2, out1 + out2)
  }

  /** However the plain bytes are cut into blocks, and from whatever state, the text is the same. */
  lemma {:induction false} EncodeResumes(s: Encoder, blocks: seq<seq<bv8>>)
    ensures EncodeBlocks(s, blocks) == Encode(s, Concat(blocks))
  {
    if blocks != [] {
      var k := |blocks| - 1;
      EncodeResumes(s, blocks[..k]);
      EncodeAppend(s, Concat(blocks[..k]), blocks[k]);
    }
  }

  lemma {:induction false} DecodeResumes(s: Decoder, blocks: seq<seq<bv8>>, beyond: bv8)
    ensures DecodeBlocks(s, blocks, beyond) == Decode(s, Concat(blocks), beyond)
  {
    if blocks != [] {
      var k := |blocks| - 1;
      DecodeResumes(s, blocks[..k], beyond);
      DecodeAppend(s, Concat(blocks[..k]), blocks[k], beyond);
    }
  }

  // ---------- Round trip ----------

  /** How far the decoder is after reading everything the encoder has written: it lags by the byte
      whose last bits the encoder still holds. */
  ghost predicate InStep(e: Encoder, d: Decoder, data: seq<bv8>, out: seq<bv8>) {
    match e.step
    case StepA => d.step == Stepa && out == data
    case StepB =>
      && |data| > 0 && out == data[..|data| - 1]
      && var b := data[|data| - 1];
         d == Decoder(Stepb, HighSix(b)) && e.result == Carry1(b)
    case StepC =>
      && |data| > 0 && out == data[..|data| - 1]
      && var b := data[|data| - 1];
         d == Decoder(Stepc, HighFour(b)) && e.result == Carry2(b)
  }

  function HighSix(b: bv8): bv8 { b & 0xFC }

  function HighFour(b: bv8): bv8 { b & 0xF0 }

  lemma DecodeOne(s: Decoder, c: bv8, beyond: bv8)
    ensures Decode(s, [c], beyond) == DecodeChar(s, c, beyond)
  {
    assert [c][..0] == [];
    assert Decode(s, [], beyond) == (s, []);
    assert [] + DecodeChar(s, c, beyond).1 == DecodeChar(s, c, beyond).1;
  }

  lemma DecodeLetter(s: Decoder, v: bv8, beyond: bv8)
    requires v < 64
    ensures Decode(s, [Letter(v)], beyond) == DecodeSix(s, v)
  {
    assert !Negative(v);
    hide Letter, Value, DecodeSix, Negative;
    ValueOfLetter(v, beyond);
    DecodeOne(s, Letter(v), beyond);
  }

  lemma DecodePair(s: Decoder, v: bv8, w: bv8, beyond: bv8)
    requires v < 64 && w < 64
    ensures var (s1, out1) := DecodeSix(s, v);
            var (s2, out2) := DecodeSix(s1, w);
            Decode(s, [Letter(v), Letter(w)], beyond) == (s2, out1 + out2)
  {
    hide Letter, DecodeSix;
    DecodeLetter(s, v, beyond);
    DecodeLetter(DecodeSix(s, v).0, w, beyond);
    DecodeAppend(s, [Letter(v)], [Letter(w)], beyond);
    assert [Letter(v)] + [Letter(w)] == [Letter(v), Letter(w)];
  }

  lemma BitsA(b: bv8)
    ensures First(b) < 64 && Put1(First(b)) == HighSix(b)
  {
  }

  lemma BitsB(p: bv8, b: bv8)
    ensures var v := Second(Carry1(p), b);
            v < 64 && Join1(HighSix(p), v) == p && Put2(v) == HighFour(b)
    ensures Carry1(p) < 64 && Join1(HighSix(p), Carry1(p)) == p
  {
  }

  lemma BitsC(p: bv8, b: bv8)
    ensures var v := Third(Carry2(p), b);
            v < 64 && Fourth(b) < 64 && Join2(HighFour(p), v) == p && Join3(Put3(v), Fourth(b)) == b
    ensures Carry2(p) < 64 && Join2(HighFour(p), Carry2(p)) == p
  {
  }

  lemma DecodeSkips(s: Decoder, beyond: bv8)
    ensures Decode(s, [LINE_FEED], beyond) == (s, [])
    ensures Decode(s, [EQUALS], beyond) == (s, [])
    ensures Decode(s, [EQUALS, EQUALS], beyond) == (s, [])
  {
    ValueOfOthers(beyond);
    DecodeOne(s, LINE_FEED, beyond);
    DecodeOne(s, EQUALS, beyond);
    DecodeAppend(s, [EQUALS], [EQUALS], beyond);
    assert [EQUALS] + [EQUALS] == [EQUALS, EQUALS];
  }

  lemma InStepByte(e: Encoder, d: Decoder, data: seq<bv8>, out: seq<bv8>, b: bv8, beyond: bv8)
    requires InStep(e, d, data, out)
    ensures var (e', code) := EncodeByte(e, b);
            var (d', more) := Decode(d, code, beyond);
            InStep(e', d', data + [b], out + more)
  {
    hide Letter, First, Carry1, Second, Carry2, Put1, Join1, Put2, HighSix, HighFour, Decode;
    match e.step
    case StepA =>
      BitsA(b);
      DecodeLetter(d, First(b), beyond);
    case StepB =>
      var p := data[|data| - 1];
      BitsB(p, b);
      DecodeLetter(d, Second(e.result, b), beyond);
      assert data == out + [p];
    case StepC =>
      InStepGroup(e, d, data, out, b, beyond);
  }

  lemma InStepGroup(e: Encoder, d: Decoder, data: seq<bv8>, out: seq<bv8>, b: bv8, beyond: bv8)
    requires InStep(e, d, data, out) && e.step == StepC
    ensures var (e', code) := EncodeByte(e, b);
            var (d', more) := Decode(d, code, beyond);
            InStep(e', d', data + [b], out + more)
  {
    hide Letter, Carry2, Third, Fourth, Join2, Put3, Join3, HighFour, Decode;
    var p := data[|data| - 1];
    BitsC(p, b);
    DecodePair(d, Third(e.result, b), Fourth(b), beyond);
    var pair := [Letter(Third(e.result, b)), Letter(Fourth(b))];
    assert [p] + [b] == [p, b] && [p, b] + [] == [p, b];
    assert Decode(d, pair, beyond) == (Decoder(Stepa, 0), [p, b]);
    DecodeSkips(Decoder(Stepa, 0), beyond);
    DecodeAppend(d, pair, [LINE_FEED], beyond);
    assert data + [b] == out + [p, b];
  }

  lemma {:induction false} InStepAlways(data: seq<bv8>, beyond: bv8)
    ensures var (e, code) := Encode(ENCODER_START, data);
            var (d, out) := Decode(DECODER_START, code, beyond);
            InStep(e, d, data, out)
  {
    if data != [] {
      var k := |data| - 1;
      var (e, code) := Encode(ENCODER_START, data[..k]);
      var (d, out) := Decode(DECODER_START, code, beyond);
      InStepAlways(data[..k], beyond);
      InStepByte(e, d, data[..k], out, data[k], beyond);
      DecodeAppend(DECODER_START, code, EncodeByte(e, data[k]).1, beyond);
      assert data[..k] + [data[k]] == data;
    }
  }

  lemma DecodePadded(s: Decoder, v: bv8, beyond: bv8)
    requires v < 64
    ensures Decode(s, [Letter(v), EQUALS], beyond) == DecodeSix(s, v)
    ensures Decode(s, [Letter(v), EQUALS, EQUALS], beyond) == DecodeSix(s, v)
  {
    hide Letter, DecodeSix;
    var (s1, out1) := DecodeSix(s, v);
    DecodeLetter(s, v, beyond);
    DecodeSkips(s1, beyond);
    DecodeAppend(s, [Letter(v)], [EQUALS], beyond);
    DecodeAppend(s, [Letter(v)], [EQUALS, EQUALS], beyond);
    assert [Letter(v)] + [EQUALS] == [Letter(v), EQUALS];
    assert [Letter(v)] + [EQUALS, EQUALS] == [Letter(v), EQUALS, EQUALS];
    assert out1 + [] == out1;
  }

  /** Decoding the whole text, line feeds and padding included, gives back the plain bytes. */
  lemma RoundTrip(data: seq<bv8>, beyond: bv8)
    ensures Decode(DECODER_START, EncodeAll(data), beyond).1 == data
  {
    hide Letter, Carry1, Carry2, Put1, Join1, Put2, Join2, HighSix, HighFour, Decode, Encode;
    var (e, code) := Encode(ENCODER_START, data);
    var (d, out) := Decode(DECODER_START, code, beyond);
    InStepAlways(data, beyond);
    DecodeAppend(DECODER_START, code, EncodeEnd(e), beyond);
    if e.step == StepA {
      DecodeNothing(d, beyond);
      assert out + [] == out;
    } else {
      var p := data[|data| - 1];
      BitsB(p, 0);
      BitsC(p, 0);
      DecodePadded(d, e.result, beyond);
      assert data == out + [p];
    }
  }

  lemma DecodeNothing(s: Decoder, beyond: bv8)
    ensures Decode(s, [], beyond) == (s, [])
  {
  }

  // ---------- The text follows section 4 of RFC 4648, in lines of 72 characters ----------

  /** Three bytes as one 24-bit group. */
  function Group(b0: bv8, b1: bv8, b2: bv8): bv24 {
    (b0 as bv24 << 16) | (b1 as bv24 << 8) | b2 as bv24
  }

  function Sextet(g: bv24): bv8 {
    (g & 0x3F) as bv8
  }

  /** A 24-bit group written as four letters of the standard. */
  function Quad(b0: bv8, b1: bv8, b2: bv8): (q: seq<bv8>)
    ensures |q| == 4
  {
    var g := Group(b0, b1, b2);
    [StandardLetter(Sextet(g >> 18)), StandardLetter(Sextet(g >> 12)),
     StandardLetter(Sextet(g >> 6)), StandardLetter(Sextet(g))]
  }

  /** The last one or two bytes, completed with zero bits and padding. */
  function PaddedQuad(tail: seq<bv8>): (q: seq<bv8>)
    requires 1 <= |tail| <= 2
    ensures |q| == 4
  {
    if |tail| == 1 then Quad(tail[0], 0, 0)[..2] + [61, 61]
    else Quad(tail[0], tail[1], 0)[..3] + [61]
  }

  /** The standard encoding, without line feeds. */
  function Rfc4648(data: seq<bv8>): seq<bv8> {
    if data == [] then []
    else if |data| < 3 then PaddedQuad(data)
    else Quad(data[0], data[1], data[2]) + Rfc4648(data[3..])
  }

  function StripLineFeeds(text: seq<bv8>): seq<bv8> {
    if text == [] then
      []
    else
      var k := |text| - 1;
      StripLineFeeds(text[..k]) + if text[k] == 10 then [] else [text[k]]
  }

  ghost predicate NoLineFeed(text: seq<bv8>) {
    forall i :: 0 <= i < |text| ==> text[i] != 10
  }

  lemma {:induction false} StripAppend(a: seq<bv8>, b: seq<bv8>)
    ensures StripLineFeeds(a + b) == StripLineFeeds(a) + StripLineFeeds(b)
  {
    if b == [] {
      assert a + b == a;
    } else {
      StripAppend(a, b[..|b| - 1]);
      assert (a + b)[..|a + b| - 1] == a + b[..|b| - 1];
    }
  }

  lemma {:induction false} StripClean(a: seq<bv8>)
    requires NoLineFeed(a)
    ensures StripLineFeeds(a) == a
  {
    if a != [] {
      StripClean(a[..|a| - 1]);
      assert a == a[..|a| - 1] + [a[|a| - 1]];
    }
  }

  /** Line feeds stand exactly after each 72 characters. */
  ghost predicate InLines(text: seq<bv8>) {
    forall i :: 0 <= i < |text| ==> (text[i] == 10 <==> i % 73 == 72)
  }

  lemma Sextets(b0: bv8, b1: bv8, b2: bv8)
    ensures var g := Group(b0, b1, b2);
            && Sextet(g >> 18) == First(b0) && Sextet(g >> 12) == Second(Carry1(b0), b1)
            && Sextet(g >> 6) == Third(Carry2(b1), b2) && Sextet(g) == Fourth(b2)
  {
  }

  lemma QuadSextets(b0: bv8, b1: bv8, b2: bv8)
    ensures Quad(b0, b1, b2) ==
            [Letter(First(b0)), Letter(Second(Carry1(b0), b1)), Letter(Third(Carry2(b1), b2)), Letter(Fourth(b2))]
    ensures NoLineFeed(Quad(b0, b1, b2))
  {
    Sextets(b0, b1, b2);
    hide Letter, StandardLetter, Sextet, Group, First, Second, Carry1, Third, Carry2, Fourth;
    BitsA(b0);
    BitsB(b0, b1);
    BitsC(b1, b2);
    LetterAt(First(b0));
    LetterAt(Second(Carry1(b0), b1));
    LetterAt(Third(Carry2(b1), b2));
    LetterAt(Fourth(b2));
  }

  lemma LetterAt(v: bv8)
    requires v < 64
    ensures Letter(v) == StandardLetter(v) && Letter(v) != 10
  {
    hide Letter, StandardLetter;
    LetterStandard(v);
    ValueOfLetter(v, 0);
  }

  lemma ZeroTail(c: bv8)
    ensures Third(c, 0) == c && Second(c, 0) == c
  {
  }

  lemma TailSextets(b0: bv8, b1: bv8)
    ensures Quad(b0, b1, 0)[2] == Letter(Carry2(b1)) && Quad(b0, 0, 0)[1] == Letter(Carry1(b0))
  {
    QuadSextets(b0, b1, 0);
    QuadSextets(b0, 0, 0);
    ZeroTail(Carry2(b1));
    ZeroTail(Carry1(b0));
  }

  lemma EncodeOne(s: Encoder, b: bv8)
    ensures Encode(s, [b]) == EncodeByte(s, b)
  {
    assert [b][..0] == [];
    assert Encode(s, []) == (s, []);
    assert [] + EncodeByte(s, b).1 == EncodeByte(s, b).1;
  }

  lemma EncodeTwo(s: Encoder, b0: bv8, b1: bv8)
    requires s.step == StepA
    ensures Encode(s, [b0, b1]) == (Encoder(StepC, Carry2(b1), s.stepcount),
                                    [Letter(First(b0)), Letter(Second(Carry1(b0), b1))])
  {
    hide Letter, First, Second, Carry1, Carry2, Encode;
    EncodeOne(s, b0);
    EncodeOne(EncodeByte(s, b0).0, b1);
    EncodeAppend(s, [b0], [b1]);
    assert [b0] + [b1] == [b0, b1];
    assert [Letter(First(b0))] + [Letter(Second(Carry1(b0), b1))] ==
           [Letter(First(b0)), Letter(Second(Carry1(b0), b1))];
  }

  lemma EncodeThree(s: Encoder, b0: bv8, b1: bv8, b2: bv8)
    requires s.step == StepA
    ensures var full := s.stepcount + 1 == GROUPS_PER_LINE;
            Encode(s, [b0, b1, b2]) ==
              (Encoder(StepA, Fourth(b2), if full then 0 else s.stepcount + 1),
               Quad(b0, b1, b2) + if full then [LINE_FEED] else [])
  {
    hide Letter, First, Second, Carry1, Third, Carry2, Fourth, Quad, Encode;
    QuadSextets(b0, b1, b2);
    EncodeTwo(s, b0, b1);
    EncodeOne(Encoder(StepC, Carry2(b1), s.stepcount), b2);
    EncodeAppend(s, [b0, b1], [b2]);
    assert [b0, b1] + [b2] == [b0, b1, b2];
    var head := [Letter(First(b0)), Letter(Second(Carry1(b0), b1))];
    var pair := [Letter(Third(Carry2(b1), b2)), Letter(Fourth(b2))];
    assert head + pair == Quad(b0, b1, b2);
    assert head + (pair + [LINE_FEED]) == head + pair + [LINE_FEED];
    assert head + pair + [] == head + pair;
  }

  lemma EncodeTail(s: Encoder, tail: seq<bv8>)
    requires s.step == StepA && 1 <= |tail| <= 2
    ensures var (s', more) := Encode(s, tail);
            more + EncodeEnd(s') == PaddedQuad(tail)
    ensures NoLineFeed(PaddedQuad(tail))
  {
    hide Letter, First, Second, Carry1, Carry2, Quad, Encode;
    var b0 := tail[0];
    QuadSextets(b0, 0, 0);
    if |tail| == 1 {
      TailSextets(b0, 0);
      EncodeOne(s, b0);
      assert tail == [b0];
    } else {
      QuadSextets(b0, tail[1], 0);
      TailSextets(b0, tail[1]);
      EncodeTwo(s, b0, tail[1]);
      assert tail == [b0, tail[1]];
    }
  }

  /** After q full lines and r groups the text has 73*q + 4*r characters. */
  ghost predicate WholeGroups(data: seq<bv8>, s: Encoder, text: seq<bv8>) {
    var groups := |data| / 3;
    && s.step == StepA && s.stepcount == groups % GROUPS_PER_LINE
    && |text| == 73 * (groups / GROUPS_PER_LINE) + 4 * (groups % GROUPS_PER_LINE)
    && StripLineFeeds(text) == Rfc4648(data)
    && InLines(text)
  }

  lemma Column(q: nat, x: nat)
    requires x < 73
    ensures (73 * q + x) % 73 == x
  {
  }

  lemma InLinesExtend(text: seq<bv8>, q: nat, r: nat, more: seq<bv8>)
    requires InLines(text) && |text| == 73 * q + 4 * r && r < 18
    requires |more| <= 4 && NoLineFeed(more)
    ensures InLines(text + more)
    ensures r == 17 && |more| == 4 ==> InLines(text + more + [LINE_FEED])
  {
    forall i | |text| <= i < |text + more|
      ensures i % 73 == 4 * r + (i - |text|)
    {
      Column(q, 4 * r + (i - |text|));
    }
    Column(q, 72);
  }

  lemma {:induction false} GroupsEncoded(data: seq<bv8>)
    requires |data| % 3 == 0
    ensures var (s, text) := Encode(ENCODER_START, data);
            WholeGroups(data, s, text)
    decreases |data|
  {
    if data == [] {
      NoGroups();
    } else {
      hide *;
      FewerGroups(|data|);
      var before, group := data[..|data| - 3], data[|data| - 3..];
      assert data == before + group;
      GroupsEncoded(before);
      LastGroup(before, group);
    }
  }

  lemma NoGroups()
    ensures var (s, text) := Encode(ENCODER_START, []);
            WholeGroups([], s, text)
  {
  }

  lemma FewerGroups(n: nat)
    requires n % 3 == 0 && n > 0
    ensures n >= 3 && (n - 3) % 3 == 0
  {
  }

  lemma LastGroup(before: seq<bv8>, group: seq<bv8>)
    requires |before| % 3 == 0 && |group| == 3
    requires var (s, text) := Encode(ENCODER_START, before);
             WholeGroups(before, s, text)
    ensures var (s, text) := Encode(ENCODER_START, before + group);
            WholeGroups(before + group, s, text)
  {
    hide WholeGroups, Encode;
    var (s, text) := Encode(ENCODER_START, before);
    EncodeAppend(ENCODER_START, before, group);
    AddGroup(before, s, text, group[0], group[1], group[2]);
    assert group == [group[0], group[1], group[2]];
  }

  /** Whole groups are encoded one after the other. */
  lemma {:induction false} RfcAppend(before: seq<bv8>, rest: seq<bv8>)
    requires |before| % 3 == 0
    ensures Rfc4648(before + rest) == Rfc4648(before) + Rfc4648(rest)
    decreases |before|
  {
    if before == [] {
      assert before + rest == rest;
    } else {
      hide Quad, PaddedQuad;
      assert |before| >= 3;
      assert (before + rest)[3..] == before[3..] + rest;
      RfcAppend(before[3..], rest);
    }
  }

  lemma RfcOne(group: seq<bv8>)
    requires |group| == 3
    ensures Rfc4648(group) == Quad(group[0], group[1], group[2])
  {
    hide Quad, PaddedQuad;
    assert group[3..] == [] && Rfc4648([]) == [];
  }

  lemma RfcGroup(before: seq<bv8>, group: seq<bv8>)
    requires |before| % 3 == 0 && |group| == 3
    ensures Rfc4648(before + group) == Rfc4648(before) + Quad(group[0], group[1], group[2])
  {
    hide Quad, Rfc4648;
    RfcAppend(before, group);
    RfcOne(group);
  }

  lemma MoreGroups(n: nat)
    requires n % 3 == 0
    ensures (n + 3) % 3 == 0 && (n + 3) / 3 == n / 3 + 1
  {
  }

  lemma StripGroup(text: seq<bv8>, quad: seq<bv8>)
    requires NoLineFeed(quad)
    ensures StripLineFeeds(text + quad) == StripLineFeeds(text + quad + [LINE_FEED]) == StripLineFeeds(text) + quad
  {
    StripAppend(text, quad);
    StripClean(quad);
    assert (text + quad + [LINE_FEED])[..|text + quad|] == text + quad;
  }

  lemma NextGroup(groups: nat)
    ensures var q, r := groups / GROUPS_PER_LINE, groups % GROUPS_PER_LINE;
            if r == 17 then (groups + 1) / GROUPS_PER_LINE == q + 1 && (groups + 1) % GROUPS_PER_LINE == 0
            else (groups + 1) / GROUPS_PER_LINE == q && (groups + 1) % GROUPS_PER_LINE == r + 1
  {
  }

  lemma AddGroup(before: seq<bv8>, s: Encoder, text: seq<bv8>, b0: bv8, b1: bv8, b2: bv8)
    requires |before| % 3 == 0 && WholeGroups(before, s, text)
    ensures var (s', more) := Encode(s, [b0, b1, b2]);
            WholeGroups(before + [b0, b1, b2], s', text + more)
  {
    hide Quad, Fourth, Encode, InLines, NoLineFeed, StripLineFeeds, Rfc4648;
    var groups := |before| / 3;
    var quad := Quad(b0, b1, b2);
    EncodeThree(s, b0, b1, b2);
    QuadSextets(b0, b1, b2);
    NextGroup(groups);
    InLinesExtend(text, groups / GROUPS_PER_LINE, groups % GROUPS_PER_LINE, quad);
    StripGroup(text, quad);
    RfcGroup(before, [b0, b1, b2]);
    MoreGroups(|before|);
    assert text + (quad + [LINE_FEED]) == text + quad + [LINE_FEED];
    assert text + (quad + []) == text + quad;
    assert |before + [b0, b1, b2]| / 3 == groups + 1;
  }

  /** The header's `base64_encode_expected_len`. */
  function ExpectedLength(n: nat): nat {
    (4 * n / 3 + 3) / 4 * 4
  }

  lemma ExpectedLengthIsQuads(n: nat)
    ensures ExpectedLength(n) == 4 * (n / 3) + if n % 3 == 0 then 0 else 4
  {
    var q, r := n / 3, n % 3;
    assert n == 3 * q + r;
    assert 4 * n / 3 == 4 * q + 4 * r / 3;
  }

  /** The text is the standard encoding broken into lines of 72 characters. */
  lemma Format(data: seq<bv8>)
    ensures StripLineFeeds(EncodeAll(data)) == Rfc4648(data)
    ensures InLines(EncodeAll(data))
    ensures |EncodeAll(data)| == ExpectedLength(|data|) + |data| / 54
  {
    hide *;
    var n := |data|;
    var k := n - n % 3;
    LineCount(n);
    ExpectedLengthIsQuads(n);
    var before, tail := data[..k], data[k..];
    assert data == before + tail;
    GroupsEncoded(before);
    if n % 3 == 0 {
      assert before == data;
      FormatWhole(data);
    } else {
      FormatTail(before, tail);
    }
  }

  lemma FormatWhole(data: seq<bv8>)
    requires |data| % 3 == 0
    requires var (s, text) := Encode(ENCODER_START, data);
             WholeGroups(data, s, text)
    ensures var all := EncodeAll(data);
            && StripLineFeeds(all) == Rfc4648(data) && InLines(all)
            && |all| == 73 * (|data| / 3 / 18) + 4 * (|data| / 3 % 18)
  {
    hide Encode, InLines, StripLineFeeds, Rfc4648;
    var (s, text) := Encode(ENCODER_START, data);
    assert text + [] == text;
  }

  lemma FormatTail(before: seq<bv8>, tail: seq<bv8>)
    requires |before| % 3 == 0 && 1 <= |tail| <= 2
    requires var (s, text) := Encode(ENCODER_START, before);
             WholeGroups(before, s, text)
    ensures var all := EncodeAll(before + tail);
            && StripLineFeeds(all) == Rfc4648(before + tail) && InLines(all)
            && |all| == 73 * (|before| / 3 / 18) + 4 * (|before| / 3 % 18) + 4
  {
    hide Encode, InLines, StripLineFeeds, Rfc4648, NoLineFeed, PaddedQuad, EncodeEnd;
    var (s, text) := Encode(ENCODER_START, before);
    var (s', more) := Encode(s, tail);
    var pad := PaddedQuad(tail);
    EncodeAppend(ENCODER_START, before, tail);
    EncodeTail(s, tail);
    assert text + more + EncodeEnd(s') == text + (more + EncodeEnd(s'));
    InLinesExtend(text, |before| / 3 / 18, |before| / 3 % 18, pad);
    StripGroup(text, pad);
    RfcTail(before, tail);
  }

  lemma RfcTail(before: seq<bv8>, tail: seq<bv8>)
    requires |before| % 3 == 0 && 1 <= |tail| <= 2
    ensures Rfc4648(before + tail) == Rfc4648(before) + PaddedQuad(tail)
  {
    hide PaddedQuad, Quad;
    RfcAppend(before, tail);
  }

  lemma LineCount(n: nat)
    ensures var groups := (n - n % 3) / 3;
            && (n - n % 3) % 3 == 0 && groups == n / 3 && groups / 18 == n / 54
            && 73 * (groups / 18) + 4 * (groups % 18) == 4 * groups + n / 54
  {
  }

  // ---------- Exactly when decoding is well defined ----------

  /** Characters that carry six bits. */
  function Letters(code: seq<bv8>, beyond: bv8): nat {
    if code == [] then
      0
    else
      var k := |code| - 1;
      Letters(code[..k], beyond) + if Negative(Value(code[k], beyond)) then 0 else 1
  }

  /** Bits read but not yet part of a finished byte. */
  function Pending(s: Decoder): nat {
    match s.step
    case Stepa => 0
    case Stepb => 6
    case Stepc => 4
    case Stepd => 2
  }

  /** No bit is lost or invented: six per letter go in, eight per byte come out. */
  lemma {:induction false} BitsConserved(s: Decoder, code: seq<bv8>, beyond: bv8)
    ensures var (s', out) := Decode(s, code, beyond);
            Pending(s) + 6 * Letters(code, beyond) == 8 * |out| + Pending(s')
  {
    hide Value, Negative, Put1, Put2, Put3, Join1, Join2, Join3;
    if code != [] {
      BitsConserved(s, code[..|code| - 1], beyond);
    }
  }

  lemma {:induction false} MoreLetters(code: seq<bv8>)
    ensures Letters(code, 0xFF) <= Letters(code, 0)
    ensures BRACE in code ==> Letters(code, 0xFF) < Letters(code, 0)
  {
    if code != [] {
      var k := |code| - 1;
      MoreLetters(code[..k]);
      assert code == code[..k] + [code[k]];
      ValueDefined(code[k]);
      assert Negative(Value(BRACE, 0xFF)) && !Negative(Value(BRACE, 0));
    }
  }

  lemma {:induction false} NoBraceDefined(s: Decoder, code: seq<bv8>, x: bv8, y: bv8)
    requires BRACE !in code
    ensures Decode(s, code, x) == Decode(s, code, y)
  {
    hide Value, DecodeSix;
    if code != [] {
      var k := |code| - 1;
      ValueDefined(code[k]);
      NoBraceDefined(s, code[..k], x, y);
    }
  }

  /** From any state, the result is independent of the memory after the table exactly when the text
      has no left brace. */
  lemma DecodeDefined(s: Decoder, code: seq<bv8>)
    ensures (forall x, y :: Decode(s, code, x) == Decode(s, code, y)) <==> BRACE !in code
  {
    if BRACE in code {
      MoreLetters(code);
      BitsConserved(s, code, 0xFF);
      BitsConserved(s, code, 0);
      assert Decode(s, code, 0xFF) != Decode(s, code, 0);
    } else {
      forall x, y ensures Decode(s, code, x) == Decode(s, code, y) {
        NoBraceDefined(s, code, x, y);
      }
    }
  }

  // ---------- The coroutines over buffers ----------

  /** The C state struct of the encoder. */
  class EncodeState {
    var step: EncodeStep
    var result: bv8
    var stepcount: int

    constructor ()
      ensures View() == ENCODER_START
    {
      step, result, stepcount := StepA, 0, 0;
    }

    function View(): Encoder
      reads this
    {
      Encoder(step, result, stepcount)
    }
  }

  lemma EncodeNext(s: Encoder, data: seq<bv8>, k: nat)
    requires k < |data|
    ensures var (s1, code) := Encode(s, data[..k]);
            var (s2, more) := EncodeByte(s1, data[k]);
            && Encode(s, data[..k + 1]) == (s2, code + more)
            && |code| + |more| <= |Encode(s, data).1|
  {
    hide EncodeByte;
    assert data == data[..k + 1] + data[k + 1..];
    assert data[..k + 1][..k] == data[..k];
    EncodeAppend(s, data[..k + 1], data[k + 1..]);
  }

  lemma EncodeNothing(s: Encoder)
    ensures Encode(s, []) == (s, [])
  {
  }

  /** One pass through the switch: what a byte adds to the output. */
  method Advance(fragment: bv8, step: EncodeStep, result: bv8, out: array<bv8>, pos: nat, state: EncodeState)
    returns (step': EncodeStep, result': bv8, n: nat)
    requires pos + |EncodeByte(Encoder(step, result, state.stepcount), fragment).1| <= out.Length
    modifies out, state`stepcount
    ensures var (s, code) := EncodeByte(Encoder(step, result, old(state.stepcount)), fragment);
            && Encoder(step', result', state.stepcount) == s && n == |code|
            && pos + n <= out.Length && out[pos..pos + n] == code
            && out[..pos] == old(out[..pos]) && out[pos + n..] == old(out[pos + n..])
  {
    hide Letter, First, Second, Third, Fourth, Carry1, Carry2;
    match step {
      case StepA =>
        result' := First(fragment);
        out[pos] := Letter(result');
        n := 1;
        result' := Carry1(fragment);
        step' := StepB;
      case StepB =>
        result' := Second(result, fragment);
        out[pos] := Letter(result');
        n := 1;
        result' := Carry2(fragment);
        step' := StepC;
      case StepC =>
        result' := Third(result, fragment);
        out[pos] := Letter(result');
        result' := Fourth(fragment);
        out[pos + 1] := Letter(result');
        n := 2;
        state.stepcount := state.stepcount + 1;
        if state.stepcount == GROUPS_PER_LINE {
          out[pos + 2] := LINE_FEED;
          n := 3;
          state.stepcount := 0;
        }
        step' := StepA;
    }
  }

  method EncodeBlock(plain: array<bv8>, length: nat, out: array<bv8>, at: nat, state: EncodeState) returns (n: nat)
    requires length <= plain.Length && plain != out
    requires at + |Encode(state.View(), plain[..length]).1| <= out.Length
    modifies out, state
    ensures var (s, code) := old(Encode(state.View(), plain[..length]));
            && state.View() == s && n == |code| && at + n <= out.Length
            && out[..at] == old(out[..at]) && out[at..at + n] == code
            && out[at + n..] == old(out[at + n..])
  {
    hide Encode, EncodeByte;
    ghost var s0, data, initial := state.View(), plain[..length], out[..];
    EncodeNothing(s0);
    var step, result := state.step, state.result;
    var i := 0;
    n := 0;
    assert data[..0] == [] && out[at..at] == [];
    while i < length
      invariant 0 <= i <= length && at + n <= out.Length
      invariant plain[..length] == data
      invariant Encode(s0, data[..i]) == (Encoder(step, result, state.stepcount), out[at..at + n])
      invariant out[..at] == initial[..at] && out[at + n..] == initial[at + n..]
    {
      EncodeNext(s0, data, i);
      var fragment := plain[i];
      assert fragment == data[i];
      i := i + 1;
      ghost var before := out[..];
      var more;
      step, result, more := Advance(fragment, step, result, out, at + n, state);
      WrittenBehind(before, out[..], at, n, more);
      n := n + more;
    }
    state.step, state.result := step, result;
    assert data[..i] == data;
  }

  /** Output that grows at its end. */
  lemma WrittenBehind(before: seq<bv8>, after: seq<bv8>, at: nat, n: nat, more: nat)
    requires |before| == |after| && at + n + more <= |after|
    requires before[..at + n] == after[..at + n] && before[at + n + more..] == after[at + n + more..]
    ensures after[..at] == before[..at]
    ensures after[at..at + n + more] == before[at..at + n] + after[at + n..at + n + more]
    ensures after[at + n + more..] == before[at + n..][more..]
  {
    assert after[..at] == after[..at + n][..at] && before[..at] == before[..at + n][..at];
    assert after[at..at + n] == after[..at + n][at..] && before[at..at + n] == before[..at + n][at..];
  }

  /** Writes the padding and the terminating NUL. */
  method EncodeBlockEnd(out: array<bv8>, at: nat, state: EncodeState) returns (n: nat)
    requires at + |EncodeEnd(state.View())| < out.Length
    modifies out
    ensures var code := EncodeEnd(state.View());
            && n == |code| && at + n < out.Length
            && out[..at] == old(out[..at]) && out[at..at + n] == code && out[at + n] == 0
            && out[at + n + 1..] == old(out[at + n + 1..])
  {
    hide Letter;
    n := 0;
    match state.step {
      case StepB =>
        out[at] := Letter(state.result);
        out[at + 1] := EQUALS;
        out[at + 2] := EQUALS;
        n := 3;
      case StepC =>
        out[at] := Letter(state.result);
        out[at + 1] := EQUALS;
        n := 2;
      case StepA =>
    }
    out[at + n] := 0;
  }

  method EncodeChars(plain: array<bv8>, length: nat, out: array<bv8>) returns (n: nat)
    requires length <= plain.Length && plain != out
    requires |EncodeAll(plain[..length])| < out.Length
    modifies out
    ensures var text := old(EncodeAll(plain[..length]));
            && n == |text| && n < out.Length
            && out[..n] == text && out[n] == 0 && out[n + 1..] == old(out[n + 1..])
  {
    hide Encode, EncodeEnd;
    var state := new EncodeState();
    var len := EncodeBlock(plain, length, out, 0, state);
    assert out[0..len] == out[..len];
    label Encoded:
    var end := EncodeBlockEnd(out, len, state);
    n := len + end;
    assert out[..n] == out[..len] + out[len..n];
    forall i | n + 1 <= i < out.Length ensures out[i] == old(out[i]) {
      assert out[i] == out[n + 1..][i - (n + 1)] == old@Encoded(out[n + 1..][i - (n + 1)]);
      assert old@Encoded(out[i]) == old@Encoded(out[len..][i - len]) == old(out[len..][i - len]);
    }
  }

  /** The C state struct of the decoder. Between groups `plainchar` holds no bits of the text. */
  class DecodeState {
    var step: DecodeStep
    var plainchar: bv8

    constructor ()
      ensures View() == DECODER_START
    {
      step, plainchar := Stepa, 0;
    }

    function View(): Decoder
      reads this
    {
      Decoder(step, if step == Stepa then 0 else plainchar)
    }
  }

  lemma DecodeNext(s: Decoder, code: seq<bv8>, k: nat, beyond: bv8)
    requires k < |code|
    ensures var (s1, out) := Decode(s, code[..k], beyond);
            var (s2, more) := DecodeChar(s1, code[k], beyond);
            && Decode(s, code[..k + 1], beyond) == (s2, out + more)
            && |out| + |more| <= |Decode(s, code, beyond).1|
  {
    hide DecodeChar;
    assert code == code[..k + 1] + code[k + 1..];
    assert code[..k + 1][..k] == code[..k];
    DecodeAppend(s, code[..k + 1], code[k + 1..], beyond);
  }

  /** The four cases of the decoding loop, for a letter's six bits; `out[pos]` is the byte under
      construction. */
  method TakeSix(out: array<bv8>, pos: nat, step: DecodeStep, fragment: bv8) returns (pos': nat, step': DecodeStep)
    requires pos + |DecodeSix(Decoder(step, 0), fragment).1| < out.Length
    modifies out
    ensures var (s, more) := old(DecodeSix(Decoder(step, if step == Stepa then 0 else out[pos]), fragment));
            && step' == s.step && pos' == pos + |more| < out.Length
            && (step' != Stepa ==> out[pos'] == s.partial)
            && out[pos..pos'] == more
    ensures forall k :: 0 <= k < pos || pos' < k < out.Length ==> out[k] == old(out[k])
  {
    hide Put1, Put2, Put3, Join1, Join2, Join3;
    pos' := pos;
    match step {
      case Stepa =>
        out[pos'] := Put1(fragment);
        step' := Stepb;
      case Stepb =>
        out[pos'] := Join1(out[pos'], fragment);
        pos' := pos' + 1;
        out[pos'] := Put2(fragment);
        step' := Stepc;
      case Stepc =>
        out[pos'] := Join2(out[pos'], fragment);
        pos' := pos' + 1;
        out[pos'] := Put3(fragment);
        step' := Stepd;
      case Stepd =>
        out[pos'] := Join3(out[pos'], fragment);
        pos' := pos' + 1;
        step' := Stepa;
    }
  }

  /** The byte under construction lives in the output buffer, one position past the finished bytes;
      so the buffer must have room for one byte more than is returned. */
  method DecodeBlock(code: array<bv8>, length: nat, out: array<bv8>, at: nat, state: DecodeState, beyond: bv8)
    returns (n: nat)
    requires length <= code.Length && code != out
    requires at + |Decode(state.View(), code[..length], beyond).1| < out.Length
    modifies out, state
    ensures var (s, plain) := old(Decode(state.View(), code[..length], beyond));
            && state.View() == s && n == |plain| && at + n < out.Length
            && out[..at] == old(out[..at]) && out[at..at + n] == plain
            && out[at + n + 1..] == old(out[at + n + 1..])
  {
    hide Decode, Value, DecodeSix;
    ghost var s0, text, initial := state.View(), code[..length], out[..];
    DecodeNothing(s0, beyond);
    var step := state.step;
    out[at] := state.plainchar;
    var i, pos := 0, at;
    assert text[..0] == [] && out[at..at] == [];
    while i < length
      invariant 0 <= i <= length && at <= pos < out.Length
      invariant code[..length] == text
      invariant Decode(s0, text[..i], beyond) ==
                (Decoder(step, if step == Stepa then 0 else out[pos]), out[at..pos])
      invariant forall k :: 0 <= k < at || pos < k < out.Length ==> out[k] == initial[k]
    {
      ghost var before := out[..pos];
      assert out[at..pos] + [] == out[at..pos];
      DecodeNext(s0, text, i, beyond);
      assert code[i] == text[i];
      var fragment := Value(code[i], beyond);
      i := i + 1;
      if !Negative(fragment) {
        SixLength(Decoder(step, if step == Stepa then 0 else out[pos]), fragment);
        ghost var start := pos;
        pos, step := TakeSix(out, pos, step, fragment);
        assert out[at..pos] == before[at..] + out[start..pos];
      }
    }
    n := pos - at;
    state.step, state.plainchar := step, out[pos];
    assert text[..i] == text;
  }

  lemma SixLength(s: Decoder, f: bv8)
    ensures |DecodeSix(s, f).1| == |DecodeSix(Decoder(s.step, 0), f).1|
    ensures DecodeSix(s, f).0.step == Stepa ==> DecodeSix(s, f).0.partial == 0
  {
  }

  method DecodeChars(code: array<bv8>, length: nat, out: array<bv8>, beyond: bv8) returns (n: nat)
    requires length <= code.Length && code != out
    requires |Decode(DECODER_START, code[..length], beyond).1| < out.Length
    modifies out
    ensures var plain := old(Decode(DECODER_START, code[..length], beyond).1);
            && n == |plain| && n < out.Length && out[..n] == plain
            && (n > 0 ==> out[n] == 0)
            && out[n + 1..] == old(out[n + 1..])
  {
    hide Decode;
    var state := new DecodeState();
    n := DecodeBlock(code, length, out, 0, state, beyond);
    assert out[0..n] == out[..n] && out[0 + n + 1..] == old(out[n + 1..]);
    if n > 0 {
      out[n] := 0;
    }
  }
}
