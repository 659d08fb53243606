/**
 The Milenage functions on byte buffers, against the equations of section 4.1 of 3GPP TS 35.206 on bit strings. The
 block cipher under the subscriber's key is an arbitrary function on 16-byte blocks.
 */
module Milenage {

  type Bytes = seq<bv8>

  type Block = b: Bytes | |b| == 16 witness seq(16, _ => 0)

  type Cipher = Block -> Block

  // ---- What the helpers compute -----------------------------------------------------------------------

  function Xor(a: Bytes, b: Bytes): (r: Bytes)
    requires |a| <= |b|
    ensures |r| == |a|
  {
    seq(|a|, i requires 0 <= i < |a| => a[i] ^ b[i])
  }

  function Rot(x: Block, byteCount: nat): Block {
    seq(16, i => x[(i + byteCount) % 16])
  }

  /** x with k XORed into its last byte. */
  function XorLast(x: Block, k: bv8): Block {
    x[15 := x[15] ^ k]
  }

  function Temp(e: Cipher, rand: Block, opc: Block): Block {
    e(Xor(rand, opc))
  }

  /** The common shape of f2 to f5: rotate, add the constant, encrypt, add OPc. */
  function Out(e: Cipher, temp: Block, opc: Block, byteCount: nat, k: bv8): Block {
    Xor(e(XorLast(Rot(Xor(temp, opc), byteCount), k)), opc)
  }

  function In1(sqn6: Bytes, amf2: Bytes): Block
    requires |sqn6| == 6 && |amf2| == 2
  {
    sqn6 + amf2 + sqn6 + amf2
  }

  /** The block of which f1 is the first half, as the program computes it: TEMP, not IN1, is what gets rotated. */
  function Out1(e: Cipher, temp: Block, opc: Block, sqn6: Bytes, amf2: Bytes): Block
    requires |sqn6| == 6 && |amf2| == 2
  {
    Xor(e(Xor(Rot(Xor(temp, opc), 8), In1(sqn6, amf2))), opc)
  }

  function F1(e: Cipher, temp: Block, opc: Block, sqn6: Bytes, amf2: Bytes): (mac: Bytes)
    requires |sqn6| == 6 && |amf2| == 2
    ensures |mac| == 8
  {
    Out1(e, temp, opc, sqn6, amf2)[..8]
  }

  // ---- The program's buffers --------------------------------------------------------------------------

  method XorBytes(a: Bytes, b: Bytes) returns (r: Bytes)
    requires |a| <= |b|
    ensures r == Xor(a, b)
  {
    var out := new bv8[|a|];
    for i := 0 to |a|
      invariant forall j :: 0 <= j < i ==> out[j] == a[j] ^ b[j]
    {
      out[i] := a[i] ^ b[i];
    }
    r := out[..];
  }

  method XorInPlace(a: array<bv8>, b: Bytes)
    requires a.Length <= |b|
    modifies a
    ensures a[..] == Xor(old(a[..]), b)
  {
    for i := 0 to a.Length
      invariant forall j :: 0 <= j < i ==> a[j] == old(a[j]) ^ b[j]
      invariant forall j :: i <= j < a.Length ==> a[j] == old(a[j])
    {
      a[i] := a[i] ^ b[i];
    }
  }

  method RotLeft(x: Block, byteCount: nat) returns (r: Block)
    ensures r == Rot(x, byteCount)
  {
    var out := new bv8[16];
    for i := 0 to 16
      invariant forall j :: 0 <= j < i ==> out[j] == x[(j + byteCount) % 16]
    {
      out[i] := x[(i + byteCount) % 16];
    }
    r := out[..];
  }

  method Encrypt(e: Cipher, dst: array<bv8>, src: Block)
    requires dst.Length == 16
    modifies dst
    ensures dst[..] == e(src)
  {
    var block := e(src);
    for i := 0 to 16
      invariant forall j :: 0 <= j < i ==> dst[j] == block[j]
    {
      dst[i] := block[i];
    }
  }

  method DeriveOPc(cipherOf: Block -> Cipher, k: Bytes, op: Bytes) returns (ok: bool, opc: Bytes)
    ensures ok <==> |k| == 16 && |op| == 16
    ensures ok ==> opc == Xor(cipherOf(k)(op), op)
  {
    if |k| != 16 || |op| != 16 {
      return false, [];
    }
    var out := new bv8[16];
    Encrypt(cipherOf(k), out, op);
    XorInPlace(out, op);
    return true, out[..];
  }

  /** The masked rotation that f2 to f4 encrypt: the constant goes into the buffer's last byte in place. */
  method OutBlock(e: Cipher, temp: Block, opc: Block, byteCount: nat, k: bv8) returns (r: Block)
    ensures r == Out(e, temp, opc, byteCount, k)
  {
    var mixed := XorBytes(temp, opc);
    var rotated := RotLeft(mixed, byteCount);
    var x := new bv8[16](i requires 0 <= i < 16 => rotated[i]);
    assert x[..] == rotated;
    x[15] := x[15] ^ k;
    assert x[..] == XorLast(rotated, k);
    var out := new bv8[16];
    Encrypt(e, out, x[..]);
    r := XorBytes(out[..], opc);
  }

  method F2F5(e: Cipher, temp: Block, opc: Block) returns (res: Bytes, ak: Bytes)
    ensures res == Out(e, temp, opc, 0, 0x01)[8..16] && ak == Out(e, temp, opc, 0, 0x01)[..6]
  {
    var result := OutBlock(e, temp, opc, 0, 0x01);
    return result[8..16], result[..6];
  }

  method F1Mac(e: Cipher, temp: Block, opc: Block, sqn6: Bytes, amf2: Bytes) returns (mac: Bytes)
    requires |sqn6| == 6 && |amf2| == 2
    ensures mac == F1(e, temp, opc, sqn6, amf2)
  {
    var mixed := XorBytes(temp, opc);
    var rotated := RotLeft(mixed, 8);
    var x := XorBytes(rotated, sqn6 + amf2 + sqn6 + amf2);
    var out := new bv8[16];
    Encrypt(e, out, x);
    var result := XorBytes(out[..], opc);
    mac := result[..8];
  }

  // ---- Bit strings, most significant bit first, as the standard numbers them -------------------------

  type Bits = seq<bool>

  /** Bit j of a byte, bit 0 being the most significant. */
  function BitOf(b: bv8, j: nat): bool
    requires j < 8
  {
    b & (if j == 0 then 0x80 else if j == 1 then 0x40 else if j == 2 then 0x20 else if j == 3 then 0x10
         else if j == 4 then 0x08 else if j == 5 then 0x04 else if j == 6 then 0x02 else 0x01) != 0
  }

  function BitsOf(x: Bytes): (r: Bits)
    ensures |r| == 8 * |x|
  {
    seq(8 * |x|, i requires 0 <= i < 8 * |x| => BitOf(x[i / 8], i % 8))
  }

  function XorBits(a: Bits, b: Bits): (r: Bits)
    requires |a| == |b|
    ensures |r| == |a|
  {
    seq(|a|, i requires 0 <= i < |a| => a[i] != b[i])
  }

  /** rot(x, r) = x[r] || ... || x[127] || x[0] || ... || x[r-1] */
  function RotBits(x: Bits, r: nat): Bits
    requires r <= |x|
  {
    x[r..] + x[..r]
  }

  /** A 128-bit constant whose only 1 is at the given position. */
  function OneAt(position: nat): (c: Bits)
    ensures |c| == 128
  {
    seq(128, i => i == position)
  }

  /** OUT = E[rot(TEMP xor OPc, r) xor c] xor OPc */
  function StandardOut(e: Bits -> Bits, temp: Bits, opc: Bits, r: nat, c: Bits): Bits
    requires |temp| == |opc| == |c| == 128 && r <= 128
    requires forall x: Bits :: |x| == 128 ==> |e(x)| == 128
  {
    XorBits(e(XorBits(RotBits(XorBits(temp, opc), r), c)), opc)
  }

  /** The same cipher, seen on bytes and on bits. */
  ghost predicate SameCipher(e: Cipher, bits: Bits -> Bits) {
    && (forall x: Block :: BitsOf(e(x)) == bits(BitsOf(x)))
    && (forall x: Bits :: |x| == 128 ==> |bits(x)| == 128)
  }

  lemma MaskXor(a: bv8, b: bv8, m: bv8)
    requires m == 0x80 || m == 0x40 || m == 0x20 || m == 0x10 || m == 0x08 || m == 0x04 || m == 0x02 || m == 0x01
    ensures ((a ^ b) & m != 0) == ((a & m != 0) != (b & m != 0))
  {}

  lemma BitXor(a: bv8, b: bv8, j: nat)
    requires j < 8
    ensures BitOf(a ^ b, j) == (BitOf(a, j) != BitOf(b, j))
  {
    MaskXor(a, b, if j == 0 then 0x80 else if j == 1 then 0x40 else if j == 2 then 0x20 else if j == 3 then 0x10
                  else if j == 4 then 0x08 else if j == 5 then 0x04 else if j == 6 then 0x02 else 0x01);
  }

  lemma BitAt(x: Bytes, i: nat, j: nat)
    requires i < |x| && j < 8
    ensures BitsOf(x)[8 * i + j] == BitOf(x[i], j)
  {}

  lemma BitsXorAt(a: Bytes, b: Bytes, k: nat)
    requires |a| == |b| && k < 8 * |a|
    ensures BitsOf(Xor(a, b))[k] == (BitsOf(a)[k] != BitsOf(b)[k])
  {
    var i, j := k / 8, k % 8;
    BitAt(Xor(a, b), i, j);
    BitAt(a, i, j);
    BitAt(b, i, j);
    BitXor(a[i], b[i], j);
  }

  /** XOR of buffers is XOR of bit strings. */
  lemma BitsXor(a: Bytes, b: Bytes)
    requires |a| == |b|
    ensures BitsOf(Xor(a, b)) == XorBits(BitsOf(a), BitsOf(b))
  {
    forall k | 0 <= k < 8 * |a| ensures BitsOf(Xor(a, b))[k] == (BitsOf(a)[k] != BitsOf(b)[k]) {
      BitsXorAt(a, b, k);
    }
  }

  lemma RotIsSwap(x: Block, byteCount: nat)
    requires byteCount <= 16
    ensures Rot(x, byteCount) == x[byteCount..] + x[..byteCount]
  {}

  lemma RotBitsAt(x: Bits, r: nat, k: nat)
    requires |x| == 128 && r <= 128 && k < 128
    ensures RotBits(x, r)[k] == x[(k + r) % 128]
  {}

  lemma WrapsByBytes(i: nat, j: nat, byteCount: nat)
    requires j < 8
    ensures (8 * i + j + 8 * byteCount) % 128 == 8 * ((i + byteCount) % 16) + j
  {}

  lemma RotatedBit(x: Block, byteCount: nat, i: nat, j: nat)
    requires byteCount <= 16 && i < 16 && j < 8
    ensures RotBits(BitsOf(x), 8 * byteCount)[8 * i + j] == BitOf(x[(i + byteCount) % 16], j)
  {
    RotBitsAt(BitsOf(x), 8 * byteCount, 8 * i + j);
    WrapsByBytes(i, j, byteCount);
    BitAt(x, (i + byteCount) % 16, j);
  }

  lemma BitsRotAt(x: Block, byteCount: nat, i: nat, j: nat)
    requires byteCount <= 16 && i < 16 && j < 8
    ensures BitsOf(Rot(x, byteCount))[8 * i + j] == RotBits(BitsOf(x), 8 * byteCount)[8 * i + j]
  {
    BitAt(Rot(x, byteCount), i, j);
    RotatedBit(x, byteCount, i, j);
  }

  /** Rotating a buffer by n bytes is rotating the bit string by 8n positions. */
  lemma BitsRot(x: Block, byteCount: nat)
    requires byteCount <= 16
    ensures BitsOf(Rot(x, byteCount)) == RotBits(BitsOf(x), 8 * byteCount)
  {
    forall k | 0 <= k < 128 ensures BitsOf(Rot(x, byteCount))[k] == RotBits(BitsOf(x), 8 * byteCount)[k] {
      BitsRotAt(x, byteCount, k / 8, k % 8);
    }
  }

  lemma ModAdd(a: nat, m: nat)
    ensures (a % 16 + m) % 16 == (a + m) % 16
  {}

  lemma RotComposes(x: Block, m: nat, n: nat)
    ensures Rot(Rot(x, m), n) == Rot(x, m + n)
  {
    forall i | 0 <= i < 16 ensures Rot(Rot(x, m), n)[i] == Rot(x, m + n)[i] {
      ModAdd(i + n, m);
      assert i + n + m == i + (m + n);
    }
  }

  lemma RotDistributes(x: Block, y: Block, n: nat)
    ensures Rot(Xor(x, y), n) == Xor(Rot(x, n), Rot(y, n))
  {}

  /** The byte whose only 1 is at the given position of the last eight of 128. */
  function LastByte(position: nat): bv8 {
    if position == 127 then 0x01 else if position == 126 then 0x02 else 0x04
  }

  lemma LastByteBit(j: nat, position: nat)
    requires j < 8 && 125 <= position <= 127
    ensures BitOf(LastByte(position), j) <==> 120 + j == position
  {}

  lemma BitXorLast(x: Block, position: nat, i: nat, j: nat)
    requires 125 <= position <= 127 && i < 16 && j < 8
    ensures BitOf(XorLast(x, LastByte(position))[i], j) == (BitOf(x[i], j) != (8 * i + j == position))
  {
    if i == 15 {
      BitXor(x[15], LastByte(position), j);
      LastByteBit(j, position);
    }
  }

  /** XORing that byte into the last one adds the 128-bit constant. */
  lemma BitsXorLast(x: Block, position: nat)
    requires 125 <= position <= 127
    ensures BitsOf(XorLast(x, LastByte(position))) == XorBits(BitsOf(x), OneAt(position))
  {
    forall i | 0 <= i < 128
      ensures BitsOf(XorLast(x, LastByte(position)))[i] == (BitsOf(x)[i] != (i == position))
    {
      BitXorLast(x, position, i / 8, i % 8);
    }
  }

  lemma OutMeetsStandard(e: Cipher, bits: Bits -> Bits, temp: Block, opc: Block, byteCount: nat, position: nat)
    requires SameCipher(e, bits) && byteCount <= 16 && 125 <= position <= 127
    ensures BitsOf(Out(e, temp, opc, byteCount, LastByte(position))) ==
            StandardOut(bits, BitsOf(temp), BitsOf(opc), 8 * byteCount, OneAt(position))
  {
    var mixed := Xor(temp, opc);
    BitsXor(temp, opc);
    BitsRot(mixed, byteCount);
    BitsXorLast(Rot(mixed, byteCount), position);
    BitsXor(e(XorLast(Rot(mixed, byteCount), LastByte(position))), opc);
  }

  lemma BitsSliceAt(x: Bytes, lo: nat, hi: nat, k: nat)
    requires lo <= hi <= |x| && k < 8 * (hi - lo)
    ensures BitsOf(x[lo..hi])[k] == BitsOf(x)[8 * lo + k]
  {
    var i, j := k / 8, k % 8;
    assert k == 8 * i + j && i < hi - lo;
    BitAt(x[lo..hi], i, j);
    BitAt(x, lo + i, j);
  }

  lemma BitsSlice(x: Bytes, lo: nat, hi: nat)
    requires lo <= hi <= |x|
    ensures BitsOf(x[lo..hi]) == BitsOf(x)[8 * lo..8 * hi]
  {
    forall k | 0 <= k < 8 * (hi - lo) ensures BitsOf(x[lo..hi])[k] == BitsOf(x)[8 * lo + k] {
      BitsSliceAt(x, lo, hi, k);
    }
  }

  /** OPc and f2 to f5 are the standard's, for every block cipher: OPc = E[OP] xor OP; f2 and f5 are bits 64 to 127 and
      0 to 47 of OUT2 (r2 = 0, c2 with bit 127 set); f3 is OUT3 (r3 = 32, bit 126); f4 is OUT4 (r4 = 64, bit 125). */
  lemma MeetsStandard(e: Cipher, bits: Bits -> Bits, op: Block, rand: Block, opc: Block)
    requires SameCipher(e, bits)
    ensures BitsOf(Xor(e(op), op)) == XorBits(bits(BitsOf(op)), BitsOf(op))
    ensures var temp := bits(XorBits(BitsOf(rand), BitsOf(opc)));
            var t := Temp(e, rand, opc);
            && BitsOf(t) == temp
            && BitsOf(Out(e, t, opc, 0, 0x01)[8..16]) == StandardOut(bits, temp, BitsOf(opc), 0, OneAt(127))[64..128]
            && BitsOf(Out(e, t, opc, 0, 0x01)[..6]) == StandardOut(bits, temp, BitsOf(opc), 0, OneAt(127))[0..48]
            && BitsOf(Out(e, t, opc, 4, 0x02)) == StandardOut(bits, temp, BitsOf(opc), 32, OneAt(126))
            && BitsOf(Out(e, t, opc, 8, 0x04)) == StandardOut(bits, temp, BitsOf(opc), 64, OneAt(125))
  {
    BitsXor(e(op), op);
    BitsXor(rand, opc);
    var t := Temp(e, rand, opc);
    OutMeetsStandard(e, bits, t, opc, 0, 127);
    OutMeetsStandard(e, bits, t, opc, 4, 126);
    OutMeetsStandard(e, bits, t, opc, 8, 125);
    var out2 := Out(e, t, opc, 0, 0x01);
    BitsSlice(out2, 8, 16);
    BitsSlice(out2, 0, 6);
    assert out2[0..6] == out2[..6];
  }

  // ---- f1 and the standard ----------------------------------------------------------------------------

  /** OUT1 = E[TEMP xor rot(IN1 xor OPc, r1) xor c1] xor OPc, with r1 = 64 and c1 = 0 */
  function StandardOut1(e: Bits -> Bits, temp: Bits, in1: Bits, opc: Bits): Bits
    requires |temp| == |in1| == |opc| == 128
    requires forall x: Bits :: |x| == 128 ==> |e(x)| == 128
  {
    XorBits(e(XorBits(temp, RotBits(XorBits(in1, opc), 64))), opc)
  }

  /** IN1 as the standard numbers its bits: 0 to 47 and 64 to 111 are SQN, 48 to 63 and 112 to 127 are AMF. */
  function StandardIn1(sqn: Bits, amf: Bits): (in1: Bits)
    requires |sqn| == 48 && |amf| == 16
    ensures |in1| == 128
  {
    seq(128, i requires 0 <= i < 128 => if i < 48 then sqn[i] else if i < 64 then amf[i - 48] else if i < 112 then sqn[i - 64] else amf[i - 112])
  }

  lemma BitsConcatAt(a: Bytes, b: Bytes, k: nat)
    requires k < 8 * |a + b|
    ensures BitsOf(a + b)[k] == if k < 8 * |a| then BitsOf(a)[k] else BitsOf(b)[k - 8 * |a|]
  {
    var i, j := k / 8, k % 8;
    BitAt(a + b, i, j);
    if i < |a| {
      BitAt(a, i, j);
    } else {
      BitAt(b, i - |a|, j);
    }
  }

  lemma BitsConcat(a: Bytes, b: Bytes)
    ensures BitsOf(a + b) == BitsOf(a) + BitsOf(b)
  {
    forall k | 0 <= k < 8 * |a + b| ensures BitsOf(a + b)[k] == (BitsOf(a) + BitsOf(b))[k] {
      BitsConcatAt(a, b, k);
    }
  }

  /** The buffer that the program fills is the standard's IN1. */
  lemma BitsIn1(sqn6: Bytes, amf2: Bytes)
    requires |sqn6| == 6 && |amf2| == 2
    ensures BitsOf(In1(sqn6, amf2)) == StandardIn1(BitsOf(sqn6), BitsOf(amf2))
  {
    var half := sqn6 + amf2;
    assert In1(sqn6, amf2) == half + half;
    BitsConcat(half, half);
    BitsConcat(sqn6, amf2);
  }

  lemma CancelMasks(a: bv8, b: bv8, o: bv8, n: bv8)
    ensures (a ^ o) ^ n == b ^ (n ^ o) <==> a == b
  {}

  lemma CancelBlocks(a: Block, b: Block, o: Block, n: Block)
    ensures Xor(Xor(a, o), n) == Xor(b, Xor(n, o)) <==> a == b
  {
    forall i | 0 <= i < 16 ensures Xor(Xor(a, o), n)[i] == Xor(b, Xor(n, o))[i] <==> a[i] == b[i] {
      CancelMasks(a[i], b[i], o[i], n[i]);
    }
  }

  /** IN1 repeats itself after eight bytes, so the two encrypted blocks differ only by the rotation of TEMP. */
  lemma SameBlockEncrypted(temp: Block, opc: Block, sqn6: Bytes, amf2: Bytes)
    requires |sqn6| == 6 && |amf2| == 2
    ensures var in1 := In1(sqn6, amf2);
            Xor(Rot(Xor(temp, opc), 8), in1) == Xor(temp, Rot(Xor(in1, opc), 8)) <==> temp[..8] == temp[8..]
  {
    var in1, half := In1(sqn6, amf2), sqn6 + amf2;
    assert in1 == half + half;
    RotIsSwap(in1, 8);
    assert Rot(in1, 8) == in1;
    RotIsSwap(temp, 8);
    HalvesSwap(temp);
    RotDistributes(temp, opc, 8);
    RotDistributes(in1, opc, 8);
    CancelBlocks(Rot(temp, 8), temp, Rot(opc, 8), in1);
  }

  lemma HalvesSwap(x: Block)
    ensures x[8..] + x[..8] == x <==> x[..8] == x[8..]
  {
    assert x == x[..8] + x[8..];
    assert (x[8..] + x[..8])[..8] == x[8..];
  }

  lemma BitsDetermine(a: bv8, b: bv8)
    requires forall j :: 0 <= j < 8 ==> BitOf(a, j) == BitOf(b, j)
    ensures a == b
  {
    assert BitOf(a, 0) == BitOf(b, 0) && BitOf(a, 1) == BitOf(b, 1) && BitOf(a, 2) == BitOf(b, 2) && BitOf(a, 3) == BitOf(b, 3);
    assert BitOf(a, 4) == BitOf(b, 4) && BitOf(a, 5) == BitOf(b, 5) && BitOf(a, 6) == BitOf(b, 6) && BitOf(a, 7) == BitOf(b, 7);
    EightBits(a, b);
  }

  lemma EightBits(a: bv8, b: bv8)
    requires (a & 0x80 != 0) == (b & 0x80 != 0) && (a & 0x40 != 0) == (b & 0x40 != 0)
    requires (a & 0x20 != 0) == (b & 0x20 != 0) && (a & 0x10 != 0) == (b & 0x10 != 0)
    requires (a & 0x08 != 0) == (b & 0x08 != 0) && (a & 0x04 != 0) == (b & 0x04 != 0)
    requires (a & 0x02 != 0) == (b & 0x02 != 0) && (a & 0x01 != 0) == (b & 0x01 != 0)
    ensures a == b
  {}

  lemma BitsInjective(a: Bytes, b: Bytes)
    requires |a| == |b| && BitsOf(a) == BitsOf(b)
    ensures a == b
  {
    forall i | 0 <= i < |a| ensures a[i] == b[i] {
      forall j | 0 <= j < 8 ensures BitOf(a[i], j) == BitOf(b[i], j) {
        BitAt(a, i, j);
        BitAt(b, i, j);
      }
      BitsDetermine(a[i], b[i]);
    }
  }

  lemma XorCancels(a: Bytes, b: Bytes, k: Bytes)
    requires |a| == |b| == |k| && Xor(a, k) == Xor(b, k)
    ensures a == b
  {
    forall i | 0 <= i < |a| ensures a[i] == b[i] {
      assert Xor(a, k)[i] == Xor(b, k)[i];
    }
  }

  /** The standard's OUT1 in terms of byte blocks. */
  lemma StandardOut1OnBytes(e: Cipher, bits: Bits -> Bits, temp: Block, opc: Block, in1: Block)
    requires SameCipher(e, bits)
    ensures StandardOut1(bits, BitsOf(temp), BitsOf(in1), BitsOf(opc)) ==
            BitsOf(Xor(e(Xor(temp, Rot(Xor(in1, opc), 8))), opc))
  {
    var rotated := Rot(Xor(in1, opc), 8);
    BitsXor(in1, opc);
    BitsRot(Xor(in1, opc), 8);
    BitsXor(temp, rotated);
    BitsXor(e(Xor(temp, rotated)), opc);
  }

  /** Unlike f2 to f5, f1 is not the standard's: for a block cipher, which maps different blocks to different blocks, the
      program's OUT1 is the standard's exactly when the two halves of TEMP are equal. */
  lemma F1MeetsStandardExactlyOnEqualHalves(e: Cipher, bits: Bits -> Bits, temp: Block, opc: Block, sqn6: Bytes, amf2: Bytes)
    requires |sqn6| == 6 && |amf2| == 2 && SameCipher(e, bits)
    requires forall x: Block, y: Block :: e(x) == e(y) ==> x == y
    ensures BitsOf(Out1(e, temp, opc, sqn6, amf2))
            == StandardOut1(bits, BitsOf(temp), StandardIn1(BitsOf(sqn6), BitsOf(amf2)), BitsOf(opc))
            <==> temp[..8] == temp[8..]
  {
    var in1 := In1(sqn6, amf2);
    var a, b := Xor(Rot(Xor(temp, opc), 8), in1), Xor(temp, Rot(Xor(in1, opc), 8));
    BitsIn1(sqn6, amf2);
    StandardOut1OnBytes(e, bits, temp, opc, in1);
    SameBlockEncrypted(temp, opc, sqn6, amf2);
    if BitsOf(Xor(e(a), opc)) == BitsOf(Xor(e(b), opc)) {
      BitsInjective(Xor(e(a), opc), Xor(e(b), opc));
      XorCancels(e(a), e(b), opc);
    }
  }

  /** The failing input: any TEMP that starts with one and is otherwise zero. */
  lemma F1FailsOnOne(e: Cipher, bits: Bits -> Bits, opc: Block, sqn6: Bytes, amf2: Bytes)
    requires |sqn6| == 6 && |amf2| == 2 && SameCipher(e, bits)
    requires forall x: Block, y: Block :: e(x) == e(y) ==> x == y
    ensures var temp: Block := [1] + seq(15, _ => 0);
            BitsOf(Out1(e, temp, opc, sqn6, amf2)) != StandardOut1(bits, BitsOf(temp), StandardIn1(BitsOf(sqn6), BitsOf(amf2)), BitsOf(opc))
  {
    var temp: Block := [1] + seq(15, _ => 0);
    assert temp[..8][0] != temp[8..][0];
    F1MeetsStandardExactlyOnEqualHalves(e, bits, temp, opc, sqn6, amf2);
  }

  /** MAC-A is the first 64 bits of OUT1; where TEMP has equal halves, of the standard's. */
  lemma MacIsFirstHalf(e: Cipher, bits: Bits -> Bits, temp: Block, opc: Block, sqn6: Bytes, amf2: Bytes)
    requires |sqn6| == 6 && |amf2| == 2 && SameCipher(e, bits)
    ensures BitsOf(F1(e, temp, opc, sqn6, amf2)) == BitsOf(Out1(e, temp, opc, sqn6, amf2))[0..64]
    ensures temp[..8] == temp[8..] ==>
              BitsOf(F1(e, temp, opc, sqn6, amf2)) ==
              StandardOut1(bits, BitsOf(temp), StandardIn1(BitsOf(sqn6), BitsOf(amf2)), BitsOf(opc))[0..64]
  {
    var out := Out1(e, temp, opc, sqn6, amf2);
    BitsSlice(out, 0, 8);
    assert out[0..8] == out[..8];
    BitsIn1(sqn6, amf2);
    StandardOut1OnBytes(e, bits, temp, opc, In1(sqn6, amf2));
    SameBlockEncrypted(temp, opc, sqn6, amf2);
  }

  lemma In1Injective(a: Bytes, m: Bytes, b: Bytes, n: Bytes)
    requires |a| == |b| == 6 && |m| == |n| == 2 && In1(a, m) == In1(b, n)
    ensures a == b && m == n
  {
    assert In1(a, m)[..6] == a && In1(a, m)[6..8] == m;
    assert In1(b, n)[..6] == b && In1(b, n)[6..8] == n;
  }

  lemma XorCancelsLeft(k: Bytes, a: Bytes, b: Bytes)
    requires |a| == |b| == |k| && Xor(k, a) == Xor(k, b)
    ensures a == b
  {
    forall i | 0 <= i < |a| ensures a[i] == b[i] {
      assert Xor(k, a)[i] == Xor(k, b)[i];
    }
  }

  /** OUT1 authenticates both: under one cipher and challenge, different sequence numbers or AMFs give different OUT1. */
  lemma Out1Authenticates(e: Cipher, temp: Block, opc: Block, a: Bytes, m: Bytes, b: Bytes, n: Bytes)
    requires |a| == |b| == 6 && |m| == |n| == 2
    requires forall x: Block, y: Block :: e(x) == e(y) ==> x == y
    ensures Out1(e, temp, opc, a, m) == Out1(e, temp, opc, b, n) <==> a == b && m == n
  {
    var rotated := Rot(Xor(temp, opc), 8);
    if Out1(e, temp, opc, a, m) == Out1(e, temp, opc, b, n) {
      XorCancels(e(Xor(rotated, In1(a, m))), e(Xor(rotated, In1(b, n))), opc);
      XorCancelsLeft(rotated, In1(a, m), In1(b, n));
      In1Injective(a, m, b, n);
    }
  }

  // ---- Big-endian values ------------------------------------------------------------------------------

  function Pow256(n: nat): (p: nat)
    ensures p >= 1
  {
    if n == 0 then 1 else 256 * Pow256(n - 1)
  }

  function Pow2(n: nat): (p: nat)
    ensures p >= 1
  {
    if n == 0 then 1 else 2 * Pow2(n - 1)
  }

  function Value(x: Bytes): nat {
    if x == [] then 0 else Value(x[..|x|-1]) * 256 + x[|x|-1] as nat
  }

  lemma {:induction false} PowerOfBytes(n: nat)
    ensures Pow256(n) == Pow2(8 * n)
  {
    if n > 0 {
      PowerOfBytes(n - 1);
      var m := 8 * n - 8;
      assert Pow2(m + 1) == 2 * Pow2(m);
      assert Pow2(m + 2) == 4 * Pow2(m);
      assert Pow2(m + 3) == 8 * Pow2(m);
      assert Pow2(m + 4) == 16 * Pow2(m);
      assert Pow2(m + 5) == 32 * Pow2(m);
      assert Pow2(m + 6) == 64 * Pow2(m);
      assert Pow2(m + 7) == 128 * Pow2(m);
    }
  }

  lemma Regroup(a: nat, p: nat, b: nat, c: nat)
    ensures (a * p + b) * 256 + c == a * (256 * p) + (b * 256 + c)
  {
    assert a * p * 256 == a * (256 * p);
  }

  lemma {:induction false} ValueConcat(a: Bytes, b: Bytes)
    ensures Value(a + b) == Value(a) * Pow256(|b|) + Value(b)
  {
    if b == [] {
      assert a + b == a;
    } else {
      var init := b[..|b|-1];
      ValueConcat(a, init);
      assert (a + b)[..|a + b|-1] == a + init;
      assert (a + b)[|a + b|-1] == b[|b|-1];
      Regroup(Value(a), Pow256(|init|), Value(init), b[|b|-1] as nat);
    }
  }

  lemma {:induction false} ValueBound(x: Bytes)
    ensures Value(x) < Pow256(|x|)
  {
    if x != [] {
      ValueBound(x[..|x|-1]);
    }
  }

  lemma TimesByte(p: nat, q: nat)
    ensures 256 * (p * q) == (256 * p) * q
  {}

  lemma {:induction false} PowSplits(a: nat, b: nat)
    ensures Pow256(a + b) == Pow256(a) * Pow256(b)
  {
    if a > 0 {
      PowSplits(a - 1, b);
      TimesByte(Pow256(a - 1), Pow256(b));
    }
  }

  lemma NonZeroIsBig(k: int, m: nat)
    requires k != 0
    ensures k * m >= m || k * m <= 0 - m
  {
    if k >= 1 {
      NonNegative(k - 1, m);
      assert (k - 1) * m == k * m - m;
    } else {
      NonNegative(0 - k - 1, m);
      assert (0 - k - 1) * m == 0 - k * m - m;
    }
  }

  lemma NonNegative(a: nat, m: nat)
    ensures a * m >= 0
  {}

  lemma DivMod(q: nat, r: nat, m: nat)
    requires r < m
    ensures (q * m + r) / m == q && (q * m + r) % m == r
  {
    var d, e := (q * m + r) / m, (q * m + r) % m;
    assert q * m + r == d * m + e;
    assert (d - q) * m == d * m - q * m;
    if d != q {
      NonZeroIsBig(d - q, m);
    }
  }

  lemma RotatesNumber(v: nat, size: nat, h: nat, r: nat, l: nat, p: nat)
    requires l < r && p >= 1 && v == h * r + l && size == p * r
    ensures size > 0 && v * p / size == h && v * p % size == l * p
  {
    ShiftSplits(h, r, l, p);
    TimesLess(l, r, p);
    DivMod(h, l * p, size);
  }

  lemma ShiftSplits(h: nat, r: nat, l: nat, p: nat)
    ensures (h * r + l) * p == h * (p * r) + l * p
  {
    assert (h * r + l) * p == h * r * p + l * p;
    assert h * r * p == h * (p * r);
  }

  lemma TimesLess(l: nat, r: nat, p: nat)
    requires l < r && p >= 1
    ensures l * p < p * r
  {
    var d := r - l - 1;
    assert r * p == (l + 1) * p + d * p;
    assert (l + 1) * p == l * p + p;
    assert d * p >= 0;
  }

  lemma SwapsHalves(hi: Bytes, lo: Bytes)
    ensures var shifted, size := Value(hi + lo) * Pow256(|hi|), Pow256(|hi| + |lo|);
            Value(lo + hi) == shifted % size + shifted / size
  {
    ValueConcat(hi, lo);
    ValueConcat(lo, hi);
    ValueBound(lo);
    PowSplits(|hi|, |lo|);
    RotatesNumber(Value(hi + lo), Pow256(|hi| + |lo|), Value(hi), Pow256(|lo|), Value(lo), Pow256(|hi|));
  }

  /** Rotating a buffer by n bytes rotates its 128-bit big-endian value left by 8n bits; |x| is 16. */
  lemma {:induction false} RotatesValue(x: Block, byteCount: nat)
    requires byteCount <= |x|
    ensures var shifted, size := Value(x) * Pow2(8 * byteCount), Pow2(8 * |x|);
            Value(Rot(x, byteCount)) == shifted % size + shifted / size
  {
    RotIsSwap(x, byteCount);
    assert x == x[..byteCount] + x[byteCount..];
    PowerOfBytes(byteCount);
    PowerOfBytes(|x|);
    SwapsHalves(x[..byteCount], x[byteCount..]);
  }
}
