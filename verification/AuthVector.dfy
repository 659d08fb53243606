/** Authentication vectors: the sequence number's encoding, the AUTN token, and the stored counter behind them. */
module AuthVector {
  import opened Basics
  import opened Milenage

  /** binary.BigEndian.PutUint64, of which the low six bytes are used. */
  function BigEndian(v: nat, n: nat): (r: Bytes)
    ensures |r| == n
  {
    if n == 0 then [] else BigEndian(v / 256, n - 1) + [(v % 256) as bv8]
  }

  const UINT64_BYTES: nat := 8

  function Sqn6(sqn: nat): (r: Bytes)
    ensures |r| == 6
  {
    BigEndian(sqn, UINT64_BYTES)[2..]
  }

  datatype Vector = Vector(rand: Bytes, xres: Bytes, ck: Bytes, ik: Bytes, autn: Bytes)

  /** (SQN xor AK) || AMF || MAC-A */
  function Autn(e: Cipher, opc: Block, rand: Block, sqn: nat, amf: Bytes): (autn: Bytes)
    requires |amf| == 2
    ensures |autn| == 16
  {
    var temp := Temp(e, rand, opc);
    Xor(Sqn6(sqn), Ak(e, temp, opc)) + amf + F1(e, temp, opc, Sqn6(sqn), amf)
  }

  function Ak(e: Cipher, temp: Block, opc: Block): (ak: Bytes)
    ensures |ak| == 6
  {
    Out(e, temp, opc, 0, 0x01)[..6]
  }

  /** The parts of an authentication vector. */
  ghost predicate IsVector(v: Vector, e: Cipher, opc: Block, rand: Block, sqn: nat, amf: Bytes)
    requires |amf| == 2
  {
    var temp := Temp(e, rand, opc);
    && v.rand == rand
    && v.xres == Out(e, temp, opc, 0, 0x01)[8..16]
    && v.ck == Out(e, temp, opc, 4, 0x02)
    && v.ik == Out(e, temp, opc, 8, 0x04)
    && v.autn == Autn(e, opc, rand, sqn, amf)
  }

  /** A vector is the standard's, for every block cipher: XRES, CK and IK are f2, f3 and f4 of RAND; AUTN begins with SQN
      xor f5, then the AMF, then the first 64 bits of OUT1, which are the standard's f1 where TEMP has equal halves. */
  lemma VectorMeetsStandard(v: Vector, e: Cipher, bits: Bits -> Bits, opc: Block, rand: Block, sqn: nat, amf: Bytes)
    requires |amf| == 2 && SameCipher(e, bits) && IsVector(v, e, opc, rand, sqn, amf)
    ensures |v.autn| == 16
    ensures var opcBits := BitsOf(opc);
            var temp := bits(XorBits(BitsOf(v.rand), opcBits));
            var out2 := StandardOut(bits, temp, opcBits, 0, OneAt(127));
            && v.rand == rand
            && BitsOf(v.xres) == out2[64..128]
            && BitsOf(v.ck) == StandardOut(bits, temp, opcBits, 32, OneAt(126))
            && BitsOf(v.ik) == StandardOut(bits, temp, opcBits, 64, OneAt(125))
            && BitsOf(v.autn[..6]) == XorBits(BitsOf(Sqn6(sqn)), out2[0..48])
            && v.autn[6..8] == amf
            && BitsOf(v.autn[8..]) == BitsOf(Out1(e, Temp(e, rand, opc), opc, Sqn6(sqn), amf))[0..64]
  {
    MeetsStandard(e, bits, opc, rand, opc);
    AutnParts(e, opc, rand, sqn, amf);
    BitsXor(Sqn6(sqn), Ak(e, Temp(e, rand, opc), opc));
    MacIsFirstHalf(e, bits, Temp(e, rand, opc), opc, Sqn6(sqn), amf);
  }

  method Copy(dst: array<bv8>, at: nat, src: Bytes)
    requires at + |src| <= dst.Length
    modifies dst
    ensures dst[at..at + |src|] == src
    ensures dst[..at] == old(dst[..at]) && dst[at + |src|..] == old(dst[at + |src|..])
  {
    for i := 0 to |src|
      invariant forall j :: 0 <= j < i ==> dst[at + j] == src[j]
      invariant forall j :: 0 <= j < dst.Length && !(at <= j < at + i) ==> dst[j] == old(dst[j])
    {
      dst[at + i] := src[i];
    }
  }

  method RunMilenage(e: Cipher, opc: Block, rand: Block, sqn: nat, amf: Bytes) returns (v: Vector)
    requires |amf| == 2
    ensures IsVector(v, e, opc, rand, sqn, amf)
  {
    var sqn6 := BigEndian(sqn, UINT64_BYTES)[2..];
    var masked := XorBytes(rand, opc);
    var temp := e(masked);
    var res, ak := F2F5(e, temp, opc);
    var ck := OutBlock(e, temp, opc, 4, 0x02);
    var ik := OutBlock(e, temp, opc, 8, 0x04);
    var macA := F1Mac(e, temp, opc, sqn6, amf);
    var concealed := XorBytes(sqn6, ak);
    var autn := new bv8[16];
    Copy(autn, 0, concealed);
    Copy(autn, 6, amf);
    assert autn[..6] == concealed;
    Copy(autn, 8, macA);
    assert autn[..6] == concealed && autn[6..8] == amf && autn[8..16] == macA;
    assert autn[..] == autn[..6] + autn[6..8] + autn[8..16];
    v := Vector(rand, res, ck, ik, autn[..]);
  }

  // ---- The round trip -------------------------------------------------------------------------------

  lemma NextByte(x: bv8)
    requires x < 255
    ensures (x + 1) as int == x as int + 1
  {}

  lemma ByteOfValue(x: bv8)
    ensures (x as int) as bv8 == x
  {}

  lemma {:induction false} SomeByte(n: nat) returns (x: bv8)
    requires n < 256
    ensures x as int == n
  {
    if n == 0 {
      x := 0;
    } else {
      x := SomeByte(n - 1);
      NextByte(x);
      x := x + 1;
    }
  }

  lemma ByteRoundTrip(n: nat)
    requires n < 256
    ensures (n as bv8) as int == n
  {
    var x := SomeByte(n);
    ByteOfValue(x);
  }

  lemma {:induction false} ValueOfBigEndian(v: nat, n: nat)
    ensures Value(BigEndian(v, n)) == v % Pow256(n)
  {
    if n > 0 {
      ValueOfBigEndian(v / 256, n - 1);
      ByteRoundTrip(v % 256);
      var p := Pow256(n - 1);
      var r := BigEndian(v, n);
      assert r[..n - 1] == BigEndian(v / 256, n - 1);
      ModShift(v, p);
    }
  }

  lemma ModShift(v: nat, p: nat)
    requires p >= 1
    ensures (v / 256) % p * 256 + v % 256 == v % (256 * p)
  {
    var q, r := v / 256 / p, (v / 256) % p;
    assert v / 256 == q * p + r;
    assert v == (q * p + r) * 256 + v % 256;
    assert v == q * (256 * p) + (r * 256 + v % 256);
    assert r * 256 + v % 256 < 256 * p;
    DivMod(q, r * 256 + v % 256, 256 * p);
  }

  /** The last bytes of a longer encoding are the shorter one. */
  lemma LowSixBytes(sqn: nat)
    ensures Sqn6(sqn) == BigEndian(sqn, |Sqn6(sqn)|)
  {
    BigEndianTail(sqn, |Sqn6(sqn)|, 2);
  }

  lemma {:induction false} BigEndianTail(v: nat, n: nat, extra: nat)
    ensures BigEndian(v, n + extra)[extra..] == BigEndian(v, n)
  {
    if n > 0 {
      BigEndianTail(v / 256, n - 1, extra);
    }
  }

  lemma Unmask(a: bv8, k: bv8)
    ensures (a ^ k) ^ k == a
  {}

  lemma XorTwice(a: Bytes, k: Bytes)
    requires |a| == |k|
    ensures Xor(Xor(a, k), k) == a
  {
    forall i | 0 <= i < |a| ensures (a[i] ^ k[i]) ^ k[i] == a[i] {
      Unmask(a[i], k[i]);
    }
  }

  /** What a verifier with the same key material recovers from AUTN. */
  function RecoveredSqn(e: Cipher, opc: Block, rand: Block, autn: Bytes): nat
    requires |autn| == 16
  {
    Value(Xor(autn[..6], Ak(e, Temp(e, rand, opc), opc)))
  }

  lemma AutnParts(e: Cipher, opc: Block, rand: Block, sqn: nat, amf: Bytes)
    requires |amf| == 2
    ensures var autn, temp := Autn(e, opc, rand, sqn, amf), Temp(e, rand, opc);
            && autn[..6] == Xor(Sqn6(sqn), Ak(e, temp, opc))
            && autn[6..8] == amf
            && autn[8..] == F1(e, temp, opc, Sqn6(sqn), amf)
            && Xor(autn[..6], Ak(e, temp, opc)) == Sqn6(sqn)
  {
    var temp := Temp(e, rand, opc);
    var concealed, mac := Xor(Sqn6(sqn), Ak(e, temp, opc)), F1(e, temp, opc, Sqn6(sqn), amf);
    assert (concealed + amf + mac)[..6] == concealed;
    assert (concealed + amf + mac)[6..8] == amf;
    assert (concealed + amf + mac)[8..] == mac;
    XorTwice(Sqn6(sqn), Ak(e, temp, opc));
  }

  /** 2^48 */
  const SQN_RANGE: nat := 0x1_0000_0000_0000

  lemma SixBytesRange()
    ensures Pow256(6) == SQN_RANGE
  {}

  lemma SqnValue(sqn: nat)
    ensures Value(Sqn6(sqn)) == sqn % SQN_RANGE
  {
    SixBytesRange();
    LowSixBytes(sqn);
    ValueOfBigEndian(sqn, |Sqn6(sqn)|);
  }

  /** The verifier recovers the sequence number, the AMF, and a MAC equal to the one sent. A 64-bit sequence number
      comes back as it was exactly when it fits in six bytes. */
  lemma AutnRoundTrip(e: Cipher, opc: Block, rand: Block, sqn: nat, amf: Bytes)
    requires |amf| == 2
    ensures var autn, temp := Autn(e, opc, rand, sqn, amf), Temp(e, rand, opc);
            && (RecoveredSqn(e, opc, rand, autn) == sqn <==> sqn < SQN_RANGE)
            && RecoveredSqn(e, opc, rand, autn) == sqn % SQN_RANGE
            && autn[6..8] == amf
            && autn[8..] == F1(e, temp, opc, Xor(autn[..6], Ak(e, temp, opc)), autn[6..8])
  {
    AutnParts(e, opc, rand, sqn, amf);
    SqnValue(sqn);
  }

  /** Under one RAND, two sequence numbers share an AUTN exactly when they agree modulo 2^48. */
  lemma AutnsCollideModulo(e: Cipher, opc: Block, rand: Block, a: nat, b: nat, amf: Bytes)
    requires |amf| == 2
    ensures Autn(e, opc, rand, a, amf) == Autn(e, opc, rand, b, amf)
            <==> a % SQN_RANGE == b % SQN_RANGE
  {
    AutnRoundTrip(e, opc, rand, a, amf);
    AutnRoundTrip(e, opc, rand, b, amf);
    LowSixBytes(a);
    LowSixBytes(b);
    SixBytesRange();
    if a % SQN_RANGE == b % SQN_RANGE {
      BigEndianModulo(a, b, |Sqn6(a)|);
    }
  }

  lemma {:induction false} BigEndianModulo(a: nat, b: nat, n: nat)
    requires a % Pow256(n) == b % Pow256(n)
    ensures BigEndian(a, n) == BigEndian(b, n)
  {
    if n > 0 {
      var p := Pow256(n - 1);
      ModShift(a, p);
      ModShift(b, p);
      BigEndianModulo(a / 256, b / 256, n - 1);
    }
  }

  // ---- The counter ----------------------------------------------------------------------------------

  const DEFAULT_AMF: Bytes := [0x80, 0x00]

  /** The sqn column is a signed 64-bit integer. */
  const MAX_SQN: nat := 0x7fff_ffff_ffff_ffff

  /** Numbers handed out one after another. */
  ghost predicate Consecutive(issued: seq<nat>) {
    forall i, j :: 0 <= i <= j < |issued| ==> issued[j] == issued[i] + (j - i)
  }

  /** The subscriber row's counter and the log of numbers it handed out. */
  class SqnCounter {
    var sqn: nat
    ghost var issued: seq<nat>

    ghost predicate Valid()
      reads this
    {
      && sqn <= MAX_SQN
      && Consecutive(issued)
      && (issued != [] ==> issued[|issued|-1] == sqn)
    }

    constructor (start: nat)
      requires start <= MAX_SQN
      ensures Valid() && sqn == start && issued == []
    {
      sqn, issued := start, [];
    }

    /** UPDATE ... SET sqn = sqn + 1 ... RETURNING sqn, which fails when the column overflows. */
    method IncrementSqn() returns (r: Result<nat, string>)
      requires Valid()
      modifies this
      ensures Valid()
      ensures r.Ok? <==> old(sqn) < MAX_SQN
      ensures r.Ok? ==> sqn == r.value == old(sqn) + 1 && issued == old(issued) + [r.value]
      ensures r.Err? ==> sqn == old(sqn) && issued == old(issued)
    {
      if sqn == MAX_SQN {
        return Err("SQN increment failed");
      }
      sqn := sqn + 1;
      issued := issued + [sqn];
      return Ok(sqn);
    }

    /** A vector carries the number its own increment returned. */
    method GenerateAuthVector(e: Cipher, opc: Block, rand: Block) returns (r: Result<Vector, string>)
      requires Valid()
      modifies this
      ensures Valid()
      ensures r.Ok? <==> old(sqn) < MAX_SQN
      ensures r.Ok? ==> sqn == old(sqn) + 1 && issued == old(issued) + [sqn]
      ensures r.Ok? ==> IsVector(r.value, e, opc, rand, sqn, [0x80, 0x00])
      ensures r.Err? ==> sqn == old(sqn) && issued == old(issued)
    {
      var next := IncrementSqn();
      if next.Err? {
        return Err(next.error);
      }
      var v := RunMilenage(e, opc, rand, next.value, DEFAULT_AMF);
      return Ok(v);
    }
  }

  /** Two vectors of one counter, even under the same RAND, have different AUTNs unless a multiple of 2^48 numbers lies
      between them. */
  lemma VectorsNeverShareAutn(e: Cipher, opc: Block, rand: Block, amf: Bytes, issued: seq<nat>, i: nat, j: nat)
    requires |amf| == 2 && Consecutive(issued) && i < j < |issued|
    ensures Autn(e, opc, rand, issued[i], amf) == Autn(e, opc, rand, issued[j], amf)
            <==> (j - i) % SQN_RANGE == 0
  {
    var a, b := issued[i], issued[j];
    AutnsCollideModulo(e, opc, rand, a, b, amf);
    ModDifference(a, b);
  }

  lemma ModDifference(a: nat, b: nat)
    requires a <= b
    ensures a % 0x1_0000_0000_0000 == b % 0x1_0000_0000_0000 <==> (b - a) % 0x1_0000_0000_0000 == 0
  {}
}
