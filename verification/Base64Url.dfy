/** Base64 in the URL-safe alphabet of section 5 of RFC 4648, padded as Go's encoder does and stripped as the SDK does. */
module Base64Url {
  import opened Basics

  type Byte = n: nat | n < 256

  type Sextet = n: nat | n < 64

  function Char(i: Sextet): (c: char)
    ensures c != '=' && c != '.' && c != '\n' && c != '\r'
  {
    if i < 26 then 'A' + i as char
    else if i < 52 then 'a' + (i - 26) as char
    else if i < 62 then '0' + (i - 52) as char
    else if i == 62 then '-'
    else '_'
  }

  function SextetOf(c: char): Option<Sextet> {
    if 'A' <= c <= 'Z' then Some((c - 'A') as int)
    else if 'a' <= c <= 'z' then Some((c - 'a') as int + 26)
    else if '0' <= c <= '9' then Some((c - '0') as int + 52)
    else if c == '-' then Some(62)
    else if c == '_' then Some(63)
    else None
  }

  lemma SextetOfChar(i: Sextet)
    ensures SextetOf(Char(i)) == Some(i)
  {}

  /** The URL-safe alphabet of section 5 of RFC 4648, in its order: A to Z, a to z, 0 to 9, minus, underline. */
  lemma AlphabetInOrder(i: Sextet)
    ensures Char(0) == 'A' && Char(26) == 'a' && Char(52) == '0' && Char(62) == '-' && Char(63) == '_'
    ensures i !in {0, 26, 52, 62, 63} ==> Char(i) == Char(i - 1) + 1 as char
  {}

  /** Each character stands for its place in the alphabet, and no other character for any. */
  lemma StandsForItsPlace(c: char, i: Sextet)
    ensures SextetOf(c) == Some(i) <==> c == Char(i)
  {}

  /** URLEncoding.EncodeToString */
  function Encode(b: seq<Byte>): string {
    if |b| == 0 then ""
    else if |b| == 1 then [Char(b[0] / 4), Char(b[0] % 4 * 16), '=', '=']
    else if |b| == 2 then [Char(b[0] / 4), Char(b[0] % 4 * 16 + b[1] / 16), Char(b[1] % 16 * 4), '=']
    else Quad(b[0], b[1], b[2]) + Encode(b[3..])
  }

  function Quad(x: Byte, y: Byte, z: Byte): (q: string)
    ensures |q| == 4 && UrlSafe(q)
  {
    [Char(x / 4), Char(x % 4 * 16 + y / 16), Char(y % 16 * 4 + z / 64), Char(z % 64)]
  }

  predicate UrlSafe(s: string) {
    forall c :: c in s ==> c != '=' && c != '.' && c != '\n' && c != '\r'
  }

  /** Go's decoder skips line breaks wherever they stand. */
  function WithoutLineBreaks(s: string): string {
    if s == "" then ""
    else if s[0] == '\n' || s[0] == '\r' then WithoutLineBreaks(s[1..])
    else [s[0]] + WithoutLineBreaks(s[1..])
  }

  /** Four characters, the last one or two of which may be padding. */
  function DecodeQuantum(p: char, q: char, r: char, s: char): Result<seq<Byte>, string> {
    var a, b, c, d := SextetOf(p), SextetOf(q), SextetOf(r), SextetOf(s);
    if a.None? || b.None? then Err("illegal base64 data")
    else if r == '=' && s == '=' then Ok([a.value * 4 + b.value / 16])
    else if c.None? then Err("illegal base64 data")
    else if s == '=' then Ok([a.value * 4 + b.value / 16, b.value % 16 * 16 + c.value / 4])
    else if d.None? then Err("illegal base64 data")
    else Ok([a.value * 4 + b.value / 16, b.value % 16 * 16 + c.value / 4, c.value % 4 * 64 + d.value])
  }

  /** Nothing may follow padding. */
  function DecodeQuads(s: string): Result<seq<Byte>, string> {
    if |s| == 0 then Ok([])
    else if |s| < 4 then Err("illegal base64 data")
    else
      var first := DecodeQuantum(s[0], s[1], s[2], s[3]);
      if first.Err? || (s[3] == '=' && |s| == 4) then first
      else if s[3] == '=' then Err("illegal base64 data")
      else
        var rest := DecodeQuads(s[4..]);
        if rest.Err? then rest else Ok(first.value + rest.value)
  }

  /** URLEncoding.DecodeString */
  function DecodeString(s: string): Result<seq<Byte>, string> {
    DecodeQuads(WithoutLineBreaks(s))
  }

  /** strings.TrimRight(s, "=") */
  function TrimRight(s: string): string {
    if s != "" && s[|s|-1] == '=' then TrimRight(s[..|s|-1]) else s
  }

  function EncodeUnpadded(b: seq<Byte>): string {
    TrimRight(Encode(b))
  }

  function Padding(n: nat): string {
    seq((4 - n % 4) % 4, _ => '=')
  }

  lemma PadOne(s: string)
    requires |s| % 4 != 0
    ensures (s + "=") + Padding(|s + "="|) == s + Padding(|s|)
  {
    assert Padding(|s|) == "=" + Padding(|s + "="|);
  }

  lemma PadNone(s: string)
    requires |s| % 4 == 0
    ensures s + Padding(|s|) == s
  {}

  lemma PadSame(m: nat, n: nat)
    requires m % 4 == n % 4
    ensures Padding(m) == Padding(n)
  {}

  /** The SDK's decoder pads to a multiple of four first. */
  method DecodeUnpadded(data: string) returns (r: Result<seq<Byte>, string>)
    ensures r == DecodePadded(data)
  {
    var padded := data;
    while |padded| % 4 != 0
      invariant padded + Padding(|padded|) == data + Padding(|data|)
      decreases (4 - |padded| % 4) % 4
    {
      PadOne(padded);
      padded := padded + "=";
    }
    PadNone(padded);
    r := DecodeString(padded);
  }

  function DecodePadded(data: string): Result<seq<Byte>, string> {
    DecodeString(data + Padding(|data|))
  }

  // ---- Round trip -----------------------------------------------------------------------------------

  lemma Joins(x: Byte, y: Byte, z: Byte)
    ensures x / 4 * 4 + (x % 4 * 16 + y / 16) / 16 == x
    ensures (x % 4 * 16 + y / 16) % 16 * 16 + (y % 16 * 4 + z / 64) / 4 == y
    ensures (y % 16 * 4 + z / 64) % 4 * 64 + z % 64 == z
  {}

  lemma ThreeDecode(x: Byte, y: Byte, z: Byte)
    ensures DecodeQuantum(Char(x / 4), Char(x % 4 * 16 + y / 16), Char(y % 16 * 4 + z / 64), Char(z % 64)) == Ok([x, y, z])
  {
    SextetOfChar(x / 4);
    SextetOfChar(x % 4 * 16 + y / 16);
    SextetOfChar(y % 16 * 4 + z / 64);
    SextetOfChar(z % 64);
    Joins(x, y, z);
  }

  lemma OneDecodes(x: Byte)
    ensures DecodeQuantum(Char(x / 4), Char(x % 4 * 16), '=', '=') == Ok([x])
  {
    Joins(x, 0, 0);
    SextetOfChar(x / 4);
    SextetOfChar(x % 4 * 16);
  }

  lemma TwoDecode(x: Byte, y: Byte)
    ensures DecodeQuantum(Char(x / 4), Char(x % 4 * 16 + y / 16), Char(y % 16 * 4), '=') == Ok([x, y])
  {
    Joins(x, y, 0);
    SextetOfChar(x / 4);
    SextetOfChar(x % 4 * 16 + y / 16);
    SextetOfChar(y % 16 * 4);
  }

  lemma EncodeThree(t: seq<Byte>)
    requires |t| == 3
    ensures Encode(t) == Quad(t[0], t[1], t[2])
  {
    assert |t[3..]| == 0;
  }

  /** Groups of three bytes are encoded one after another. */
  lemma EncodeByGroups(b: seq<Byte>)
    requires |b| >= 3
    ensures Encode(b) == Encode(b[..3]) + Encode(b[3..])
  {
    EncodeThree(b[..3]);
  }

  /** The four characters of a group spell the same 24-bit number as its three bytes. */
  lemma QuantumSpells(t: seq<Byte>) returns (a: Sextet, b: Sextet, c: Sextet, d: Sextet)
    requires |t| == 3
    ensures Encode(t) == [Char(a), Char(b), Char(c), Char(d)]
    ensures (t[0] as int * 256 + t[1]) * 256 + t[2] == ((a as int * 64 + b) * 64 + c) * 64 + d
  {
    EncodeThree(t);
    a, b, c, d := t[0] / 4, t[0] % 4 * 16 + t[1] / 16, t[1] % 16 * 4 + t[2] / 64, t[2] % 64;
  }

  /** The characters of a shorter last group spell its bytes, followed by zero bits. */
  lemma LastTwoSpell(t: seq<Byte>) returns (a: Sextet, b: Sextet, c: Sextet)
    requires |t| == 2
    ensures Encode(t) == [Char(a), Char(b), Char(c), '=']
    ensures (t[0] as int * 256 + t[1]) * 4 == (a as int * 64 + b) * 64 + c
  {
    a, b, c := t[0] / 4, t[0] % 4 * 16 + t[1] / 16, t[1] % 16 * 4;
  }

  lemma LastOneSpells(t: seq<Byte>) returns (a: Sextet, b: Sextet)
    requires |t| == 1
    ensures Encode(t) == [Char(a), Char(b), '=', '='] && t[0] as int * 16 == a as int * 64 + b
  {
    a, b := t[0] / 4, t[0] % 4 * 16;
  }

  lemma QuadThenRest(quad: string, rest: string)
    requires |quad| == 4 && quad[3] != '='
    requires DecodeQuantum(quad[0], quad[1], quad[2], quad[3]).Ok? && DecodeQuads(rest).Ok?
    ensures DecodeQuads(quad + rest)
            == Ok(DecodeQuantum(quad[0], quad[1], quad[2], quad[3]).value + DecodeQuads(rest).value)
  {
    assert (quad + rest)[4..] == rest;
  }

  lemma QuantumAlone(s: string)
    requires |s| == 4 && s[3] == '='
    ensures DecodeQuads(s) == DecodeQuantum(s[0], s[1], s[2], s[3])
  {}

  lemma DecodeEncodeShort(b: seq<Byte>)
    requires 1 <= |b| <= 2
    ensures DecodeQuads(Encode(b)) == Ok(b)
  {
    QuantumAlone(Encode(b));
    if |b| == 1 {
      OneDecodes(b[0]);
      assert b == [b[0]];
    } else {
      TwoDecode(b[0], b[1]);
      assert b == [b[0], b[1]];
    }
  }

  lemma {:induction false} DecodeEncode(b: seq<Byte>)
    ensures DecodeQuads(Encode(b)) == Ok(b)
  {
    if 1 <= |b| <= 2 {
      DecodeEncodeShort(b);
    } else if |b| > 2 {
      DecodeEncode(b[3..]);
      ThreeDecode(b[0], b[1], b[2]);
      QuadThenRest(Quad(b[0], b[1], b[2]), Encode(b[3..]));
      assert b == [b[0], b[1], b[2]] + b[3..];
    }
  }

  lemma {:induction false} TrimNothing(s: string)
    requires UrlSafe(s)
    ensures TrimRight(s) == s
  {
    if s != "" { assert s[|s|-1] in s; }
  }

  lemma {:induction false} TrimAppended(s: string, pad: string)
    requires UrlSafe(s) && forall i :: 0 <= i < |pad| ==> pad[i] == '='
    ensures TrimRight(s + pad) == s
  {
    var t := s + pad;
    if pad == "" {
      assert t == s;
      TrimNothing(s);
    } else {
      assert t[..|t|-1] == s + pad[..|pad|-1];
      TrimAppended(s, pad[..|pad|-1]);
    }
  }

  /** The encoding without padding, as section 3.2 of RFC 4648 allows it. */
  function EncodeRaw(b: seq<Byte>): (s: string)
    ensures UrlSafe(s)
  {
    if |b| == 0 then ""
    else if |b| == 1 then [Char(b[0] / 4), Char(b[0] % 4 * 16)]
    else if |b| == 2 then [Char(b[0] / 4), Char(b[0] % 4 * 16 + b[1] / 16), Char(b[1] % 16 * 4)]
    else Quad(b[0], b[1], b[2]) + EncodeRaw(b[3..])
  }

  lemma ShortIsPadded(b: seq<Byte>)
    requires |b| <= 2
    ensures Encode(b) == EncodeRaw(b) + Padding(|EncodeRaw(b)|)
  {}

  lemma QuadPadded(quad: string, rest: string)
    requires |quad| == 4
    ensures quad + (rest + Padding(|rest|)) == (quad + rest) + Padding(|quad + rest|)
  {
    PadSame(|quad + rest|, |rest|);
  }

  /** The padded encoding is the unpadded one and just the padding that its length calls for. */
  lemma {:induction false} PaddedIsRawAndPadding(b: seq<Byte>)
    ensures Encode(b) == EncodeRaw(b) + Padding(|EncodeRaw(b)|)
  {
    if |b| > 2 {
      PaddedIsRawAndPadding(b[3..]);
      QuadPadded(Quad(b[0], b[1], b[2]), EncodeRaw(b[3..]));
    } else {
      ShortIsPadded(b);
    }
  }

  lemma {:induction false} NoLineBreaks(s: string)
    requires forall c :: c in s ==> c != '\n' && c != '\r'
    ensures WithoutLineBreaks(s) == s
  {
    if s != "" {
      assert s[0] in s && forall c :: c in s[1..] ==> c in s;
      NoLineBreaks(s[1..]);
      assert s == [s[0]] + s[1..];
    }
  }

  lemma PaddedHasNoLineBreaks(raw: string)
    requires UrlSafe(raw)
    ensures WithoutLineBreaks(raw + Padding(|raw|)) == raw + Padding(|raw|)
  {
    var padded := raw + Padding(|raw|);
    forall c | c in padded ensures c != '\n' && c != '\r' {
      assert c in raw || c in Padding(|raw|);
    }
    NoLineBreaks(padded);
  }

  /** Stripping the padding and putting it back loses nothing, for every byte string; and what is in between is the
      unpadded encoding, with neither padding nor a dot. */
  lemma {:induction false} UnpaddedRoundTrip(b: seq<Byte>)
    ensures DecodePadded(EncodeUnpadded(b)) == Ok(b)
    ensures EncodeUnpadded(b) == EncodeRaw(b) && UrlSafe(EncodeUnpadded(b))
  {
    var raw := EncodeRaw(b);
    PaddedIsRawAndPadding(b);
    TrimAppended(raw, Padding(|raw|));
    PaddedHasNoLineBreaks(raw);
    DecodeEncode(b);
  }

  // ---- What is accepted -------------------------------------------------------------------------------

  predicate InAlphabet(c: char) {
    exists i: Sextet :: c == Char(i)
  }

  lemma InAlphabetIff(c: char)
    ensures InAlphabet(c) <==> SextetOf(c).Some?
  {
    if SextetOf(c).Some? {
      StandsForItsPlace(c, SextetOf(c).value);
    }
    forall i: Sextet | c == Char(i) ensures SextetOf(c).Some? {
      StandsForItsPlace(c, i);
    }
  }

  /** Two last characters of the alphabet, or one and a padding, or two paddings. */
  predicate GoodEnd(c: char, d: char) {
    (InAlphabet(c) && (InAlphabet(d) || d == '=')) || (c == '=' && d == '=')
  }

  lemma QuantumAccepts(p: char, q: char, r: char, s: char)
    ensures DecodeQuantum(p, q, r, s).Ok? <==> InAlphabet(p) && InAlphabet(q) && GoodEnd(r, s)
    ensures InAlphabet(s) ==> s != '='
  {
    InAlphabetIff(p);
    InAlphabetIff(q);
    InAlphabetIff(r);
    InAlphabetIff(s);
  }

  predicate AllInAlphabet(s: string) {
    forall i :: 0 <= i < |s| ==> InAlphabet(s[i])
  }

  lemma AllInAlphabetSplits(a: string, b: string)
    ensures AllInAlphabet(a + b) <==> AllInAlphabet(a) && AllInAlphabet(b)
  {
    if AllInAlphabet(a + b) {
      assert forall i :: 0 <= i < |a| ==> (a + b)[i] == a[i];
      assert forall i :: 0 <= i < |b| ==> (a + b)[|a| + i] == b[i];
    }
  }

  lemma OneQuantum(s: string)
    requires |s| == 4
    ensures DecodeQuads(s).Ok? <==> DecodeQuantum(s[0], s[1], s[2], s[3]).Ok?
  {
    assert |s[4..]| == 0;
  }

  lemma MoreQuanta(s: string)
    requires |s| > 4
    ensures DecodeQuads(s).Ok? <==> DecodeQuantum(s[0], s[1], s[2], s[3]).Ok? && s[3] != '=' && DecodeQuads(s[4..]).Ok?
  {}

  predicate WellFormed(s: string) {
    |s| % 4 == 0 && (|s| == 0 || (AllInAlphabet(s[..|s|-2]) && GoodEnd(s[|s|-2], s[|s|-1])))
  }

  /** A text decodes exactly if it is empty, or a whole number of groups of four whose characters are the alphabet's up to
      the last two, which may be padding. */
  lemma {:induction false} DecodesExactly(s: string)
    ensures DecodeQuads(s).Ok? <==> WellFormed(s)
  {
    if |s| == 4 {
      OneQuantum(s);
      QuantumAccepts(s[0], s[1], s[2], s[3]);
      TwoInAlphabet(s[..2]);
    } else if |s| > 4 {
      MoreQuanta(s);
      QuantumAccepts(s[0], s[1], s[2], s[3]);
      DecodesExactly(s[4..]);
      WellFormedByGroups(s);
    }
  }

  lemma WellFormedByGroups(s: string)
    requires |s| > 4
    ensures WellFormed(s) <==>
            InAlphabet(s[0]) && InAlphabet(s[1]) && InAlphabet(s[2]) && InAlphabet(s[3]) && WellFormed(s[4..])
  {
    var rest := s[4..];
    assert |s| % 4 == 0 <==> |rest| % 4 == 0;
    if |s| >= 8 {
      LongerInAlphabet(s);
      assert rest[..|rest|-2] == s[4..][..|s|-6];
      assert rest[|rest|-2] == s[|s|-2] && rest[|rest|-1] == s[|s|-1];
    }
  }

  lemma TwoInAlphabet(s: string)
    requires |s| == 2
    ensures AllInAlphabet(s) <==> InAlphabet(s[0]) && InAlphabet(s[1])
  {}

  lemma LongerInAlphabet(s: string)
    requires |s| >= 8
    ensures AllInAlphabet(s[..|s|-2]) <==>
            InAlphabet(s[0]) && InAlphabet(s[1]) && InAlphabet(s[2]) && InAlphabet(s[3]) && AllInAlphabet(s[4..][..|s|-6])
  {
    assert s[..|s|-2] == s[..2] + s[2..4] + s[4..][..|s|-6];
    AllInAlphabetSplits(s[..2] + s[2..4], s[4..][..|s|-6]);
    AllInAlphabetSplits(s[..2], s[2..4]);
    TwoInAlphabet(s[..2]);
    TwoInAlphabet(s[2..4]);
  }
}
