/** IPv4 addresses as 32-bit numbers and as dotted quads, as Rust's Ipv4Addr prints and parses them. */
module DottedQuad {
  import opened Basics

  type Octet = n: nat | n < 256

  type U32 = n: nat | n < 0x1_0000_0000

  function Digit(n: nat): (c: char)
    requires n < 10
    ensures '0' <= c <= '9' && (c - '0') as int == n
  {
    '0' + n as char
  }

  function PrintOctet(n: Octet): (s: string)
    ensures '.' !in s
  {
    if n < 10 then [Digit(n)]
    else if n < 100 then [Digit(n / 10), Digit(n % 10)]
    else [Digit(n / 100), Digit(n / 10 % 10), Digit(n % 10)]
  }

  predicate IsDigit(c: char) {
    '0' <= c <= '9'
  }

  function DigitValue(c: char): nat
    requires IsDigit(c)
  {
    (c - '0') as int
  }

  function DecimalValue(s: string): nat
    requires forall c :: c in s ==> IsDigit(c)
  {
    if s == "" then 0 else DecimalValue(s[..|s|-1]) * 10 + DigitValue(s[|s|-1])
  }

  /** One to three digits, no leading zero, at most 255. */
  function ParseOctet(s: string): Option<Octet> {
    if !(1 <= |s| <= 3) || exists c :: c in s && !IsDigit(c) then None
    else if |s| > 1 && s[0] == '0' then None
    else if DecimalValue(s) > 255 then None
    else Some(DecimalValue(s))
  }

  /** u32_to_ipv4_string */
  function Print(ip: U32): string {
    Join([PrintOctet(ip / 256 / 256 / 256), PrintOctet(ip / 256 / 256 % 256), PrintOctet(ip / 256 % 256), PrintOctet(ip % 256)], '.')
  }

  /** ipv4_string_to_u32 */
  function Parse(s: string): Option<U32> {
    var parts := Split(s, '.');
    if |parts| != 4 then None
    else
      var a, b, c, d := ParseOctet(parts[0]), ParseOctet(parts[1]), ParseOctet(parts[2]), ParseOctet(parts[3]);
      if a.None? || b.None? || c.None? || d.None? then None
      else Some(((a.value * 256 + b.value) * 256 + c.value) * 256 + d.value)
  }

  lemma DecimalOf(s: string)
    requires 1 <= |s| <= 3 && forall c :: c in s ==> IsDigit(c)
    ensures |s| == 1 ==> DecimalValue(s) == DigitValue(s[0])
    ensures |s| == 2 ==> DecimalValue(s) == DigitValue(s[0]) * 10 + DigitValue(s[1])
    ensures |s| == 3 ==> DecimalValue(s) == DigitValue(s[0]) * 100 + DigitValue(s[1]) * 10 + DigitValue(s[2])
  {
    var init := s[..|s|-1];
    assert forall c :: c in init ==> c in s;
    if |s| == 1 {
      assert init == "";
    } else {
      var init2 := init[..|init|-1];
      assert forall c :: c in init2 ==> c in init;
      if |s| == 2 {
        assert init2 == "";
      } else {
        assert init2[..0] == "";
      }
    }
  }

  lemma PrintedDigits(n: Octet)
    ensures var s := PrintOctet(n);
            && 1 <= |s| <= 3 && (forall c :: c in s ==> IsDigit(c))
            && (|s| > 1 ==> s[0] != '0')
  {}

  lemma PrintedValue(n: Octet)
    requires forall c :: c in PrintOctet(n) ==> IsDigit(c)
    ensures DecimalValue(PrintOctet(n)) == n
  {
    DecimalOf(PrintOctet(n));
    DigitsOf(n);
  }

  lemma DigitsOf(n: Octet)
    ensures n == n / 10 * 10 + n % 10 && n == n / 100 * 100 + n / 10 % 10 * 10 + n % 10
  {}

  lemma ParsePrintOctet(n: Octet)
    ensures ParseOctet(PrintOctet(n)) == Some(n)
  {
    PrintedDigits(n);
    PrintedValue(n);
  }

  lemma TwoDigits(a: nat, b: nat)
    requires 1 <= a < 10 && b < 10
    ensures PrintOctet(a * 10 + b) == [Digit(a), Digit(b)]
  {}

  lemma ThreeDigits(a: nat, b: nat, c: nat)
    requires 1 <= a < 10 && b < 10 && c < 10 && a * 100 + b * 10 + c < 256
    ensures PrintOctet(a * 100 + b * 10 + c) == [Digit(a), Digit(b), Digit(c)]
  {
    var n := a * 100 + b * 10 + c;
    assert n / 100 == a && n / 10 == a * 10 + b && n % 10 == c;
    assert (a * 10 + b) % 10 == b;
  }

  lemma DigitOfValue(c: char)
    requires IsDigit(c)
    ensures DigitValue(c) < 10 && Digit(DigitValue(c)) == c
    ensures DigitValue(c) == 0 <==> c == '0'
  {}

  lemma PrintParseOctet(s: string)
    requires ParseOctet(s).Some?
    ensures PrintOctet(ParseOctet(s).value) == s
  {
    DecimalOf(s);
    assert s[0] in s;
    DigitOfValue(s[0]);
    if |s| == 1 {
      assert s == [s[0]];
    } else {
      assert s[1] in s;
      DigitOfValue(s[1]);
      if |s| == 2 {
        TwoDigits(DigitValue(s[0]), DigitValue(s[1]));
        assert s == [s[0], s[1]];
      } else {
        assert s[2] in s;
        DigitOfValue(s[2]);
        ThreeDigits(DigitValue(s[0]), DigitValue(s[1]), DigitValue(s[2]));
        assert s == [s[0], s[1], s[2]];
      }
    }
  }

  /** Parsing what was printed gives the number back, for every 32-bit number. */
  lemma ParsePrint(ip: U32)
    ensures Parse(Print(ip)) == Some(ip)
  {
    var a, b, c, d := ip / 256 / 256 / 256, ip / 256 / 256 % 256, ip / 256 % 256, ip % 256;
    SplitJoin([PrintOctet(a), PrintOctet(b), PrintOctet(c), PrintOctet(d)], '.');
    ParsePrintOctet(a);
    ParsePrintOctet(b);
    ParsePrintOctet(c);
    ParsePrintOctet(d);
  }

  lemma Shift(q: nat, r: Octet)
    ensures (q * 256 + r) / 256 == q && (q * 256 + r) % 256 == r
  {}

  lemma PrintOf(a: Octet, b: Octet, c: Octet, d: Octet)
    ensures Print(((a * 256 + b) * 256 + c) * 256 + d) == Join([PrintOctet(a), PrintOctet(b), PrintOctet(c), PrintOctet(d)], '.')
  {
    Shift((a * 256 + b) * 256 + c, d);
    Shift(a * 256 + b, c);
    Shift(a, b);
  }

  /** Printing what was parsed gives the text back, for every accepted text: no address has two spellings. */
  lemma PrintParse(s: string)
    requires Parse(s).Some?
    ensures Print(Parse(s).value) == s
  {
    var parts := Split(s, '.');
    PrintParseOctet(parts[0]);
    PrintParseOctet(parts[1]);
    PrintParseOctet(parts[2]);
    PrintParseOctet(parts[3]);
    PrintOf(ParseOctet(parts[0]).value, ParseOctet(parts[1]).value, ParseOctet(parts[2]).value, ParseOctet(parts[3]).value);
    assert parts == [parts[0], parts[1], parts[2], parts[3]];
    JoinSplit(s, '.');
  }

  /** What is printed: four decimal numbers without leading zeros, which spell the address, most significant first. */
  lemma PrintSpells(ip: U32)
    ensures var parts := Split(Print(ip), '.');
            && |parts| == 4
            && (forall i :: 0 <= i < 4 ==> (1 <= |parts[i]| <= 3 && forall c :: c in parts[i] ==> IsDigit(c)))
            && (forall i :: 0 <= i < 4 ==> (|parts[i]| > 1 ==> parts[i][0] != '0') && DecimalValue(parts[i]) < 256)
            && ip == DecimalValue(parts[0]) * 0x100_0000 + DecimalValue(parts[1]) * 0x1_0000
                     + DecimalValue(parts[2]) * 0x100 + DecimalValue(parts[3])
  {
    var a, b, c, d := ip / 256 / 256 / 256, ip / 256 / 256 % 256, ip / 256 % 256, ip % 256;
    var parts := [PrintOctet(a), PrintOctet(b), PrintOctet(c), PrintOctet(d)];
    SplitJoin(parts, '.');
    PrintedOctet(a);
    PrintedOctet(b);
    PrintedOctet(c);
    PrintedOctet(d);
  }

  lemma PrintedOctet(n: Octet)
    ensures var s := PrintOctet(n);
            && 1 <= |s| <= 3 && (forall c :: c in s ==> IsDigit(c))
            && (|s| > 1 ==> s[0] != '0') && DecimalValue(s) == n
  {
    PrintedDigits(n);
    PrintedValue(n);
  }

  /** A text is accepted exactly if some address is printed so. */
  lemma ParsesExactlyPrinted(s: string)
    ensures Parse(s).Some? <==> exists ip: U32 :: Print(ip) == s
  {
    if Parse(s).Some? {
      PrintParse(s);
    }
    forall ip: U32 | Print(ip) == s ensures Parse(s).Some? {
      ParsePrint(ip);
    }
  }
}
