/** Channel addresses: their order, their equality and their printed form. */
module Addresses {
  import opened Wrappers

  type U32 = x: int | 0 <= x < 0x1_0000_0000
  type U16 = x: int | 0 <= x < 0x1_0000

  /** `ip` and `port` hold network byte order, as a little-endian host reads them. */
  datatype Address = Address(ip: U32, port: U16)

  // ---------- Order ----------

  predicate Less(a: Address, b: Address) {
    a.ip < b.ip || (a.ip == b.ip && a.port < b.port)
  }

  /** The order the channel table relies on is strict and total, and agrees with equality. */
  lemma LessIsStrictTotal(a: Address, b: Address, c: Address)
    ensures !Less(a, a)
    ensures Less(a, b) && Less(b, c) ==> Less(a, c)
    ensures Less(a, b) ==> !Less(b, a)
    ensures a == b <==> !Less(a, b) && !Less(b, a)
  {
  }

  /** It is the order of the numbers made of ip and port. */
  lemma LessIsNumeric(a: Address, b: Address)
    ensures Less(a, b) <==> a.ip * 0x1_0000 + a.port < b.ip * 0x1_0000 + b.port
  {
    if a.ip < b.ip {
      assert (a.ip + 1) * 0x1_0000 <= b.ip * 0x1_0000;
    }
  }

  // ---------- Printing ----------

  function Ntohl(x: U32): U32 {
    x % 0x100 * 0x100_0000 + x / 0x100 % 0x100 * 0x1_0000 + x / 0x1_0000 % 0x100 * 0x100 + x / 0x100_0000
  }

  function Ntohs(x: U16): U16 {
    x % 0x100 * 0x100 + x / 0x100
  }

  function Digit(d: nat): char
    requires d < 10
  {
    '0' + d as char
  }

  function Decimal(n: nat): (s: string)
    ensures s != []
  {
    if n < 10 then [Digit(n)] else Decimal(n / 10) + [Digit(n % 10)]
  }

  function DottedQuad(o1: nat, o2: nat, o3: nat, o4: nat, port: nat): string {
    Decimal(o1) + "." + (Decimal(o2) + "." + (Decimal(o3) + "." + (Decimal(o4) + ":" + Decimal(port))))
  }

  /** The formatted text, before the buffer limit. */
  function Text(a: Address): string {
    var hip := Ntohl(a.ip);
    DottedQuad(hip / 0x100_0000 % 0x100, hip / 0x1_0000 % 0x100, hip / 0x100 % 0x100, hip % 0x100, Ntohs(a.port))
  }

  const BufferSize := 32

  /** What the 32-byte static buffer holds: at most 31 characters. */
  function CStr(a: Address): string {
    if |Text(a)| < BufferSize then Text(a) else Text(a)[..BufferSize - 1]
  }

  // ---------- Reading back ----------

  predicate IsDigit(c: char) { '0' <= c <= '9' }

  /** Reads leading digits onto an accumulator; the value and what follows. */
  function ReadNat(s: string, acc: nat): (nat, string)
    decreases |s|
  {
    if s == [] || !IsDigit(s[0]) then (acc, s)
    else ReadNat(s[1..], acc * 10 + (s[0] - '0') as nat)
  }

  /** A field below `limit` and the text after its separator. */
  function ReadField(s: string, separator: char, limit: nat): Option<(nat, string)> {
    var (n, rest) := ReadNat(s, 0);
    if n >= limit || rest == [] || rest[0] != separator then None else Some((n, rest[1..]))
  }

  function Parse(s: string): Option<Address> {
    var f1 := ReadField(s, '.', 0x100);
    if f1.None? then None else
    var f2 := ReadField(f1.value.1, '.', 0x100);
    if f2.None? then None else
    var f3 := ReadField(f2.value.1, '.', 0x100);
    if f3.None? then None else
    var f4 := ReadField(f3.value.1, ':', 0x100);
    if f4.None? then None else
    var (port, rest) := ReadNat(f4.value.1, 0);
    if port >= 0x1_0000 || rest != [] then None
    else Some(Address(Ntohl(f1.value.0 * 0x100_0000 + f2.value.0 * 0x1_0000 + f3.value.0 * 0x100 + f4.value.0),
      Ntohs(port)))
  }

  lemma {:induction false} ReadDecimal(n: nat, rest: string)
    ensures ReadNat(Decimal(n) + rest, 0) == ReadNat(rest, n)
    decreases n
  {
    if n < 10 {
      assert (Decimal(n) + rest)[1..] == rest;
    } else {
      var tail := [Digit(n % 10)] + rest;
      assert Decimal(n) + rest == Decimal(n / 10) + tail;
      ReadDecimal(n / 10, tail);
      assert tail[1..] == rest;
    }
  }

  lemma ReadPrinted(n: nat, separator: char, limit: nat, rest: string)
    requires n < limit && !IsDigit(separator)
    ensures ReadField(Decimal(n) + [separator] + rest, separator, limit) == Some((n, rest))
  {
    var tail := [separator] + rest;
    assert Decimal(n) + [separator] + rest == Decimal(n) + tail;
    ReadDecimal(n, tail);
    assert tail[1..] == rest;
  }

  lemma SwapTwice32(x: U32)
    ensures Ntohl(Ntohl(x)) == x
  {
    var a, b, c, d := x % 0x100, x / 0x100 % 0x100, x / 0x1_0000 % 0x100, x / 0x100_0000;
    assert x == d * 0x100_0000 + c * 0x1_0000 + b * 0x100 + a;
    Octets(a, b, c, d);
  }

  lemma LowOctet(q: nat, r: nat)
    requires r < 0x100
    ensures (q * 0x100 + r) / 0x100 == q && (q * 0x100 + r) % 0x100 == r
  {
  }

  lemma Shifts(y: nat)
    ensures y / 0x1_0000 == y / 0x100 / 0x100 && y / 0x100_0000 == y / 0x100 / 0x100 / 0x100
  {
  }

  lemma Octets(a: nat, b: nat, c: nat, d: nat)
    requires a < 0x100 && b < 0x100 && c < 0x100 && d < 0x100
    ensures var y: U32 := a * 0x100_0000 + b * 0x1_0000 + c * 0x100 + d;
            y / 0x100_0000 == a && y / 0x1_0000 % 0x100 == b && y / 0x100 % 0x100 == c && y % 0x100 == d
  {
    var y2 := a * 0x100 + b;
    var y1 := y2 * 0x100 + c;
    LowOctet(a, b);
    LowOctet(y2, c);
    LowOctet(y1, d);
    Shifts(y1 * 0x100 + d);
  }

  lemma SwapTwice16(x: U16)
    ensures Ntohs(Ntohs(x)) == x
  {
    LowOctet(x % 0x100, x / 0x100);
    assert x == x / 0x100 * 0x100 + x % 0x100;
  }

  function Pow10(k: nat): nat {
    if k == 0 then 1 else 10 * Pow10(k - 1)
  }

  lemma {:induction false} DecimalLength(n: nat, digits: nat)
    requires digits > 0 && n < Pow10(digits)
    ensures |Decimal(n)| <= digits
    decreases digits
  {
    if n >= 10 {
      assert digits > 1 by { assert Pow10(1) == 10 * Pow10(0); }
      DecimalLength(n / 10, digits - 1);
    }
  }

  /** The longest text is 255.255.255.255:65535, so the buffer never truncates. */
  lemma NeverTruncated(a: Address)
    ensures |Text(a)| <= 21 && CStr(a) == Text(a)
  {
    var hip := Ntohl(a.ip);
    assert Pow10(1) == 10 && Pow10(2) == 100 && Pow10(3) == 1000 && Pow10(4) == 10000 && Pow10(5) == 100000;
    DecimalLength(hip / 0x100_0000 % 0x100, 3);
    DecimalLength(hip / 0x1_0000 % 0x100, 3);
    DecimalLength(hip / 0x100 % 0x100, 3);
    DecimalLength(hip % 0x100, 3);
    DecimalLength(Ntohs(a.port), 5);
  }

  // ---------- What is printed ----------

  /** The number a string of digits stands for. */
  function Value(s: string): int {
    if s == [] then 0 else 10 * Value(s[..|s| - 1]) + (s[|s| - 1] as int - '0' as int)
  }

  /** Decimal text: digits only, no leading zero but for zero itself, standing for the number. */
  ghost predicate IsDecimal(s: string, n: nat) {
    && s != [] && Value(s) == n
    && (forall i :: 0 <= i < |s| ==> '0' <= s[i] <= '9')
    && (s[0] == '0' ==> |s| == 1)
  }

  lemma {:induction false} DecimalIs(n: nat)
    ensures IsDecimal(Decimal(n), n)
    ensures n > 0 ==> Decimal(n)[0] != '0'
    decreases n
  {
    if n < 10 {
      assert [Digit(n)][..0] == [];
    } else {
      DecimalIs(n / 10);
      var front := Decimal(n / 10);
      assert Decimal(n)[..|front|] == front;
    }
  }

  lemma {:induction false} SwappedOctets(b1: nat, b2: nat, b3: nat, b4: nat)
    requires b1 < 0x100 && b2 < 0x100 && b3 < 0x100 && b4 < 0x100
    ensures Ntohl(b1 + b2 * 0x100 + b3 * 0x1_0000 + b4 * 0x100_0000)
            == b1 * 0x100_0000 + b2 * 0x1_0000 + b3 * 0x100 + b4
  {
    Octets(b4, b3, b2, b1);
  }

  lemma {:induction false} PrintsDecimals(b1: nat, b2: nat, b3: nat, b4: nat, p1: nat, p2: nat)
    requires b1 < 0x100 && b2 < 0x100 && b3 < 0x100 && b4 < 0x100 && p1 < 0x100 && p2 < 0x100
    ensures CStr(Address(b1 + b2 * 0x100 + b3 * 0x1_0000 + b4 * 0x100_0000, p1 + p2 * 0x100))
            == Decimal(b1) + "." + Decimal(b2) + "." + Decimal(b3) + "." + Decimal(b4) + ":" + Decimal(p1 * 0x100 + p2)
  {
    TextOfBytes(b1, b2, b3, b4, p1, p2, Address(b1 + b2 * 0x100 + b3 * 0x1_0000 + b4 * 0x100_0000, p1 + p2 * 0x100));
    Flat(Decimal(b1), Decimal(b2), Decimal(b3), Decimal(b4), Decimal(p1 * 0x100 + p2));
  }

  /** The bytes of an address in the order in which they lie in memory, the network's, are printed in
      decimal, with dots and a colon. */
  lemma {:induction false} PrintsBytes(b1: nat, b2: nat, b3: nat, b4: nat, p1: nat, p2: nat)
    returns (t1: string, t2: string, t3: string, t4: string, port: string)
    requires b1 < 0x100 && b2 < 0x100 && b3 < 0x100 && b4 < 0x100 && p1 < 0x100 && p2 < 0x100
    ensures IsDecimal(t1, b1) && IsDecimal(t2, b2) && IsDecimal(t3, b3) && IsDecimal(t4, b4)
    ensures IsDecimal(port, p1 * 0x100 + p2)
    ensures CStr(Address(b1 + b2 * 0x100 + b3 * 0x1_0000 + b4 * 0x100_0000, p1 + p2 * 0x100))
            == t1 + "." + t2 + "." + t3 + "." + t4 + ":" + port
  {
    t1, t2, t3, t4, port := Decimal(b1), Decimal(b2), Decimal(b3), Decimal(b4), Decimal(p1 * 0x100 + p2);
    DecimalIs(b1);
    DecimalIs(b2);
    DecimalIs(b3);
    DecimalIs(b4);
    DecimalIs(p1 * 0x100 + p2);
    PrintsDecimals(b1, b2, b3, b4, p1, p2);
  }

  lemma {:induction false} TextOf(a: Address, hip: U32, hport: U16)
    requires Ntohl(a.ip) == hip && Ntohs(a.port) == hport
    ensures Text(a)
            == DottedQuad(hip / 0x100_0000 % 0x100, hip / 0x1_0000 % 0x100, hip / 0x100 % 0x100, hip % 0x100, hport)
  {
  }

  lemma {:induction false} QuadOf(b1: nat, b2: nat, b3: nat, b4: nat, hip: U32, hport: U16)
    requires b1 < 0x100 && b2 < 0x100 && b3 < 0x100 && b4 < 0x100
    requires hip == b1 * 0x100_0000 + b2 * 0x1_0000 + b3 * 0x100 + b4
    ensures DottedQuad(hip / 0x100_0000 % 0x100, hip / 0x1_0000 % 0x100, hip / 0x100 % 0x100, hip % 0x100, hport)
            == DottedQuad(b1, b2, b3, b4, hport)
  {
    Octets(b1, b2, b3, b4);
    assert b1 % 0x100 == b1;
  }

  lemma {:induction false} TextOfBytes(b1: nat, b2: nat, b3: nat, b4: nat, p1: nat, p2: nat, a: Address)
    requires b1 < 0x100 && b2 < 0x100 && b3 < 0x100 && b4 < 0x100 && p1 < 0x100 && p2 < 0x100
    requires a.ip == b1 + b2 * 0x100 + b3 * 0x1_0000 + b4 * 0x100_0000 && a.port == p1 + p2 * 0x100
    ensures CStr(a) == DottedQuad(b1, b2, b3, b4, p1 * 0x100 + p2)
  {
    SwappedOctets(b1, b2, b3, b4);
    SwappedPort(p1, p2);
    var hip: U32, hport: U16 := b1 * 0x100_0000 + b2 * 0x1_0000 + b3 * 0x100 + b4, p1 * 0x100 + p2;
    TextOf(a, hip, hport);
    QuadOf(b1, b2, b3, b4, hip, hport);
    NeverTruncated(a);
  }

  lemma {:induction false} SwappedPort(p1: nat, p2: nat)
    requires p1 < 0x100 && p2 < 0x100
    ensures Ntohs(p1 + p2 * 0x100) == p1 * 0x100 + p2
  {
    LowOctet(p2, p1);
  }

  lemma Flat(a: string, b: string, c: string, d: string, e: string)
    ensures a + "." + (b + "." + (c + "." + (d + ":" + e))) == a + "." + b + "." + c + "." + d + ":" + e
  {
  }

  /** The decimal text of a number is unique, so these are all the texts. */
  lemma {:induction false} DecimalUnique(s: string, n: nat)
    requires IsDecimal(s, n)
    ensures s == Decimal(n)
    decreases |s|
  {
    var front, d := s[..|s| - 1], s[|s| - 1] as int - '0' as int;
    if front != [] {
      ValueNonNegative(front);
      assert s[0] == front[0];
      if Value(front) == 0 {
        LeadingZero(front);
      }
      DecimalUnique(front, Value(front));
      assert n / 10 == Value(front) && n % 10 == d;
      assert s == front + [s[|s| - 1]];
    } else {
      assert Value(front) == 0;
      assert s == [s[0]] && n == d;
    }
  }

  lemma {:induction false} ValueNonNegative(s: string)
    requires forall i :: 0 <= i < |s| ==> '0' <= s[i] <= '9'
    ensures Value(s) >= 0
  {
    if s != [] {
      ValueNonNegative(s[..|s| - 1]);
    }
  }

  lemma {:induction false} LeadingZero(s: string)
    requires s != [] && (forall i :: 0 <= i < |s| ==> '0' <= s[i] <= '9') && Value(s) == 0
    ensures s[0] == '0'
  {
    var front := s[..|s| - 1];
    ValueNonNegative(front);
    if front != [] {
      LeadingZero(front);
    }
  }

  lemma {:induction false} SomeDecimals()
    ensures Decimal(127) == "127" && Decimal(0) == "0" && Decimal(1) == "1" && Decimal(8080) == "8080"
  {
    assert Decimal(12) == Decimal(1) + "2" && Decimal(127) == Decimal(12) + "7";
    assert Decimal(80) == Decimal(8) + "0" && Decimal(808) == Decimal(80) + "8" && Decimal(8080) == Decimal(808) + "0";
  }

  /** The loopback address of the dispatcher test. */
  lemma {:induction false} Loopback()
    ensures CStr(Address(0x0100_007F, 0x901F)) == "127.0.0.1:8080"
  {
    SomeDecimals();
    TextOfBytes(127, 0, 0, 1, 0x1F, 0x90, Address(0x0100_007F, 0x901F));
    Flat("127", "0", "0", "1", "8080");
  }

  lemma ParseDottedQuad(o1: nat, o2: nat, o3: nat, o4: nat, port: nat)
    requires o1 < 0x100 && o2 < 0x100 && o3 < 0x100 && o4 < 0x100 && port < 0x1_0000
    ensures Parse(DottedQuad(o1, o2, o3, o4, port)) ==
            Some(Address(Ntohl(o1 * 0x100_0000 + o2 * 0x1_0000 + o3 * 0x100 + o4), Ntohs(port)))
  {
    var t4 := Decimal(port);
    var t3 := Decimal(o4) + ":" + t4;
    var t2 := Decimal(o3) + "." + t3;
    var t1 := Decimal(o2) + "." + t2;
    ReadPrinted(o1, '.', 0x100, t1);
    ReadPrinted(o2, '.', 0x100, t2);
    ReadPrinted(o3, '.', 0x100, t3);
    ReadPrinted(o4, ':', 0x100, t4);
    ReadDecimal(port, []);
    assert t4 + [] == t4;
  }

  lemma Reassemble(x: U32)
    ensures x == x / 0x100_0000 % 0x100 * 0x100_0000 + x / 0x1_0000 % 0x100 * 0x1_0000 + x / 0x100 % 0x100 * 0x100
            + x % 0x100
  {
  }

  /** Round trip: parsing the printed text gives the address back. */
  lemma ParsePrinted(a: Address)
    ensures Parse(CStr(a)) == Some(a)
  {
    NeverTruncated(a);
    var hip := Ntohl(a.ip);
    ParseDottedQuad(hip / 0x100_0000 % 0x100, hip / 0x1_0000 % 0x100, hip / 0x100 % 0x100, hip % 0x100, Ntohs(a.port));
    Reassemble(hip);
    SwapTwice32(a.ip);
    SwapTwice16(a.port);
  }

  /** Two addresses print alike exactly when they are equal. */
  lemma PrintsInjective(a: Address, b: Address)
    ensures CStr(a) == CStr(b) <==> a == b
  {
    ParsePrinted(a);
    ParsePrinted(b);
  }
}
