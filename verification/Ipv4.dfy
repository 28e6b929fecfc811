/** IPv4 addresses and blocks, as Python's ipaddress module reads and prints them. */
module Ipv4 {
  import opened Wrappers
  import opened Text
  import opened Digits

  type Addr = x: int | 0 <= x < 0x1_0000_0000 witness 0

  // --- dotted quads -------------------------------------------------------------------------

  /** One part of a dotted quad: one to three digits, no leading zero, at most 255. */
  function ParseOctet(s: string): (r: Option<nat>)
    ensures r.Some? ==> r.value < 256
  {
    if !AllDigits(s) || s == "" || |s| > 3 || (|s| > 1 && s[0] == '0') || NatOf(s) > 255 then None else Some(NatOf(s))
  }

  /** IPv4Address(s); None is ValueError. */
  function ParseAddr(s: string): Option<Addr> {
    var parts := Split(s, '.');
    if |parts| != 4 then None
    else
      var (a, b, c, d) := (ParseOctet(parts[0]), ParseOctet(parts[1]), ParseOctet(parts[2]), ParseOctet(parts[3]));
      if a == None || b == None || c == None || d == None then None
      else Some((a.value * 0x100 + b.value) * 0x1_0000 + (c.value * 0x100 + d.value))
  }

  /** str(address) */
  function ShowAddr(x: Addr): string {
    var (hi, lo) := (x / 0x1_0000, x % 0x1_0000);
    Join([Dec(hi / 0x100), Dec(hi % 0x100), Dec(lo / 0x100), Dec(lo % 0x100)], '.')
  }

  lemma {:induction false} DecHasNoLeadingZero(n: nat)
    requires n > 0
    ensures Dec(n)[0] != '0'
  {
    if n >= 10 {
      DecHasNoLeadingZero(n / 10);
    } else {
      assert ValueOf(Dec(n)[0]) == n;
    }
  }

  lemma {:induction false} DecNatOf(s: string)
    requires AllDigits(s) && s != "" && (|s| > 1 ==> s[0] != '0')
    ensures Dec(NatOf(s)) == s
  {
    var (front, d) := (s[..|s| - 1], s[|s| - 1]);
    DigitOfValue(d);
    assert s == front + [d];
    assert |Dec(0)| == 1;
    if front != "" {
      DecNatOf(front);
      if |front| == 1 {
        assert NatOf(front) == ValueOf(front[0]) by { assert front[..0] == ""; }
        DigitOfValue(front[0]);
      }
      assert NatOf(s) / 10 == NatOf(front) && NatOf(s) % 10 == ValueOf(d);
    }
  }

  lemma OctetIsCanonical(s: string)
    requires ParseOctet(s).Some?
    ensures Dec(ParseOctet(s).value) == s
  {
    DecNatOf(s);
  }

  lemma OctetRoundTrip(n: nat)
    requires n < 256
    ensures ParseOctet(Dec(n)) == Some(n) && '.' !in Dec(n)
  {
    NatOfDec(n);
    if n >= 100 {
      assert Dec(n) == Dec(n / 10) + [DigitOf(n % 10)];
      assert |Dec(n / 10)| == 2;
    }
    if n > 0 {
      DecHasNoLeadingZero(n);
    }
    assert !IsDigit('.');
  }

  lemma ParseShow(x: Addr)
    ensures ParseAddr(ShowAddr(x)) == Some(x)
  {
    var (hi, lo) := (x / 0x1_0000, x % 0x1_0000);
    var (a, b, c, d) := (hi / 0x100, hi % 0x100, lo / 0x100, lo % 0x100);
    OctetRoundTrip(a);
    OctetRoundTrip(b);
    OctetRoundTrip(c);
    OctetRoundTrip(d);
    hide ParseOctet, Dec, Split, Join;
    SplitJoin([Dec(a), Dec(b), Dec(c), Dec(d)], '.');
  }

  lemma QuadIs(a: nat, b: nat, c: nat, d: nat)
    requires a < 256 && b < 256 && c < 256 && d < 256
    ensures var (hi, lo) := (a * 0x100 + b, c * 0x100 + d);
            var x := hi * 0x1_0000 + lo;
            && x < 0x1_0000_0000 && x / 0x1_0000 == hi && x % 0x1_0000 == lo
            && hi / 0x100 == a && hi % 0x100 == b && lo / 0x100 == c && lo % 0x100 == d
  {
  }

  /** Each address has one text form: two texts of one address are the same text. */
  lemma ShowParse(s: string)
    requires ParseAddr(s).Some?
    ensures ShowAddr(ParseAddr(s).value) == s
  {
    hide ParseOctet, Dec, Split, Join;
    var p := Split(s, '.');
    OctetIsCanonical(p[0]);
    OctetIsCanonical(p[1]);
    OctetIsCanonical(p[2]);
    OctetIsCanonical(p[3]);
    QuadIs(ParseOctet(p[0]).value, ParseOctet(p[1]).value, ParseOctet(p[2]).value, ParseOctet(p[3]).value);
    assert p == [p[0], p[1], p[2], p[3]];
    JoinSplit(s, '.');
  }

  lemma {:induction false} JoinedChars(parts: seq<string>, c: char)
    requires forall i :: 0 <= i < |parts| ==> AllDigits(parts[i])
    ensures forall i :: 0 <= i < |Join(parts, c)| ==> IsDigit(Join(parts, c)[i]) || Join(parts, c)[i] == c
  {
    if |parts| > 1 {
      JoinedChars(parts[1..], c);
    }
  }

  /** An address's text has digits and dots only, so strip leaves it as it is. */
  lemma ShowAddrChars(x: Addr)
    ensures var s := ShowAddr(x);
            s != "" && Strip(s) == s && forall i :: 0 <= i < |s| ==> IsDigit(s[i]) || s[i] == '.'
  {
    hide Dec, Strip;
    var (hi, lo) := (x / 0x1_0000, x % 0x1_0000);
    var s := ShowAddr(x);
    JoinedChars([Dec(hi / 0x100), Dec(hi % 0x100), Dec(lo / 0x100), Dec(lo % 0x100)], '.');
    assert s[0] == Dec(hi / 0x100)[0];
    StripPlain(s);
  }

  lemma EmptyIsNoAddress()
    ensures ParseAddr("") == None && Strip("") == ""
  {
  }

  // --- blocks -------------------------------------------------------------------------------

  type PrefixLength = n: nat | n <= 32 witness 0

  function Pow2(n: nat): (p: nat)
    ensures p >= 1
  {
    if n == 0 then 1 else 2 * Pow2(n - 1)
  }

  /** A block as IPv4Network(text, strict=False) reads it: any address of it, and the prefix length
      (section 3.1 of RFC 4632). */
  datatype Cidr = Cidr(address: Addr, prefix: PrefixLength) {
    function Size(): nat {
      Pow2(32 - prefix)
    }

    function Network(): (a: int)
      ensures 0 <= a <= address
    {
      NonNegativeRemainder(address, Size());
      address - address % Size()
    }

    function Broadcast(): int {
      Network() + Size() - 1
    }

    predicate Has(a: Addr) {
      Network() <= a <= Broadcast()
    }

    predicate Overlaps(other: Cidr) {
      Network() <= other.Broadcast() && other.Network() <= Broadcast()
    }
  }

  lemma NonNegativeRemainder(a: nat, n: nat)
    requires n >= 1
    ensures 0 <= a % n <= a
  {
    var (q, r) := (a / n, a % n);
    assert a == q * n + r;
    assert q * n >= 0;
  }

  /** a and b have the same quotient exactly when b is among the n numbers from a's multiple on. */
  lemma SameQuotient(a: nat, b: nat, n: nat)
    requires n >= 1
    ensures a - a % n <= b < a - a % n + n <==> b / n == a / n
  {
    var (q, p) := (a / n, b / n);
    assert a == q * n + a % n && b == p * n + b % n;
    if p < q {
      assert p * n + n <= q * n by { Multiples(p + 1, q, n); }
    } else if p > q {
      assert q * n + n <= p * n by { Multiples(q + 1, p, n); }
    }
  }

  lemma Multiples(p: nat, q: nat, n: nat)
    requires p <= q
    ensures p * n <= q * n
  {
  }

  /** A block is the addresses that agree with its own in the leading `prefix` bits. */
  lemma BlockSharesPrefix(c: Cidr, a: Addr)
    ensures c.Has(a) <==> a / c.Size() == c.address / c.Size()
  {
    hide Pow2;
    SameQuotient(c.address, a, c.Size());
  }

  lemma {:induction false} SizeDivides(n: nat, m: nat)
    requires n <= m
    ensures exists k :: k >= 1 && Pow2(m) == k * Pow2(n)
  {
    if n == m {
      assert Pow2(m) == 1 * Pow2(n);
    } else {
      SizeDivides(n, m - 1);
      var k :| k >= 1 && Pow2(m - 1) == k * Pow2(n);
      assert Pow2(m) == (2 * k) * Pow2(n);
    }
  }

  /** A block ends where a 32-bit address can still reach. */
  lemma BlockInRange(c: Cidr)
    ensures c.Has(c.address) && c.Broadcast() < 0x1_0000_0000
  {
    hide Pow2;
    var n := c.Size();
    SizeDivides(32 - c.prefix, 32);
    Pow32();
    var k :| k >= 1 && Pow2(32) == k * n;
    BlockSharesPrefix(c, c.address);
    var q := c.address / n;
    assert c.address == q * n + c.address % n;
    if q >= k {
      Multiples(k, q, n);
      assert false;
    }
    Multiples(q + 1, k, n);
    assert c.Broadcast() == q * n + n - 1;
  }

  lemma Pow32()
    ensures Pow2(32) == 0x1_0000_0000
  {
    assert Pow2(8) == 0x100;
    assert Pow2(16) == 0x1_0000;
    assert Pow2(24) == 0x100_0000;
  }

  /** Two blocks overlap exactly when some address is in both. */
  lemma OverlapIsSharedAddress(c: Cidr, d: Cidr)
    ensures c.Overlaps(d) <==> exists a: Addr :: c.Has(a) && d.Has(a)
  {
    hide Pow2;
    BlockInRange(c);
    BlockInRange(d);
    if c.Overlaps(d) {
      var a: Addr := if c.Network() > d.Network() then c.Network() else d.Network();
      assert c.Has(a) && d.Has(a);
    }
  }

  datatype Range = Range(first: Addr, last: Addr) {
    predicate Has(a: Addr) {
      first <= a <= last
    }

    /** `_overlap` */
    predicate Overlaps(other: Range) {
      first <= other.last && other.first <= last
    }

    predicate Inside(other: Range) {
      other.first <= first && last <= other.last
    }
  }

  predicate InAny(ranges: seq<Range>, a: Addr) {
    exists i :: 0 <= i < |ranges| && ranges[i].Has(a)
  }
}
