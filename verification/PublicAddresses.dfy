/** Which IP addresses web/url.go takes for public ones: the address classes of net/netip and the
    list of reserved prefixes, as ranges of integers. */
module PublicAddresses {
  import opened Wrappers

  // An address after unmapping: its family and its 32 or 128 bits.
  datatype Address = Address(six: bool, bits: nat)

  type Size = n: nat | n > 0 witness 1

  // The addresses of one family whose bits above the last log2(size) read top.
  datatype Prefix = Prefix(six: bool, top: nat, size: Size)

  // netip.Prefix.Contains
  predicate Contains(p: Prefix, a: Address) { p.six == a.six && a.bits / p.size == p.top }

  // What IsGlobalUnicast and the three checks beside it refuse.
  const CLASSES := [
    Prefix(false, 0, 1),                                              // unspecified
    Prefix(false, 0xffff_ffff, 1),                                    // broadcast
    Prefix(true, 0, 1),                                               // ::
    Prefix(false, 127, 0x100_0000),                                   // 127.0.0.0/8
    Prefix(true, 1, 1),                                               // ::1
    Prefix(false, 0xe, 0x1000_0000),                                  // 224.0.0.0/4
    Prefix(true, 0xff, 0x100_0000_0000_0000_0000_0000_0000_0000),     // ff00::/8
    Prefix(false, 0xa9fe, 0x1_0000),                                  // 169.254.0.0/16
    Prefix(true, 0x3fa, 0x40_0000_0000_0000_0000_0000_0000_0000),     // fe80::/10
    Prefix(false, 10, 0x100_0000),                                    // 10.0.0.0/8
    Prefix(false, 0xac1, 0x10_0000),                                  // 172.16.0.0/12
    Prefix(false, 0xc0a8, 0x1_0000),                                  // 192.168.0.0/16
    Prefix(true, 0x7e, 0x200_0000_0000_0000_0000_0000_0000_0000)]     // fc00::/7

  // The prefixes the code lists, in its order.
  const RESERVED := [
    Prefix(false, 0, 0x100_0000),                                     // 0.0.0.0/8
    Prefix(false, 0x191, 0x40_0000),                                  // 100.64.0.0/10
    Prefix(false, 0xc0_0000, 0x100),                                  // 192.0.0.0/24
    Prefix(false, 0xc0_0002, 0x100),                                  // 192.0.2.0/24
    Prefix(false, 0xc0_5863, 0x100),                                  // 192.88.99.0/24
    Prefix(false, 0x6309, 0x2_0000),                                  // 198.18.0.0/15
    Prefix(false, 0xc6_3364, 0x100),                                  // 198.51.100.0/24
    Prefix(false, 0xcb_0071, 0x100),                                  // 203.0.113.0/24
    Prefix(false, 0xf, 0x1000_0000),                                  // 240.0.0.0/4
    Prefix(true, 0x2001_0db8, 0x1_0000_0000_0000_0000_0000_0000),     // 2001:db8::/32
    Prefix(true, 0x10_0080, 0x200_0000_0000_0000_0000_0000_0000),     // 2001::/23
    Prefix(true, 0x2002, 0x1_0000_0000_0000_0000_0000_0000_0000),     // 2002::/16
    Prefix(true, 0x64_ff9b_0000_0000_0000_0000, 0x1_0000_0000),       // 64:ff9b::/96
    Prefix(true, 0x64_ff9b_0001, 0x1_0000_0000_0000_0000_0000)]       // 64:ff9b:1::/48

  // From the first address of the prefix to the last.
  predicate Within(p: Prefix, a: Address) { p.six == a.six && p.top * p.size <= a.bits < (p.top + 1) * p.size }

  // Outside every class and every reserved range.
  predicate Public(a: Address) { Outside(CLASSES, a) && Outside(RESERVED, a) }

  predicate Outside(ps: seq<Prefix>, a: Address) { forall i :: 0 <= i < |ps| ==> !Within(ps[i], a) }

  // ----- The same addresses in bytes and groups

  predicate From(x: nat, first: nat, size: nat) { first <= x < first + size }

  const G2 := 0x1_0000_0000
  const G5 := 0x1_0000_0000_0000_0000_0000
  const G6 := 0x1_0000_0000_0000_0000_0000_0000
  const G7 := 0x1_0000_0000_0000_0000_0000_0000_0000

  lemma FourClasses(n: nat)
    ensures Outside(CLASSES, Address(false, n)) <==>
      && !(n == 0) && !(n == 0xffff_ffff) && !From(n, 0x7f00_0000, 0x100_0000)
      && !From(n, 0xe000_0000, 0x1000_0000) && !From(n, 0xa9fe_0000, 0x1_0000)
      && !From(n, 0x0a00_0000, 0x100_0000) && !From(n, 0xac10_0000, 0x10_0000)
      && !From(n, 0xc0a8_0000, 0x1_0000)
  {
    var x := Address(false, n);
    assert Within(CLASSES[0], x) <==> n == 0;
    assert Within(CLASSES[1], x) <==> n == 0xffff_ffff;
    assert !Within(CLASSES[2], x);
    assert Within(CLASSES[3], x) <==> From(n, 0x7f00_0000, 0x100_0000);
    assert !Within(CLASSES[4], x);
    assert Within(CLASSES[5], x) <==> From(n, 0xe000_0000, 0x1000_0000);
    assert !Within(CLASSES[6], x);
    assert Within(CLASSES[7], x) <==> From(n, 0xa9fe_0000, 0x1_0000);
    assert !Within(CLASSES[8], x);
    assert Within(CLASSES[9], x) <==> From(n, 0x0a00_0000, 0x100_0000);
    assert Within(CLASSES[10], x) <==> From(n, 0xac10_0000, 0x10_0000);
    assert Within(CLASSES[11], x) <==> From(n, 0xc0a8_0000, 0x1_0000);
    assert !Within(CLASSES[12], x);
  }

  lemma FourReserved(n: nat)
    ensures Outside(RESERVED, Address(false, n)) <==>
      && !From(n, 0, 0x100_0000) && !From(n, 0x6440_0000, 0x40_0000) && !From(n, 0xc000_0000, 0x100)
      && !From(n, 0xc000_0200, 0x100) && !From(n, 0xc058_6300, 0x100) && !From(n, 0xc612_0000, 0x2_0000)
      && !From(n, 0xc633_6400, 0x100) && !From(n, 0xcb00_7100, 0x100) && !From(n, 0xf000_0000, 0x1000_0000)
  {
    var x := Address(false, n);
    assert Within(RESERVED[0], x) <==> From(n, 0, 0x100_0000);
    assert Within(RESERVED[1], x) <==> From(n, 0x6440_0000, 0x40_0000);
    assert Within(RESERVED[2], x) <==> From(n, 0xc000_0000, 0x100);
    assert Within(RESERVED[3], x) <==> From(n, 0xc000_0200, 0x100);
    assert Within(RESERVED[4], x) <==> From(n, 0xc058_6300, 0x100);
    assert Within(RESERVED[5], x) <==> From(n, 0xc612_0000, 0x2_0000);
    assert Within(RESERVED[6], x) <==> From(n, 0xc633_6400, 0x100);
    assert Within(RESERVED[7], x) <==> From(n, 0xcb00_7100, 0x100);
    assert Within(RESERVED[8], x) <==> From(n, 0xf000_0000, 0x1000_0000);
    assert !Within(RESERVED[9], x);
    assert !Within(RESERVED[10], x);
    assert !Within(RESERVED[11], x);
    assert !Within(RESERVED[12], x);
    assert !Within(RESERVED[13], x);
  }

  lemma SixClasses(n: nat)
    ensures Outside(CLASSES, Address(true, n)) <==>
      && !(n == 0) && !(n == 1) && !From(n, 0xff00 * G7, 0x100 * G7) && !From(n, 0xfe80 * G7, 0x40 * G7)
      && !From(n, 0xfc00 * G7, 0x200 * G7)
  {
    var x := Address(true, n);
    assert !Within(CLASSES[0], x);
    assert !Within(CLASSES[1], x);
    assert Within(CLASSES[2], x) <==> n == 0;
    assert !Within(CLASSES[3], x);
    assert Within(CLASSES[4], x) <==> n == 1;
    assert !Within(CLASSES[5], x);
    assert Within(CLASSES[6], x) <==> From(n, 0xff00 * G7, 0x100 * G7);
    assert !Within(CLASSES[7], x);
    assert Within(CLASSES[8], x) <==> From(n, 0xfe80 * G7, 0x40 * G7);
    assert !Within(CLASSES[9], x);
    assert !Within(CLASSES[10], x);
    assert !Within(CLASSES[11], x);
    assert Within(CLASSES[12], x) <==> From(n, 0xfc00 * G7, 0x200 * G7);
  }

  lemma SixReserved(n: nat)
    ensures Outside(RESERVED, Address(true, n)) <==>
      && !From(n, 0x2001_0db8 * G6, 1 * G6) && !From(n, 0x2001_0000 * G6, 0x200 * G6)
      && !From(n, 0x2002 * G7, 1 * G7) && !From(n, 0x64_ff9b_0000_0000_0000_0000 * G2, 1 * G2)
      && !From(n, 0x64_ff9b_0001 * G5, 1 * G5)
  {
    var x := Address(true, n);
    assert !Within(RESERVED[0], x);
    assert !Within(RESERVED[1], x);
    assert !Within(RESERVED[2], x);
    assert !Within(RESERVED[3], x);
    assert !Within(RESERVED[4], x);
    assert !Within(RESERVED[5], x);
    assert !Within(RESERVED[6], x);
    assert !Within(RESERVED[7], x);
    assert !Within(RESERVED[8], x);
    assert Within(RESERVED[9], x) <==> From(n, 0x2001_0db8 * G6, 1 * G6);
    assert Within(RESERVED[10], x) <==> From(n, 0x2001_0000 * G6, 0x200 * G6);
    assert Within(RESERVED[11], x) <==> From(n, 0x2002 * G7, 1 * G7);
    assert Within(RESERVED[12], x) <==> From(n, 0x64_ff9b_0000_0000_0000_0000 * G2, 1 * G2);
    assert Within(RESERVED[13], x) <==> From(n, 0x64_ff9b_0001 * G5, 1 * G5);
  }

  // The public IPv4 addresses in their four bytes: neither this network, private, shared, loopback,
  // link-local, benchmarking, documentation or relay space, nor anything from 224 up.
  lemma PublicInBytes(a: nat, b: nat, c: nat, d: nat)
    requires a < 256 && b < 256 && c < 256 && d < 256
    ensures Public(Address(false, ((a * 256 + b) * 256 + c) * 256 + d)) <==>
      && a != 0 && a != 10 && a != 127 && a < 224
      && !(a == 100 && 64 <= b < 128) && !(a == 169 && b == 254) && !(a == 172 && 16 <= b < 32)
      && !(a == 192 && (b == 168 || (b == 0 && (c == 0 || c == 2)) || (b == 88 && c == 99)))
      && !(a == 198 && (b == 18 || b == 19 || (b == 51 && c == 100)))
      && !(a == 203 && b == 0 && c == 113)
  {
    hide Outside;
    var n := ((a * 256 + b) * 256 + c) * 256 + d;
    FourClasses(n);
    FourReserved(n);
  }

  // An address whose leading bits read lead lies in a range of whole units when its lead does.
  lemma Leading(n: nat, lead: nat, unit: nat, first: nat, size: nat)
    requires lead * unit <= n < (lead + 1) * unit
    ensures From(n, first * unit, size * unit) <==> first <= lead < first + size
  {
    if lead < first { ProductGrows(lead + 1, first, unit); } else { ProductGrows(first, lead, unit); }
    var end := first + size;
    if lead < end { ProductGrows(lead + 1, end, unit); } else { ProductGrows(end, lead, unit); }
    assert first * unit + size * unit == end * unit;
  }

  // The public IPv6 addresses by their first six groups of sixteen bits, and the last two together.
  lemma PublicInGroups(a: nat, b: nat, c: nat, d: nat, e: nat, f: nat, last: nat)
    requires a < 0x1_0000 && b < 0x1_0000 && c < 0x1_0000 && d < 0x1_0000 && e < 0x1_0000 && f < 0x1_0000
    requires last < G2
    ensures Public(Address(true, Groups(a, b, c, d, e, f, last))) <==>
      && !(a == b == c == d == e == f == 0 && last <= 1)
      && a < 0xff00 && !(0xfe80 <= a < 0xfec0) && !(0xfc00 <= a < 0xfe00)
      && !(a == 0x2001 && (b == 0xdb8 || b < 0x200)) && a != 0x2002
      && !(a == 0x64 && b == 0xff9b && (c == 1 || (c == d == e == f == 0)))
  {
    hide Outside, Groups;
    ClassesInGroups(a, b, c, d, e, f, last);
    ReservedInGroups(a, b, c, d, e, f, last);
  }

  lemma ClassesInGroups(a: nat, b: nat, c: nat, d: nat, e: nat, f: nat, last: nat)
    requires a < 0x1_0000 && b < 0x1_0000 && c < 0x1_0000 && d < 0x1_0000 && e < 0x1_0000 && f < 0x1_0000
    requires last < G2
    ensures Outside(CLASSES, Address(true, Groups(a, b, c, d, e, f, last))) <==>
      && !(a == b == c == d == e == f == 0 && last <= 1)
      && a < 0xff00 && !(0xfe80 <= a < 0xfec0) && !(0xfc00 <= a < 0xfe00)
  {
    hide Outside, From, Groups;
    var n := Groups(a, b, c, d, e, f, last);
    SixClasses(n);
    FrontOf(a, b, c, d, e, f, last);
    Leading(n, a, G7, 0xff00, 0x100);
    Leading(n, a, G7, 0xfe80, 0x40);
    Leading(n, a, G7, 0xfc00, 0x200);
  }

  lemma ReservedInGroups(a: nat, b: nat, c: nat, d: nat, e: nat, f: nat, last: nat)
    requires a < 0x1_0000 && b < 0x1_0000 && c < 0x1_0000 && d < 0x1_0000 && e < 0x1_0000 && f < 0x1_0000
    requires last < G2
    ensures Outside(RESERVED, Address(true, Groups(a, b, c, d, e, f, last))) <==>
      && !(a == 0x2001 && (b == 0xdb8 || b < 0x200)) && a != 0x2002
      && !(a == 0x64 && b == 0xff9b && (c == 1 || (c == d == e == f == 0)))
  {
    hide Outside, From, Groups;
    var n, ab, front := Groups(a, b, c, d, e, f, last), a * 0x1_0000 + b, Groups(0, 0, a, b, c, d, e * 0x1_0000 + f);
    SixReserved(n);
    FrontOf(a, b, c, d, e, f, last);
    PairsRead(a, b, c);
    Leading(n, ab, G6, 0x2001_0db8, 1);
    Leading(n, ab, G6, 0x2001_0000, 0x200);
    Leading(n, a, G7, 0x2002, 1);
    Leading(n, front, G2, 0x64_ff9b_0000_0000_0000_0000, 1);
    Leading(n, ab * 0x1_0000 + c, G5, 0x64_ff9b_0001, 1);
  }

  lemma PairsRead(a: nat, b: nat, c: nat)
    requires a < 0x1_0000 && b < 0x1_0000 && c < 0x1_0000
    ensures var ab := a * 0x1_0000 + b;
      && (0x2001_0db8 <= ab < 0x2001_0db8 + 1 <==> a == 0x2001 && b == 0xdb8)
      && (0x2001_0000 <= ab < 0x2001_0000 + 0x200 <==> a == 0x2001 && b < 0x200)
      && (0x64_ff9b_0001 <= ab * 0x1_0000 + c < 0x64_ff9b_0001 + 1 <==> a == 0x64 && b == 0xff9b && c == 1)
  {}

  lemma FrontOf(a: nat, b: nat, c: nat, d: nat, e: nat, f: nat, last: nat)
    requires a < 0x1_0000 && b < 0x1_0000 && c < 0x1_0000 && d < 0x1_0000 && e < 0x1_0000 && f < 0x1_0000
    requires last < G2
    ensures var n, ab := Groups(a, b, c, d, e, f, last), a * 0x1_0000 + b;
      var front := Groups(0, 0, a, b, c, d, e * 0x1_0000 + f);
      && a * G7 <= n < (a + 1) * G7 && ab * G6 <= n < (ab + 1) * G6
      && (ab * 0x1_0000 + c) * G5 <= n < (ab * 0x1_0000 + c + 1) * G5 && front * G2 <= n < (front + 1) * G2
      && (n <= 1 <==> a == b == c == d == e == f == 0 && last <= 1)
      && (front == 0x64_ff9b_0000_0000_0000_0000 <==> a == 0x64 && b == 0xff9b && c == d == e == f == 0)
  {}

  function Groups(a: nat, b: nat, c: nat, d: nat, e: nat, f: nat, last: nat): nat {
    a * G7 + b * G6 + c * G5 + d * 0x1_0000_0000_0000_0000 + e * 0x1_0000_0000_0000 + f * G2 + last
  }

  // Comparing leading bits decides the range.
  lemma ContainsIsRange(p: Prefix, a: Address)
    ensures Contains(p, a) <==> Within(p, a)
  {
    var q, r := a.bits / p.size, a.bits % p.size;
    assert a.bits == q * p.size + r;
    if q < p.top {
      ProductGrows(q + 1, p.top, p.size);
    } else if q > p.top {
      ProductGrows(p.top + 1, q, p.size);
    }
  }

  // The classes first, then the loop over the listed prefixes.
  method IsPublic(a: Address) returns (ok: bool)
    ensures ok <==> Public(a)
  {
    hide Outside, Within;
    var special := AnyContains(CLASSES, a);
    if special {
      return false;
    }
    var reserved := AnyContains(RESERVED, a);
    return !reserved;
  }

  method AnyContains(ps: seq<Prefix>, a: Address) returns (found: bool)
    ensures found <==> !Outside(ps, a)
  {
    for i := 0 to |ps|
      invariant forall k :: 0 <= k < i ==> !Within(ps[k], a)
    {
      ContainsIsRange(ps[i], a);
      if Contains(ps[i], a) {
        return true;
      }
    }
    return false;
  }
}
