/** IP addresses and prefixes of Go's net/netip, and the order of client subnets. */
module Netip {
  import opened Common

  /** The zero address, an IPv4 address, or an IPv6 address with an optional zone. */
  datatype Addr = NoAddr | V4(v4: u32) | V6(v6: u128, zone: string)

  const ADDR4_LIMIT: nat := 0x1_0000_0000
  const ADDR6_LIMIT: nat := 0x1_0000_0000_0000_0000_0000_0000_0000_0000

  function BitLen(ip: Addr): nat {
    match ip
    case NoAddr => 0
    case V4(_) => 32
    case V6(_, _) => 128
  }

  /** The address as a number; the zone is not part of it. */
  function Value(ip: Addr): (v: u128) {
    match ip
    case NoAddr => 0
    case V4(v) => v
    case V6(v, _) => v
  }

  function Zone(ip: Addr): string {
    if ip.V6? then ip.zone else ""
  }

  function WithoutZone(ip: Addr): Addr {
    if ip.V6? then V6(ip.v6, "") else ip
  }

  /** netip.Addr.Compare: by bit length, then by value, then by zone. */
  function Compare(x: Addr, y: Addr): int {
    if BitLen(x) != BitLen(y) then BitLen(x) - BitLen(y)
    else if Value(x) != Value(y) then Value(x) - Value(y)
    else CompareStrings(Zone(x), Zone(y))
  }

  predicate Less(x: Addr, y: Addr) {
    Compare(x, y) < 0
  }

  /** netip.Addr.Next: the zero address past the last address of the family. */
  function Next(ip: Addr): Addr
    requires ip != NoAddr
  {
    match ip
    case V4(v) => if v + 1 < ADDR4_LIMIT then V4(v + 1) else NoAddr
    case V6(v, z) => if v + 1 < ADDR6_LIMIT then V6(v + 1, z) else NoAddr
  }

  /** No address of the family comes after ip. */
  predicate IsLast(ip: Addr) {
    (ip.V4? && ip.v4 == ADDR4_LIMIT - 1) || (ip.V6? && ip.v6 == ADDR6_LIMIT - 1)
  }

  /** A prefix; Bits is -1 in the zero prefix. */
  datatype Prefix = Prefix(addr: Addr, bits: int)

  const NoPrefix := Prefix(NoAddr, -1)

  function Pow2(n: nat): (p: nat)
    ensures p > 0
  {
    if n == 0 then 1 else 2 * Pow2(n - 1)
  }

  /** netip.Prefix.Contains: same family, no zone, and the leading bits agree. */
  predicate Contains(p: Prefix, ip: Addr) {
    && 0 <= p.bits <= BitLen(p.addr)
    && Zone(ip) == ""
    && BitLen(ip) == BitLen(p.addr) != 0
    && Value(ip) / Pow2(BitLen(ip) - p.bits) == Value(p.addr) / Pow2(BitLen(ip) - p.bits)
  }

  /** subnetCompare: longer prefixes first, then by address. */
  function SubnetCompare(x: Prefix, y: Prefix): int {
    if x == y then 0
    else if x.bits == y.bits then Compare(x.addr, y.addr)
    else if x.bits > y.bits then -1
    else 1
  }

  lemma CompareIsOrder()
    ensures StrictTotalOrder(Compare)
  {
    forall a, b
      ensures Opposes(Compare, a, b)
    {
      CompareStringsPair(Zone(a), Zone(b));
    }
    forall a, b, c
      ensures Chains(Compare, a, b, c)
    {
      CompareStringsIsOrder();
      assert Chains(CompareStrings, Zone(a), Zone(b), Zone(c));
    }
  }

  /** subnetCompare is a strict total order whose zero is exactly equality. */
  lemma SubnetCompareIsOrder()
    ensures StrictTotalOrder(SubnetCompare)
  {
    CompareIsOrder();
    forall a, b
      ensures Opposes(SubnetCompare, a, b)
    {
      assert Opposes(Compare, a.addr, b.addr);
    }
    forall a, b, c
      ensures Chains(SubnetCompare, a, b, c)
    {
      assert Chains(Compare, a.addr, b.addr, c.addr);
      assert Opposes(Compare, a.addr, b.addr) && Opposes(Compare, a.addr, c.addr) && Opposes(Compare, b.addr, c.addr);
    }
  }

  lemma {:induction false} DivideTwice(x: nat, m: nat, n: nat)
    ensures x / Pow2(m + n) == x / Pow2(m) / Pow2(n)
    decreases n
  {
    if n > 0 {
      DivideTwice(x, m, n - 1);
      HalveQuotient(x, Pow2(m + n - 1));
      HalveQuotient(x / Pow2(m), Pow2(n - 1));
      assert Pow2(m + n) == 2 * Pow2(m + n - 1);
    }
  }

  lemma HalveQuotient(x: nat, d: nat)
    requires d > 0
    ensures x / (2 * d) == x / d / 2
  {
    var q, r := x / d, x % d;
    assert x == q * d + r;
    var h, b := q / 2, q % 2;
    assert x == h * (2 * d) + (b * d + r) by {
      assert q == 2 * h + b;
      assert q * d == (2 * h + b) * d == h * (2 * d) + b * d;
    }
    assert 0 <= b * d + r < 2 * d;
    QuotientIs(x, 2 * d, h, b * d + r);
  }

  lemma QuotientIs(x: int, d: nat, q: int, r: int)
    requires d > 0 && x == q * d + r && 0 <= r < d
    ensures x / d == q
  {
    var q', r' := x / d, x % d;
    assert x == q' * d + r';
    assert (q - q') * d == r' - r;
    AtLeastOnce(q - q', d);
    AtLeastOnce(q' - q, d);
    assert (q' - q) * d == r - r';
  }

  lemma AtLeastOnce(k: int, d: nat)
    ensures k >= 1 ==> k * d >= d
  {
  }

  /** Of two prefixes that contain a common address, the longer one is inside the other. */
  lemma LongerIsInside(p: Prefix, q: Prefix, ip: Addr, other: Addr)
    requires Contains(p, ip) && Contains(q, ip) && p.bits >= q.bits
    requires Contains(p, other)
    ensures Contains(q, other)
  {
    var w := BitLen(ip);
    var m, n := w - p.bits, p.bits - q.bits;
    DivideTwice(Value(ip), m, n);
    DivideTwice(Value(other), m, n);
    DivideTwice(Value(q.addr), m, n);
  }

  lemma {:induction false} Pow2Sum(m: nat, n: nat)
    ensures Pow2(m) * Pow2(n) == Pow2(m + n)
  {
    if m > 0 {
      Pow2Sum(m - 1, n);
      assert Pow2(m) * Pow2(n) == 2 * (Pow2(m - 1) * Pow2(n));
    }
  }

  lemma Pow2Values()
    ensures Pow2(0) == 1 && Pow2(8) == 0x100 && Pow2(16) == 0x1_0000 && Pow2(24) == 0x100_0000
    ensures Pow2(32) == 0x1_0000_0000 && Pow2(128) == 0x1_0000_0000_0000_0000_0000_0000_0000_0000
  {
    assert Pow2(4) == 0x10;
    Pow2Sum(4, 4);
    Pow2Sum(8, 8);
    Pow2Sum(8, 16);
    Pow2Sum(16, 16);
    Pow2Sum(32, 32);
    Pow2Sum(64, 64);
  }

  predicate InBlock(v: nat, n: nat, size: nat) {
    n * size <= v < (n + 1) * size
  }

  /** Cut into blocks of the given size, the numbers have a and b in one of them. */
  ghost predicate OneBlock(a: nat, b: nat, size: nat) {
    exists n: nat :: InBlock(a, n, size) && InBlock(b, n, size)
  }

  /** Two addresses of one family. */
  predicate SameFamily(a: Addr, b: Addr) {
    (a.V4? && b.V4?) || (a.V6? && b.V6?)
  }

  /** How many addresses a family has. */
  predicate FamilySize(a: Addr, n: nat) {
    (a.V4? && n == 0x1_0000_0000) || (a.V6? && n == 0x1_0000_0000_0000_0000_0000_0000_0000_0000)
  }

  lemma SameQuotientIff(a: nat, b: nat, d: nat)
    requires d > 0
    ensures a / d == b / d <==> OneBlock(a, b, d)
  {
    assert a == a / d * d + a % d && b == b / d * d + b % d;
    if a / d == b / d {
      assert InBlock(a, a / d, d) && InBlock(b, a / d, d);
    }
    if n: nat :| InBlock(a, n, d) && InBlock(b, n, d) {
      QuotientIs(a, d, n, a - n * d);
      QuotientIs(b, d, n, b - n * d);
    }
  }

  lemma SameFactor(a: nat, b: nat, d: nat)
    requires d > 0 && a * d == b * d
    ensures a == b
  {
    AtLeastOnce(a - b, d);
    AtLeastOnce(b - a, d);
  }

  /**
   * Which addresses a prefix contains: those without a zone of the same family that lie in one block
   * with the address of the prefix, where the blocks cut the family into 2^bits parts of one size.
   */
  lemma ContainsIff(p: Prefix, ip: Addr, size: nat)
    requires p.addr != NoAddr && 0 <= p.bits <= (if p.addr.V4? then 32 else 128) ==>
               FamilySize(p.addr, size * Pow2(p.bits))
    ensures Contains(p, ip) <==>
      && SameFamily(p.addr, ip) && (ip.V6? ==> ip.zone == "")
      && 0 <= p.bits <= (if p.addr.V4? then 32 else 128)
      && OneBlock(Value(p.addr), Value(ip), size)
  {
    if SameFamily(p.addr, ip) && 0 <= p.bits <= BitLen(p.addr) {
      var w := BitLen(p.addr);
      Pow2Values();
      Pow2Sum(w - p.bits, p.bits);
      SameFactor(size, Pow2(w - p.bits), Pow2(p.bits));
      SameQuotientIff(Value(ip), Value(p.addr), size);
    }
  }

  /** 10.0.1.0/24 reaches from 10.0.1.0 to 10.0.1.255. */
  lemma EndsOf24()
    ensures var p := Prefix(V4(0x0A00_0100), 24);
            && !Contains(p, V4(0x0A00_00FF)) && Contains(p, V4(0x0A00_0100))
            && Contains(p, V4(0x0A00_01FF)) && !Contains(p, V4(0x0A00_0200))
  {
    var p := Prefix(V4(0x0A00_0100), 24);
    Pow2Values();
    assert InBlock(0x0A00_0100, 0xA_0001, 0x100) && InBlock(0x0A00_01FF, 0xA_0001, 0x100);
    ContainsIff(p, V4(0x0A00_00FF), 0x100);
    ContainsIff(p, V4(0x0A00_0100), 0x100);
    ContainsIff(p, V4(0x0A00_01FF), 0x100);
    ContainsIff(p, V4(0x0A00_0200), 0x100);
  }

  /** IPv4 comes before IPv6; within a family the number decides, then the zone; the zero address is first. */
  lemma LessIff(x: Addr, y: Addr)
    ensures Less(x, y) <==>
      match (x, y)
      case (NoAddr, _) => y != NoAddr
      case (V4(v), V4(w)) => v < w
      case (V4(_), V6(_, _)) => true
      case (V6(v, a), V6(w, b)) => v < w || (v == w && exists i :: Precedes(a, b, i))
      case (_, _) => false
  {
    CompareStringsIsLexicographic(Zone(x), Zone(y));
  }

  /** Longer prefixes come first, and prefixes of one length in the order of their addresses. */
  lemma SubnetOrderIff(x: Prefix, y: Prefix)
    ensures SubnetCompare(x, y) < 0 <==> x.bits > y.bits || (x.bits == y.bits && Less(x.addr, y.addr))
  {
    CompareIsOrder();
    assert Opposes(Compare, x.addr, y.addr);
  }
}
