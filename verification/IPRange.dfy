/** Address ranges of the DHCP server, with offsets computed on the low 64 bits. */
module IPRanges {
  import opened Common
  import opened Netip

  datatype IPRange = IPRange(start: Addr, end: Addr)

  datatype RangeError = DifferentFamilies | NotAscending | TooLong

  const MAX_RANGE_LEN: nat := 0xFFFF_FFFF
  const TWO64: nat := 0x1_0000_0000_0000_0000

  function NewIPRange(start: Addr, end: Addr): (r: Result<IPRange, RangeError>) {
    if start.V4? != end.V4? then Err(DifferentFamilies)
    else if !Less(start, end) then Err(NotAscending)
    else
      var diff := Value(end) - Value(start);
      if diff < 0 || diff >= TWO64 || diff > MAX_RANGE_LEN then Err(TooLong)
      else Ok(IPRange(start, end))
  }

  ghost predicate IsRange(r: IPRange) {
    NewIPRange(r.start, r.end).Ok?
  }

  /** A range of actual addresses. */
  ghost predicate Accepted(r: IPRange) {
    IsRange(r) && r.start != NoAddr
  }

  /** What an interface has whose range was refused: it holds the zero address only. */
  const NoRange := IPRange(NoAddr, NoAddr)

  predicate InRange(r: IPRange, ip: Addr) {
    r.start.V4? == ip.V4? && !Less(ip, r.start) && !Less(r.end, ip)
  }

  /** Which ranges are accepted: of one family, with the start before the end and fewer than 2^32 steps between. */
  lemma AcceptedIff(r: IPRange)
    ensures Accepted(r) <==>
      match (r.start, r.end)
      case (V4(v), V4(w)) => v < w
      case (V6(v, a), V6(w, b)) =>
        (v < w && w - v <= 0xFFFF_FFFF) || (v == w && exists i :: Precedes(a, b, i))
      case (_, _) => false
  {
    LessIff(r.start, r.end);
  }

  /** Which addresses are in an accepted range: those of the family from the start to the end, zones included. */
  lemma InRangeIff(r: IPRange, ip: Addr)
    requires Accepted(r)
    ensures InRange(r, ip) <==>
      match (r.start, ip, r.end)
      case (V4(v), V4(x), V4(w)) => v <= x <= w
      case (V6(v, a), V6(x, z), V6(w, b)) =>
        && (v < x || (v == x && !exists i :: Precedes(z, a, i)))
        && (x < w || (x == w && !exists i :: Precedes(b, z, i)))
      case (_, _, _) => false
  {
    LessIff(ip, r.start);
    LessIff(r.end, ip);
  }

  /** The low 64 bits of the 16-byte form, in which an IPv4 address is mapped into ::ffff:0:0/96. */
  function Low64(ip: Addr): u64 {
    if ip.V4? then 0xFFFF_0000_0000 + ip.v4 else Value(ip) % TWO64
  }

  /** Subtraction of 64-bit words, which wraps around. */
  function Sub64(a: u64, b: u64): u64 {
    if a >= b then a - b else a + TWO64 - b
  }

  /** The offset and true, or zero and false for an address outside. */
  function Offset(r: IPRange, ip: Addr): (u64, bool) {
    if !InRange(r, ip) then (0, false)
    else (Sub64(Low64(ip), Low64(r.start)), true)
  }

  /** For every address in an accepted range the wrapping difference of the low words is the true difference. */
  lemma OffsetIsDifference(r: IPRange, ip: Addr)
    requires IsRange(r) && InRange(r, ip)
    ensures Offset(r, ip).1 && Value(ip) >= Value(r.start)
    ensures Offset(r, ip).0 == Value(ip) - Value(r.start) <= Value(r.end) - Value(r.start) <= MAX_RANGE_LEN
  {
  }

  /** Two addresses of a range have the same offset exactly when they differ in nothing but the zone. */
  lemma SameOffsetIff(r: IPRange, a: Addr, b: Addr)
    requires IsRange(r) && InRange(r, a) && InRange(r, b) && a != NoAddr && b != NoAddr
    ensures Offset(r, a).0 == Offset(r, b).0 <==> WithoutZone(a) == WithoutZone(b)
  {
    OffsetIsDifference(r, a);
    OffsetIsDifference(r, b);
  }

  /** Zones make offset ambiguous: two addresses in one range that share an offset. */
  lemma ZonesShareOffset()
    ensures var r := IPRange(V6(0xFE80, ""), V6(0xFEFF, ""));
            var a, b := V6(0xFE85, "eth0"), V6(0xFE85, "eth1");
            IsRange(r) && InRange(r, a) && InRange(r, b) && a != b && Offset(r, a) == Offset(r, b)
  {
  }

  /** What a predicate says about an address; a panic is an answer too. */
  datatype Verdict = Yes | No | Panic

  /** How a walk ends; OffTheEnd is one that goes on past the family, over values that are no addresses. */
  datatype Found = At(ip: Addr) | Nothing | Panicked | OffTheEnd

  /** The address k places after ip. */
  function Plus(ip: Addr, k: nat): Addr {
    match ip
    case V4(v) => if v + k < ADDR4_LIMIT then V4(v + k) else NoAddr
    case V6(v, z) => if v + k < ADDR6_LIMIT then V6(v + k, z) else NoAddr
    case NoAddr => NoAddr
  }

  /**
   * How many addresses find visits before it passes the end.  A start with a zone greater than the
   * end's makes it stop one address early.
   */
  function Visited(r: IPRange): nat
    requires Accepted(r)
  {
    Value(r.end) - Value(r.start) + if Less(r.end, Plus(r.start, Value(r.end) - Value(r.start))) then 0 else 1
  }

  /** The walk of find runs off the end of the address family, to the zero address. */
  predicate Wraps(r: IPRange)
    requires Accepted(r)
  {
    IsLast(r.end) && Visited(r) == Value(r.end) - Value(r.start) + 1
  }

  lemma VisitedInRange(r: IPRange, k: nat)
    requires Accepted(r)
    ensures k < Visited(r) ==> Plus(r.start, k) != NoAddr && InRange(r, Plus(r.start, k))
    ensures k < Visited(r) ==> Offset(r, Plus(r.start, k)) == (k, true)
    ensures k < Visited(r) ==> Next(Plus(r.start, k)) == Plus(r.start, k + 1)
    ensures k == Visited(r) && !Wraps(r) ==> Plus(r.start, k) != NoAddr && Less(r.end, Plus(r.start, k))
    ensures k == Visited(r) && Wraps(r) ==> Plus(r.start, k) == NoAddr
  {
    if k < Visited(r) {
      StepInRange(r, k);
    } else if k == Visited(r) {
      WalkPassesEnd(r);
    }
  }

  lemma StepInRange(r: IPRange, k: nat)
    requires Accepted(r) && k < Visited(r)
    ensures Plus(r.start, k) != NoAddr && InRange(r, Plus(r.start, k))
    ensures Offset(r, Plus(r.start, k)) == (k, true) && Next(Plus(r.start, k)) == Plus(r.start, k + 1)
  {
    CompareStringsPair(Zone(r.start), Zone(Plus(r.start, k)));
    OffsetIsDifference(r, Plus(r.start, k));
  }

  lemma WalkPassesEnd(r: IPRange)
    requires Accepted(r)
    ensures var past := Plus(r.start, Visited(r));
            if Wraps(r) then past == NoAddr else past != NoAddr && Less(r.end, past)
  {
  }

  lemma ZeroIsOutside(r: IPRange)
    requires Accepted(r)
    ensures !InRange(r, NoAddr) && !Less(r.end, NoAddr)
  {
  }

  /** The walk answers f after k refusals. */
  ghost predicate WalkEnds(r: IPRange, p: Addr -> Verdict, f: Found, k: nat)
    requires Accepted(r)
  {
    && k <= Visited(r) && (forall j: nat :: j < k ==> p(Plus(r.start, j)) == No)
    && (f.Nothing? <==> k == Visited(r) && !Wraps(r))
    && (f.At? ==> f.ip == Plus(r.start, k) && p(f.ip) == Yes)
    && (f.Panicked? ==> p(Plus(r.start, k)) == Panic)
    && (f.OffTheEnd? <==> k == Visited(r) && Wraps(r) && p(NoAddr) == No)
  }

  /** The first address of the range for which p holds. */
  method Find(r: IPRange, p: Addr -> Verdict) returns (f: Found)
    requires r == NoRange || Accepted(r)
    ensures r == NoRange ==> f == (match p(NoAddr) case Yes => At(NoAddr) case Panic => Panicked case No => Nothing)
    ensures Accepted(r) ==> exists k :: WalkEnds(r, p, f, k)
  {
    if r == NoRange {
      // What follows the zero address is no address, but it is past the end.
      match p(NoAddr) {
        case Yes => return At(NoAddr);
        case Panic => return Panicked;
        case No => return Nothing;
      }
    }
    f := Walk(r, p);
  }

  method Walk(r: IPRange, p: Addr -> Verdict) returns (f: Found)
    requires Accepted(r)
    ensures exists k :: WalkEnds(r, p, f, k)
  {
    var ip := r.start;
    ghost var k := 0;
    VisitedInRange(r, 0);
    ZeroIsOutside(r);
    while !Less(r.end, ip)
      invariant k <= Visited(r) && ip == Plus(r.start, k)
      invariant forall j: nat :: j < k ==> p(Plus(r.start, j)) == No
      invariant Less(r.end, ip) <==> k == Visited(r) && !Wraps(r)
      decreases Visited(r) - k
    {
      VisitedInRange(r, k);
      match p(ip) {
        case Yes =>
          assert WalkEnds(r, p, At(ip), k);
          return At(ip);
        case Panic =>
          assert WalkEnds(r, p, Panicked, k);
          return Panicked;
        case No =>
      }
      if ip == NoAddr {
        assert WalkEnds(r, p, OffTheEnd, k);
        return OffTheEnd;
      }
      ip := Next(ip);
      k := k + 1;
      VisitedInRange(r, k);
    }
    assert WalkEnds(r, p, Nothing, k);
    f := Nothing;
  }
}
