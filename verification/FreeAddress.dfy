/** The search for a free address, and when it finds one. */
module FreeAddress {
  import opened Common
  import opened Netip
  import opened IPRanges
  import opened LeaseSpec
  import opened LeaseSteps

  /** The question that nextIP asks about an address; outside of the range it panics. */
  function Probe(r: IPRange, taken: nat -> bool, ip: Addr): Verdict {
    var (offset, ok) := Offset(r, ip);
    if !ok then Panic else if taken(offset) then No else Yes
  }

  /** The address is leased to somebody on interface i, in some zone. */
  ghost predicate Leased(ranges: Ranges, s: State, i: nat, ip: Addr) {
    exists l :: InAddr(s, l) && IfaceFor(ranges, l.ip) == Some(i) && WithoutZone(l.ip) == WithoutZone(ip)
  }

  lemma OffsetLeased(ranges: Ranges, s: State, i: nat, ip: Addr)
    requires Consistent(ranges, s) && ValidRanges(ranges) && i < |ranges| && InRange(ranges[i], ip)
    ensures OffsetOf(ranges[i], ip) in s.offsets[i] <==> Leased(ranges, s, i, ip)
  {
    var r := ranges[i];
    forall m | m in s.leases[i]
      ensures InAddr(s, s.leases[i][m])
      ensures OffsetOf(r, s.leases[i][m].ip) == OffsetOf(r, ip) <==> WithoutZone(s.leases[i][m].ip) == WithoutZone(ip)
    {
      assert InIface(ranges, s, s.leases[i][m]);
      SameOffset(r, s.leases[i][m].ip, ip);
    }
    if l :| InAddr(s, l) && IfaceFor(ranges, l.ip) == Some(i) && WithoutZone(l.ip) == WithoutZone(ip) {
      assert InIface(ranges, s, l);
      assert s.leases[i][l.mac] == l;
    }
  }

  /** A set of numbers below n has all of them exactly when it has n. */
  lemma {:induction false} Pigeonhole(s: set<nat>, n: nat)
    requires forall k :: k in s ==> k < n
    ensures |s| <= n
    ensures |s| == n <==> forall k: nat :: k < n ==> k in s
  {
    if n == 0 {
      assert s == {};
    } else {
      var rest := s - {n - 1};
      Pigeonhole(rest, n - 1);
      if n - 1 in s {
        assert s == rest + {n - 1};
      } else {
        assert s == rest;
      }
    }
  }

  ghost function Below(s: set<nat>, n: nat): set<nat> {
    set k | k in s && k < n
  }

  /** The search over offsets stops at the first one that is not in bits, or after the last one it visits. */
  ghost predicate Lowest(r: IPRange, bits: set<nat>, f: Found, k: nat)
    requires Accepted(r)
  {
    && (forall j: nat :: j < k ==> j in bits)
    && (f.At? <==> k < Visited(r))
    && (f.At? ==> f.ip == Plus(r.start, k) && InRange(r, f.ip) && Offset(r, f.ip) == (k, true) && k !in bits)
    && (f.Nothing? <==> k == Visited(r) && !Wraps(r))
    && (f.Panicked? <==> k == Visited(r) && Wraps(r))
    && k <= Visited(r)
  }

  lemma WalkIsLowest(r: IPRange, bits: set<nat>, taken: nat -> bool, p: Addr -> Verdict, f: Found, k: nat)
    requires Accepted(r) && WalkEnds(r, p, f, k)
    requires forall ip :: p(ip) == Probe(r, taken, ip)
    requires forall n: nat :: taken(n) <==> n in bits
    ensures Lowest(r, bits, f, k)
  {
    forall j: nat | j < Visited(r)
      ensures Probe(r, taken, Plus(r.start, j)) == if j in bits then No else Yes
    {
      VisitedInRange(r, j);
    }
    VisitedInRange(r, k);
    ZeroIsOutside(r);
  }

  /** The search comes to its end exactly when as many offsets as it visits are taken. */
  lemma LowestIffRoom(r: IPRange, bits: set<nat>, f: Found, k: nat)
    requires Accepted(r) && Lowest(r, bits, f, k)
    ensures f.At? <==> |Below(bits, Visited(r))| < Visited(r)
  {
    Pigeonhole(Below(bits, Visited(r)), Visited(r));
    assert k in Below(bits, Visited(r)) <==> k in bits && k < Visited(r);
  }

  /** A search over interface i that refused k addresses ended as it must, in terms of the leases held. */
  ghost predicate Ends(ranges: Ranges, s: State, i: nat, f: Found, k: nat)
    requires i < |ranges| && Accepted(ranges[i])
  {
    && k <= Visited(ranges[i]) && (forall j: nat :: j < k ==> Leased(ranges, s, i, Plus(ranges[i].start, j)))
    && (f.At? <==> k < Visited(ranges[i]))
    && (f.At? ==> f.ip == Plus(ranges[i].start, k) && InRange(ranges[i], f.ip) && !Leased(ranges, s, i, f.ip))
    && (f.Panicked? <==> k == Visited(ranges[i]) && Wraps(ranges[i]))
    && (f.Nothing? <==> k == Visited(ranges[i]) && !Wraps(ranges[i]))
  }

  ghost predicate SearchEnds(ranges: Ranges, s: State, i: nat, f: Found)
    requires i < |ranges| && Accepted(ranges[i])
  {
    exists k :: Ends(ranges, s, i, f, k)
  }

  /**
   * The walk over interface i finds the lowest address, of those it visits, that no lease holds.  It
   * ends with nothing, or by a panic where the range reaches the last address of its family,
   * exactly when the leased offsets among those it visits are as many as it visits.
   */
  lemma NextIPFindsLowest(ranges: Ranges, s: State, i: nat, f: Found, k: nat)
    requires Consistent(ranges, s) && ValidRanges(ranges) && i < |ranges| && Accepted(ranges[i])
    requires Lowest(ranges[i], s.offsets[i], f, k)
    ensures Ends(ranges, s, i, f, k)
    ensures f.At? <==> |Below(s.offsets[i], Visited(ranges[i]))| < Visited(ranges[i])
  {
    var r := ranges[i];
    LowestIffRoom(r, s.offsets[i], f, k);
    forall j: nat | j < k
      ensures Leased(ranges, s, i, Plus(r.start, j))
    {
      VisitedInRange(r, j);
      OffsetLeased(ranges, s, i, Plus(r.start, j));
    }
    if f.At? {
      OffsetLeased(ranges, s, i, f.ip);
    }
  }

  /** No two leases of the map share an offset. */
  ghost predicate DistinctOffsets(r: IPRange, leases: map<Mac, Lease>) {
    forall m, n :: m in leases && n in leases && OffsetOf(r, leases[m].ip) == OffsetOf(r, leases[n].ip) ==> m == n
  }

  lemma {:induction false} CountOffsets(r: IPRange, leases: map<Mac, Lease>)
    requires DistinctOffsets(r, leases)
    ensures |LeasedOffsets(r, leases)| == |leases|
    decreases |leases|
  {
    if leases.Keys == {} {
      assert LeasedOffsets(r, leases) == {};
    } else {
      var m :| m in leases;
      var rest := leases - {m};
      assert leases.Keys == rest.Keys + {m};
      assert |leases.Keys| == |rest.Keys| + 1;
      OffsetsWithout(r, leases, m);
      CountOffsets(r, rest);
      assert OffsetOf(r, leases[m].ip) in LeasedOffsets(r, leases);
    }
  }

  /** How many addresses the range has. */
  function Size(r: IPRange): int {
    Value(r.end) - Value(r.start) + 1
  }

  /** The number of free addresses decides: every leased offset is below the size of the range. */
  lemma OffsetsBelowSize(ranges: Ranges, s: State, i: nat)
    requires Consistent(ranges, s) && ValidRanges(ranges) && i < |ranges|
    ensures forall n :: n in s.offsets[i] ==> n < Size(ranges[i])
  {
    forall m | m in s.leases[i]
      ensures OffsetOf(ranges[i], s.leases[i][m].ip) < Size(ranges[i])
    {
      if ranges[i] != NoRange {
        OffsetIsDifference(ranges[i], s.leases[i][m].ip);
      }
    }
  }

  ghost predicate NoZonesOn(s: State, i: nat)
    requires i < |s.leases|
  {
    forall m :: m in s.leases[i] ==> Zone(s.leases[i][m].ip) == ""
  }

  lemma NoZonesDistinct(ranges: Ranges, s: State, i: nat)
    requires Consistent(ranges, s) && ValidRanges(ranges) && i < |ranges| && NoZonesOn(s, i)
    ensures DistinctOffsets(ranges[i], s.leases[i])
  {
    var r := ranges[i];
    forall m, n |
      m in s.leases[i] && n in s.leases[i] && OffsetOf(r, s.leases[i][m].ip) == OffsetOf(r, s.leases[i][n].ip)
      ensures m == n
    {
      var a, b := s.leases[i][m], s.leases[i][n];
      assert InIface(ranges, s, a) && InIface(ranges, s, b);
      assert InAddr(s, a) && InAddr(s, b);
      SameOffset(r, a.ip, b.ip);
    }
  }

  /**
   * Where no address of the interface has a zone and its range does not end at the last address of its family, the
   * search finds none exactly when the interface holds as many leases as its range has addresses.
   */
  lemma NothingIffFull(ranges: Ranges, s: State, i: nat, f: Found, k: nat)
    requires Consistent(ranges, s) && ValidRanges(ranges) && i < |ranges| && Accepted(ranges[i])
    requires Lowest(ranges[i], s.offsets[i], f, k)
    requires Zone(ranges[i].start) == "" && NoZonesOn(s, i) && !IsLast(ranges[i].end)
    ensures f.Nothing? <==> |s.leases[i]| == Size(ranges[i])
    ensures f.At? <==> |s.leases[i]| < Size(ranges[i])
  {
    var r := ranges[i];
    LowestIffRoom(r, s.offsets[i], f, k);
    VisitsAllIff(r);
    CompareStringsPair(Zone(r.start), Zone(r.end));
    CountLeases(ranges, s, i);
    Pigeonhole(s.offsets[i], Size(r));
  }

  /** The search visits every address exactly when the zone of the start does not come after that of the end. */
  lemma VisitsAllIff(r: IPRange)
    requires Accepted(r)
    ensures Visited(r) == Size(r) <==> CompareStrings(Zone(r.start), Zone(r.end)) <= 0
    ensures Visited(r) == Size(r) || Visited(r) == Size(r) - 1
  {
    CompareStringsPair(Zone(r.start), Zone(r.end));
  }

  /** Without zones there are as many leased offsets as leases, all below the size of the range. */
  lemma CountLeases(ranges: Ranges, s: State, i: nat)
    requires Consistent(ranges, s) && ValidRanges(ranges) && i < |ranges| && NoZonesOn(s, i)
    ensures |s.offsets[i]| == |s.leases[i]| && Size(ranges[i]) >= 0
    ensures forall n :: n in s.offsets[i] ==> n < Size(ranges[i])
    ensures Below(s.offsets[i], Size(ranges[i])) == s.offsets[i]
  {
    OffsetsBelowSize(ranges, s, i);
    NoZonesDistinct(ranges, s, i);
    CountOffsets(ranges[i], s.leases[i]);
  }
}
