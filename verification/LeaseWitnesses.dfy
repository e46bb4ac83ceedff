/** Agreeing states, with inputs, on which laws of the lease structures fail. */
module LeaseWitnesses {
  import opened Common
  import opened Netip
  import opened IPRanges
  import opened LeaseSpec
  import opened LeaseSteps
  import opened LeaseUpdate
  import opened FreeAddress

  const MAC1: Mac := [0, 0, 0, 0, 0, 1]
  const MAC2: Mac := [0, 0, 0, 0, 0, 2]

  /** Two interfaces. */
  const POOLS: Ranges := [IPRange(V4(100), V4(199)), IPRange(V4(200), V4(299))]

  const POOL6: Ranges := [IPRange(V6(0xFE80, ""), V6(0xFEFF, ""))]

  function Held(ranges: Ranges, l: Lease): State {
    AddLease(ranges, EmptyState(|ranges|), l).0
  }

  /** What adding two leases leaves. */
  function BothHeld(ranges: Ranges, a: Lease, b: Lease): State {
    AddLease(ranges, Held(ranges, a), b).0
  }

  lemma PoolsAreValid()
    ensures ValidRanges(POOLS) && ValidRanges(POOL6)
    ensures forall v: u32 :: 100 <= v < 200 ==> IfaceFor(POOLS, V4(v)) == Some(0)
    ensures forall v: u32 :: 200 <= v < 300 ==> IfaceFor(POOLS, V4(v)) == Some(1)
    ensures forall v: u128, z :: 0xFE81 <= v < 0xFEFF ==> IfaceFor(POOL6, V6(v, z)) == Some(0)
  {
  }

  /** A lease can be added to an empty state of its interface. */
  lemma HoldsOne(ranges: Ranges, l: Lease)
    requires IfaceFor(ranges, l.ip).Some?
    ensures Consistent(ranges, Held(ranges, l))
    ensures forall o :: InAddr(Held(ranges, l), o) <==> o == l
  {
    EmptyIsConsistent(ranges);
    AddKeeps(ranges, EmptyState(|ranges|), l);
  }

  lemma HoldsBoth(ranges: Ranges, a: Lease, b: Lease)
    requires IfaceFor(ranges, a.ip).Some? && IfaceFor(ranges, b.ip).Some?
    requires a.ip != b.ip && Lower(a.hostname) != Lower(b.hostname)
    requires IfaceFor(ranges, a.ip) == IfaceFor(ranges, b.ip) ==> a.mac != b.mac
    ensures Consistent(ranges, BothHeld(ranges, a, b))
    ensures forall o :: InAddr(BothHeld(ranges, a, b), o) <==> o == a || o == b
  {
    HoldsOne(ranges, a);
    AddsIff(ranges, Held(ranges, a), b);
    AddKeeps(ranges, Held(ranges, a), b);
  }

  lemma NamesDiffer()
    ensures Lower("a") != Lower("b")
  {
    assert Lower("a")[0] != Lower("b")[0];
  }

  /** A removal is accepted for a lease that is not held: it differs from the held one in being static. */
  lemma RemovalOfUnequal()
    ensures var a := Lease(V4(110), 0, "a", MAC1, true);
            var s, l := Held(POOLS, a), a.(isStatic := false);
            && Consistent(POOLS, s) && !InAddr(s, l) && RemoveLease(POOLS, s, l).1.None?
            && Consistent(POOLS, RemoveLease(POOLS, s, l).0) && !RemovedAsDocumented(POOLS, s, l)
  {
    var a := Lease(V4(110), 0, "a", MAC1, true);
    var s, l := Held(POOLS, a), a.(isStatic := false);
    PoolsAreValid();
    HoldsOne(POOLS, a);
    assert InAddr(s, a);
    assert InName(s, a) && InIface(POOLS, s, a);
    RemoveKeepsIff(POOLS, s, l);
    TwinNeedsTwo(POOLS, s, a);
  }

  lemma TwinNeedsTwo(ranges: Ranges, s: State, a: Lease)
    requires forall o :: InAddr(s, o) ==> o == a
    ensures !HasTwin(ranges, s, a.ip)
  {
  }

  /** A removal with the keys of two leases is accepted, and takes both out of some structures only. */
  lemma RemovalByMixedKeys()
    ensures var a, b := Lease(V4(110), 0, "a", MAC1, true), Lease(V4(111), 0, "b", MAC2, true);
            var s, l := BothHeld(POOLS, a, b), a.(hostname := "b");
            && Consistent(POOLS, s) && RemoveLease(POOLS, s, l).1.None?
            && !Consistent(POOLS, RemoveLease(POOLS, s, l).0)
  {
    var a, b := Lease(V4(110), 0, "a", MAC1, true), Lease(V4(111), 0, "b", MAC2, true);
    var s, l := BothHeld(POOLS, a, b), a.(hostname := "b");
    PoolsAreValid();
    NamesDiffer();
    HoldsBoth(POOLS, a, b);
    assert InAddr(s, a) && InAddr(s, b);
    assert InName(s, b) && InIface(POOLS, s, a);
    RemoveKeepsIff(POOLS, s, l);
  }

  lemma TwinBreaksRemoval(ranges: Ranges, s: State, a: Lease, b: Lease)
    requires Consistent(ranges, s) && ValidRanges(ranges) && InAddr(s, a) && IsTwin(ranges, s, a.ip, b)
    ensures RemoveByAddr(ranges, s, a.ip).1.None? && !Consistent(ranges, RemoveByAddr(ranges, s, a.ip).0)
  {
    RemoveByAddrKeepsIff(ranges, s, a.ip);
  }

  lemma TwinsHeld(a: Lease, b: Lease)
    requires a.ip == V6(0xFE85, "eth0") && b.ip == V6(0xFE85, "eth1")
    requires Lower(a.hostname) != Lower(b.hostname) && a.mac != b.mac
    ensures var s := BothHeld(POOL6, a, b);
            Consistent(POOL6, s) && ValidRanges(POOL6) && InAddr(s, a) && IsTwin(POOL6, s, a.ip, b)
  {
    PoolsAreValid();
    HoldsBoth(POOL6, a, b);
    assert InAddr(BothHeld(POOL6, a, b), b);
  }

  /** Removing one of two leases of an address in different zones clears the bit of both. */
  lemma RemovalOfTwin()
    ensures var a, b := Lease(V6(0xFE85, "eth0"), 0, "a", MAC1, true), Lease(V6(0xFE85, "eth1"), 0, "b", MAC2, true);
            var s := BothHeld(POOL6, a, b);
            && Consistent(POOL6, s) && RemoveByAddr(POOL6, s, a.ip).1.None?
            && !Consistent(POOL6, RemoveByAddr(POOL6, s, a.ip).0)
  {
    var a, b := Lease(V6(0xFE85, "eth0"), 0, "a", MAC1, true), Lease(V6(0xFE85, "eth1"), 0, "b", MAC2, true);
    NamesDiffer();
    TwinsHeld(a, b);
    TwinBreaksRemoval(POOL6, BothHeld(POOL6, a, b), a, b);
  }

  /** After a reset the offset of a lease that is gone stays leased. */
  lemma ResetLeavesOffset()
    ensures var s := Held(POOLS, Lease(V4(110), 0, "a", MAC1, true));
            Consistent(POOLS, s) && !Consistent(POOLS, Reset(s)) && 10 in Reset(s).offsets[0]
  {
    var a := Lease(V4(110), 0, "a", MAC1, true);
    PoolsAreValid();
    HoldsOne(POOLS, a);
    assert InAddr(Held(POOLS, a), a);
    ResetKeepsIff(POOLS, Held(POOLS, a));
    assert InRange(POOLS[0], V4(110));
  }

  /** Moving a lease to a free address leaves the bit of the old one and does not set that of the new. */
  lemma UpdateThatMoves()
    ensures var a := Lease(V4(110), 0, "a", MAC1, true);
            var s, l := Held(POOLS, a), a.(ip := V4(120));
            && Consistent(POOLS, s) && UpdateLease(POOLS, s, l).1.None?
            && !Consistent(POOLS, UpdateLease(POOLS, s, l).0)
  {
    var a := Lease(V4(110), 0, "a", MAC1, true);
    var s, l := Held(POOLS, a), a.(ip := V4(120));
    PoolsAreValid();
    HoldsOne(POOLS, a);
    assert InAddr(s, a);
    assert InName(s, a) && InIface(POOLS, s, a);
    assert l.ip !in s.byAddr by {
      if l.ip in s.byAddr {
        assert InAddr(s, s.byAddr[l.ip]);
      }
    }
    UpdateKeepsIff(POOLS, s, l, 0);
    assert !HeldByOther(POOLS, s, a, l.ip, 0);
  }

  /** An update may take the name that the same hardware address has on another interface. */
  lemma UpdateThatTakesName()
    ensures var a, b := Lease(V4(110), 0, "a", MAC1, true), Lease(V4(210), 0, "b", MAC1, true);
            var s, l := BothHeld(POOLS, a, b), a.(hostname := "b");
            && Consistent(POOLS, s) && UpdateLease(POOLS, s, l).1.None? && !AcceptsAsDocumented(POOLS, s, l, 0)
            && !Consistent(POOLS, UpdateLease(POOLS, s, l).0)
  {
    var a, b := Lease(V4(110), 0, "a", MAC1, true), Lease(V4(210), 0, "b", MAC1, true);
    var s, l := BothHeld(POOLS, a, b), a.(hostname := "b");
    PoolsAreValid();
    NamesDiffer();
    HoldsBoth(POOLS, a, b);
    assert InAddr(s, a) && InAddr(s, b);
    assert InName(s, b) && InIface(POOLS, s, a);
    UpdateKeepsIff(POOLS, s, l, 0);
    TakesAnothersIff(POOLS, s, l, 0);
  }

  const LAST: u32 := 0xFFFF_FFFF

  /** A range that ends at the last IPv4 address. */
  const LAST_POOL: Ranges := [IPRange(V4(LAST - 1), V4(LAST))]

  /** In a full range that ends at the last address of the family every search panics. */
  lemma FullLastRangePanics()
    ensures var a, b := Lease(V4(LAST - 1), 0, "a", MAC1, true), Lease(V4(LAST), 0, "b", MAC2, true);
            var s := BothHeld(LAST_POOL, a, b);
            && Accepted(LAST_POOL[0]) && Consistent(LAST_POOL, s) && Lowest(LAST_POOL[0], s.offsets[0], Panicked, 2)
            && forall f, k :: Lowest(LAST_POOL[0], s.offsets[0], f, k) ==> f == Panicked
  {
    var a, b := Lease(V4(LAST - 1), 0, "a", MAC1, true), Lease(V4(LAST), 0, "b", MAC2, true);
    var s := BothHeld(LAST_POOL, a, b);
    assert IfaceFor(LAST_POOL, a.ip) == Some(0) && IfaceFor(LAST_POOL, b.ip) == Some(0);
    NamesDiffer();
    HoldsBoth(LAST_POOL, a, b);
    assert InAddr(s, a) && InAddr(s, b);
    assert InIface(LAST_POOL, s, a) && InIface(LAST_POOL, s, b);
    assert OffsetOf(LAST_POOL[0], a.ip) == 0 && OffsetOf(LAST_POOL[0], b.ip) == 1;
    assert 0 in s.offsets[0] && 1 in s.offsets[0];
  }

  /** An IPv6 range that starts in a zone and whose end, as for any interface, has none. */
  const ZONED_POOL: Ranges := [IPRange(V6(0xFE, "eth0"), V6(0xFF, ""))]

  /** With one of two addresses leased every search finds nothing, because it never visits the other. */
  lemma ZonedStartMissesLast()
    ensures var s := Held(ZONED_POOL, Lease(V6(0xFE, "eth0"), 0, "a", MAC1, true));
            && Accepted(ZONED_POOL[0]) && Consistent(ZONED_POOL, s) && !Leased(ZONED_POOL, s, 0, V6(0xFF, ""))
            && Lowest(ZONED_POOL[0], s.offsets[0], Nothing, 1)
            && forall f, k :: Lowest(ZONED_POOL[0], s.offsets[0], f, k) ==> f == Nothing
  {
    var a := Lease(V6(0xFE, "eth0"), 0, "a", MAC1, true);
    var s := Held(ZONED_POOL, a);
    assert Accepted(ZONED_POOL[0]) && IfaceFor(ZONED_POOL, a.ip) == Some(0);
    HoldsOne(ZONED_POOL, a);
    assert InAddr(s, a);
    assert InIface(ZONED_POOL, s, a);
    assert OffsetOf(ZONED_POOL[0], a.ip) == 0;
    assert 0 in s.offsets[0];
    VisitsAllIff(ZONED_POOL[0]);
  }
}
