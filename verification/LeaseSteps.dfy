/** Removing, updating and resetting leases: exactly when the lease structures stay in agreement. */
module LeaseSteps {
  import opened Common
  import opened Netip
  import opened IPRanges
  import opened LeaseSpec

  /** The state without the entries under the keys of l. */
  function Removed(ranges: Ranges, s: State, l: Lease, i: nat): State
    requires Shaped(ranges, s) && i < |ranges|
  {
    State(s.byAddr - {l.ip}, s.byName - {Lower(l.hostname)},
          s.leases[i := s.leases[i] - {l.mac}],
          s.offsets[i := s.offsets[i] - {OffsetOf(ranges[i], l.ip)}])
  }

  /** Removing by the keys of l: each key must be there, but nothing checks that they name one lease. */
  function RemoveLease(ranges: Ranges, s: State, l: Lease): (State, Option<LeaseError>)
    requires Shaped(ranges, s)
  {
    var i := IfaceFor(ranges, l.ip);
    if i.None? then (s, Some(NoInterface))
    else if l.ip !in s.byAddr then (s, Some(NoLeaseForAddr))
    else if Lower(l.hostname) !in s.byName then (s, Some(NoLeaseForName))
    else if l.mac !in s.leases[i.value] then (s, Some(NoLeaseForMAC))
    else (Removed(ranges, s, l, i.value), None)
  }

  /** An interface is responsible for the address of l, and each of the three keys of l is taken there. */
  predicate KeysHeld(ranges: Ranges, s: State, l: Lease)
    requires Shaped(ranges, s)
  {
    var i := IfaceFor(ranges, l.ip);
    i.Some? && l.ip in s.byAddr && Lower(l.hostname) in s.byName && l.mac in s.leases[i.value]
  }

  /** Which error a removal gives: the first of its reasons, in terms of what is held. */
  lemma RemoveErrorIs(ranges: Ranges, s: State, l: Lease)
    requires Consistent(ranges, s)
    ensures var err := RemoveLease(ranges, s, l).1;
            var i := IfaceFor(ranges, l.ip);
            var addr := exists o :: InAddr(s, o) && o.ip == l.ip;
            var name := exists o :: InAddr(s, o) && Lower(o.hostname) == Lower(l.hostname);
            var mac := exists o :: InAddr(s, o) && IfaceFor(ranges, o.ip) == i && o.mac == l.mac;
            && (err == Some(NoInterface) <==> i.None?)
            && (err == Some(NoLeaseForAddr) <==> i.Some? && !addr)
            && (err == Some(NoLeaseForName) <==> i.Some? && addr && !name)
            && (err == Some(NoLeaseForMAC) <==> i.Some? && addr && name && !mac)
            && (err.None? <==> i.Some? && addr && name && mac)
  {
    KeysTakenIff(ranges, s, l);
  }

  /** Whether the keys of l are in the structures, in terms of what is held. */
  lemma KeysTakenIff(ranges: Ranges, s: State, l: Lease)
    requires Consistent(ranges, s)
    ensures l.ip in s.byAddr <==> exists o :: InAddr(s, o) && o.ip == l.ip
    ensures Lower(l.hostname) in s.byName <==> exists o :: InAddr(s, o) && Lower(o.hostname) == Lower(l.hostname)
    ensures IfaceFor(ranges, l.ip).Some? ==>
      var i := IfaceFor(ranges, l.ip);
      l.mac in s.leases[i.value] <==> exists o :: InAddr(s, o) && IfaceFor(ranges, o.ip) == i && o.mac == l.mac
  {
    var i := IfaceFor(ranges, l.ip);
    if l.ip in s.byAddr {
      assert InAddr(s, s.byAddr[l.ip]);
    }
    if Lower(l.hostname) in s.byName {
      assert InName(s, s.byName[Lower(l.hostname)]);
      assert InAddr(s, s.byName[Lower(l.hostname)]);
    }
    if i.Some? && l.mac in s.leases[i.value] {
      assert InIface(ranges, s, s.leases[i.value][l.mac]);
      assert InAddr(s, s.leases[i.value][l.mac]);
    }
    forall o | InAddr(s, o)
      ensures InName(s, o) && InIface(ranges, s, o)
    {
    }
  }

  /** The three keys of l name one lease. */
  predicate KeysAgree(s: State, l: Lease, i: nat)
    requires i < |s.leases| && l.ip in s.byAddr && Lower(l.hostname) in s.byName && l.mac in s.leases[i]
  {
    s.byAddr[l.ip] == s.byName[Lower(l.hostname)] == s.leases[i][l.mac]
  }

  ghost predicate IsTwin(ranges: Ranges, s: State, ip: Addr, other: Lease) {
    && InAddr(s, other) && other.ip != ip
    && IfaceFor(ranges, other.ip) == IfaceFor(ranges, ip) && WithoutZone(other.ip) == WithoutZone(ip)
  }

  /** Another lease of the same interface has the same address but for the zone. */
  ghost predicate HasTwin(ranges: Ranges, s: State, ip: Addr) {
    exists other :: IsTwin(ranges, s, ip, other)
  }

  lemma OffsetsWithout(r: IPRange, leases: map<Mac, Lease>, mac: Mac)
    requires mac in leases
    ensures LeasedOffsets(r, leases - {mac}) == LeasedOffsets(r, leases) - {OffsetOf(r, leases[mac].ip)} <==>
      forall m :: m in leases && m != mac ==> OffsetOf(r, leases[m].ip) != OffsetOf(r, leases[mac].ip)
  {
    var rest := leases - {mac};
    var gone := OffsetOf(r, leases[mac].ip);
    forall m | m in leases && m != mac
      ensures OffsetOf(r, leases[m].ip) in LeasedOffsets(r, rest)
    {
      assert m in rest && rest[m] == leases[m];
    }
    forall k | k in LeasedOffsets(r, rest)
      ensures exists m :: m in leases && m != mac && OffsetOf(r, leases[m].ip) == k
    {
      var m :| m in rest && OffsetOf(r, rest[m].ip) == k;
      assert m in leases && leases[m] == rest[m];
    }
  }

  /** In an agreeing state, twins are the leases whose offset is that of ip. */
  lemma TwinsShareOffset(ranges: Ranges, s: State, l: Lease, i: nat)
    requires Consistent(ranges, s) && ValidRanges(ranges) && InAddr(s, l) && IfaceFor(ranges, l.ip) == Some(i)
    ensures HasTwin(ranges, s, l.ip) <==>
      exists m :: m in s.leases[i] && m != l.mac && OffsetOf(ranges[i], s.leases[i][m].ip) == OffsetOf(ranges[i], l.ip)
  {
    assert InIface(ranges, s, l);
    if other :| IsTwin(ranges, s, l.ip, other) {
      assert InIface(ranges, s, other);
      SameOffset(ranges[i], other.ip, l.ip);
      assert other.mac in s.leases[i] && other.mac != l.mac;
    }
    if m :| m in s.leases[i] && m != l.mac && OffsetOf(ranges[i], s.leases[i][m].ip) == OffsetOf(ranges[i], l.ip) {
      var other := s.leases[i][m];
      assert InIface(ranges, s, other) && InAddr(s, other);
      SameOffset(ranges[i], other.ip, l.ip);
      assert IsTwin(ranges, s, l.ip, other);
    }
  }

  lemma SameOffset(r: IPRange, a: Addr, b: Addr)
    requires (r == NoRange || Accepted(r)) && InRange(r, a) && InRange(r, b)
    ensures OffsetOf(r, a) == OffsetOf(r, b) <==> WithoutZone(a) == WithoutZone(b)
  {
    if r != NoRange {
      ZeroIsOutside(r);
      SameOffsetIff(r, a, b);
    }
  }

  lemma RemovedSets(ranges: Ranges, s: State, l: Lease, i: nat)
    requires Consistent(ranges, s) && IfaceFor(ranges, l.ip) == Some(i)
    requires l.ip in s.byAddr && Lower(l.hostname) in s.byName && l.mac in s.leases[i]
    ensures var t := Removed(ranges, s, l, i);
            && Keyed(ranges, t)
            && (SameLeases(ranges, t) <==> KeysAgree(s, l, i))
            && (KeysAgree(s, l, i) ==> forall o :: InAddr(t, o) <==> InAddr(s, o) && o != s.byAddr[l.ip])
  {
    var t := Removed(ranges, s, l, i);
    var a, n, x := s.byAddr[l.ip], s.byName[Lower(l.hostname)], s.leases[i][l.mac];
    assert InAddr(s, a) && InName(s, n) && InIface(ranges, s, x);
    assert InAddr(s, n) && InAddr(s, x);
    if a == n == x {
      forall o
        ensures InAddr(t, o) <==> InAddr(s, o) && o != a
        ensures InName(t, o) <==> InName(s, o) && o != a
        ensures InIface(ranges, t, o) <==> InIface(ranges, s, o) && o != a
      {
      }
    } else if a != n {
      assert InAddr(t, n) && !InName(t, n);
    } else {
      assert InAddr(t, x) && !InIface(ranges, t, x);
    }
  }

  /**
   * The removal of l, where it reports no error, keeps the structures in agreement exactly when the
   * three keys of l name one lease and no other lease of the interface has the same address in
   * another zone.
   */
  lemma RemoveKeepsIff(ranges: Ranges, s: State, l: Lease)
    requires Consistent(ranges, s) && ValidRanges(ranges) && RemoveLease(ranges, s, l).1.None?
    ensures Consistent(ranges, RemoveLease(ranges, s, l).0) <==>
      KeysAgree(s, l, IfaceFor(ranges, l.ip).value) && !HasTwin(ranges, s, l.ip)
  {
    var i := IfaceFor(ranges, l.ip).value;
    RemovedSets(ranges, s, l, i);
    if KeysAgree(s, l, i) {
      var x := s.byAddr[l.ip];
      assert InAddr(s, x);
      TwinsShareOffset(ranges, s, x, i);
      OffsetsWithout(ranges[i], s.leases[i], l.mac);
    }
  }

  /** The removal of l as documented: a lease that is held goes, just it, and for any other l there is an error. */
  ghost predicate RemovedAsDocumented(ranges: Ranges, s: State, l: Lease)
    requires Shaped(ranges, s)
  {
    var (t, err) := RemoveLease(ranges, s, l);
    if InAddr(s, l) then err.None? && Consistent(ranges, t) && forall o :: InAddr(t, o) <==> InAddr(s, o) && o != l
    else err.Some? && t == s
  }

  /**
   * The removal is as documented exactly when l is held and no other zone of its address is leased,
   * or l is not held and one of its keys is free.
   */
  lemma RemovedAsDocumentedIff(ranges: Ranges, s: State, l: Lease)
    requires Consistent(ranges, s) && ValidRanges(ranges)
    ensures RemovedAsDocumented(ranges, s, l) <==>
      if InAddr(s, l) then !HasTwin(ranges, s, l.ip) else !KeysHeld(ranges, s, l)
  {
    if InAddr(s, l) {
      IndexedKeysAgree(ranges, s, l.ip);
      RemoveKeepsIff(ranges, s, l);
      RemovedSets(ranges, s, l, IfaceFor(ranges, l.ip).value);
    }
  }

  /**
   * An accepted removal leaves an agreeing state without l, and all else, exactly when the lease at
   * the address of l is l itself and no other zone of the address is leased.
   */
  lemma RemovesJustItIff(ranges: Ranges, s: State, l: Lease)
    requires Consistent(ranges, s) && ValidRanges(ranges) && RemoveLease(ranges, s, l).1.None?
    ensures var t := RemoveLease(ranges, s, l).0;
            (Consistent(ranges, t) && InAddr(s, l) && forall o :: InAddr(t, o) <==> InAddr(s, o) && o != l) <==>
            s.byAddr[l.ip] == l && !HasTwin(ranges, s, l.ip)
  {
    RemovedAsDocumentedIff(ranges, s, l);
  }

  /** Removing whatever lease has the address. */
  function RemoveByAddr(ranges: Ranges, s: State, addr: Addr): (State, Option<LeaseError>)
    requires Shaped(ranges, s)
  {
    if IfaceFor(ranges, addr).None? then (s, Some(NoInterface))
    else if addr !in s.byAddr then (s, Some(NoLeaseForAddr))
    else RemoveLease(ranges, s, s.byAddr[addr])
  }

  lemma IndexedKeysAgree(ranges: Ranges, s: State, addr: Addr)
    requires Consistent(ranges, s) && addr in s.byAddr
    ensures var l := s.byAddr[addr];
            && l.ip == addr && IfaceFor(ranges, addr).Some? && RemoveLease(ranges, s, l).1.None?
            && KeysAgree(s, l, IfaceFor(ranges, addr).value)
  {
    var l := s.byAddr[addr];
    assert InAddr(s, l);
    assert InName(s, l) && InIface(ranges, s, l);
  }

  /** The removal of an indexed lease removes just it, and fails to agree only over a twin. */
  lemma RemoveByAddrKeepsIff(ranges: Ranges, s: State, addr: Addr)
    requires Consistent(ranges, s) && ValidRanges(ranges)
    ensures var (t, err) := RemoveByAddr(ranges, s, addr);
            && (err.None? <==> addr in s.byAddr)
            && (err.Some? ==> t == s)
            && (err.None? ==> (Consistent(ranges, t) <==> !HasTwin(ranges, s, addr)))
            && (err.None? ==> forall o :: InAddr(t, o) <==> InAddr(s, o) && o.ip != addr)
  {
    if addr in s.byAddr {
      IndexedKeysAgree(ranges, s, addr);
      RemoveKeepsIff(ranges, s, s.byAddr[addr]);
      RemovedSets(ranges, s, s.byAddr[addr], IfaceFor(ranges, addr).value);
    }
  }

  /** Reset forgets the leases but not the leased offsets. */
  function Reset(s: State): State {
    State(map[], map[], seq(|s.leases|, _ => map[]), s.offsets)
  }

  /** After a reset nothing stands in the way of a lease but the want of an interface, and no old one is left. */
  lemma AddAfterReset(ranges: Ranges, s: State, l: Lease)
    requires Shaped(ranges, s)
    ensures var (t, err) := AddLease(ranges, Reset(s), l);
            && (err.None? <==> IfaceFor(ranges, l.ip).Some?)
            && (err.None? ==> t.byAddr == map[l.ip := l] && t.byName == map[Lower(l.hostname) := l])
            && (err.None? ==> forall i :: 0 <= i < |ranges| ==>
                 t.leases[i] == if IfaceFor(ranges, l.ip) == Some(i) then map[l.mac := l] else map[])
            && (err.None? ==> forall i :: 0 <= i < |ranges| ==> s.offsets[i] <= t.offsets[i])
  {
  }

  /** A reset keeps the structures in agreement exactly when there was no lease to forget. */
  lemma ResetKeepsIff(ranges: Ranges, s: State)
    requires Consistent(ranges, s)
    ensures Consistent(ranges, Reset(s)) <==> s.byAddr == map[]
  {
    var t := Reset(s);
    if s.byAddr == map[] {
      forall i, m | 0 <= i < |ranges| && m in s.leases[i]
        ensures InAddr(s, s.leases[i][m])
      {
        assert InIface(ranges, s, s.leases[i][m]);
      }
      assert forall i :: 0 <= i < |ranges| ==> s.leases[i] == map[];
      assert forall l :: !InAddr(t, l) && !InName(t, l) && !InIface(ranges, t, l);
    } else {
      var a :| a in s.byAddr;
      var l := s.byAddr[a];
      assert InAddr(s, l);
      assert InIface(ranges, s, l);
      var i := IfaceFor(ranges, l.ip).value;
      assert OffsetOf(ranges[i], l.ip) in LeasedOffsets(ranges[i], s.leases[i]);
      assert LeasedOffsets(ranges[i], t.leases[i]) == {};
      assert t.offsets[i] != LeasedOffsets(ranges[i], t.leases[i]);
    }
  }
}
