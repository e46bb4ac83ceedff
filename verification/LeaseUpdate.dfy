/** Updating a static lease, and runs of steps on the lease structures. */
module LeaseUpdate {
  import opened Common
  import opened Netip
  import opened IPRanges
  import opened LeaseSpec
  import opened LeaseSteps

  /** l in place of prev in the indexes; the leased offsets are not touched. */
  function Updated(ranges: Ranges, s: State, l: Lease, prev: Lease, i: nat): State
    requires Shaped(ranges, s) && i < |ranges|
  {
    State((s.byAddr - {prev.ip})[l.ip := l], (s.byName - {Lower(prev.hostname)})[Lower(l.hostname) := l],
          s.leases[i := Put(s.leases[i], l)], s.offsets)
  }

  /** The lease that l replaces: the one of the same hardware address on the interface of l's address. */
  function UpdateLease(ranges: Ranges, s: State, l: Lease): (State, Option<LeaseError>)
    requires Shaped(ranges, s)
  {
    var i := IfaceFor(ranges, l.ip);
    if i.None? then (s, Some(NoInterface))
    else if l.ip in s.byAddr && s.byAddr[l.ip].mac != l.mac then (s, Some(AddrExists))
    else if Lower(l.hostname) in s.byName && s.byName[Lower(l.hostname)].mac != l.mac then (s, Some(NameExists))
    else if l.mac !in s.leases[i.value] then (s, Some(NoLeaseForMAC))
    else (Updated(ranges, s, l, s.leases[i.value][l.mac], i.value), None)
  }

  /** The name of l is free, or is that of the lease it replaces. */
  predicate NameIsOwn(s: State, l: Lease, prev: Lease) {
    Lower(l.hostname) !in s.byName || s.byName[Lower(l.hostname)] == prev
  }

  /** What a successful update replaces, and what it cannot collide with. */
  lemma UpdateFacts(ranges: Ranges, s: State, l: Lease, i: nat)
    requires Consistent(ranges, s) && IfaceFor(ranges, l.ip) == Some(i) && UpdateLease(ranges, s, l).1.None?
    ensures var prev := s.leases[i][l.mac];
            && prev.mac == l.mac && IfaceFor(ranges, prev.ip) == Some(i)
            && InAddr(s, prev) && InName(s, prev) && InIface(ranges, s, prev) && KeysAgree(s, prev, i)
            && (l.ip in s.byAddr ==> s.byAddr[l.ip] == prev)
  {
    var prev := s.leases[i][l.mac];
    assert InIface(ranges, s, prev);
    assert InAddr(s, prev) && InName(s, prev);
    if l.ip in s.byAddr {
      assert InAddr(s, s.byAddr[l.ip]) && InIface(ranges, s, s.byAddr[l.ip]);
    }
  }

  /** With its own name, an update is the removal of the old lease and the addition of the new, offsets aside. */
  lemma UpdateIsRemoveAndAdd(ranges: Ranges, s: State, l: Lease, i: nat)
    requires Consistent(ranges, s) && IfaceFor(ranges, l.ip) == Some(i) && UpdateLease(ranges, s, l).1.None?
    requires NameIsOwn(s, l, s.leases[i][l.mac])
    ensures var prev := s.leases[i][l.mac];
            var t := Updated(ranges, s, l, prev, i);
            && Keyed(ranges, t) && SameLeases(ranges, t)
            && forall o :: InAddr(t, o) <==> (InAddr(s, o) && o != prev) || o == l
  {
    UpdateFacts(ranges, s, l, i);
    var prev := s.leases[i][l.mac];
    RemovedSets(ranges, s, prev, i);
    var r := Removed(ranges, s, prev, i);
    AddedSets(ranges, r, l, i);
    var t := Added(ranges, r, l, i);
    assert Put(s.leases[i] - {l.mac}, l) == Put(s.leases[i], l);
    assert t.(offsets := s.offsets) == Updated(ranges, s, l, prev, i);
    SameIndexes(ranges, t, Updated(ranges, s, l, prev, i));
  }

  /** Whether leases are keyed and the same does not depend on the offsets. */
  lemma SameIndexes(ranges: Ranges, s: State, t: State)
    requires Shaped(ranges, s) && Shaped(ranges, t) && t == s.(offsets := t.offsets)
    requires Keyed(ranges, s) && SameLeases(ranges, s)
    ensures Keyed(ranges, t) && SameLeases(ranges, t)
    ensures forall o :: InAddr(t, o) <==> InAddr(s, o)
  {
    assert forall o ::
        InAddr(t, o) == InAddr(s, o) && InName(t, o) == InName(s, o) && InIface(ranges, t, o) == InIface(ranges, s, o);
  }

  /** With the name of a lease elsewhere, an update takes that lease out of the names alone. */
  lemma ForeignNameBreaks(ranges: Ranges, s: State, l: Lease, i: nat)
    requires Consistent(ranges, s) && IfaceFor(ranges, l.ip) == Some(i) && UpdateLease(ranges, s, l).1.None?
    requires !NameIsOwn(s, l, s.leases[i][l.mac])
    ensures !SameLeases(ranges, Updated(ranges, s, l, s.leases[i][l.mac], i))
  {
    UpdateFacts(ranges, s, l, i);
    var e := s.byName[Lower(l.hostname)];
    var t := Updated(ranges, s, l, s.leases[i][l.mac], i);
    assert InName(s, e);
    assert InAddr(s, e);
    assert InAddr(t, e) && !InName(t, e);
  }

  /** The offsets of the leases of an interface other than that of mac. */
  ghost function OtherOffsets(r: IPRange, leases: map<Mac, Lease>, mac: Mac): set<nat> {
    LeasedOffsets(r, leases - {mac})
  }

  lemma OffsetsAround(r: IPRange, leases: map<Mac, Lease>, mac: Mac, l: Lease)
    requires mac in leases && l.mac == mac
    ensures LeasedOffsets(r, leases) == OtherOffsets(r, leases, mac) + {OffsetOf(r, leases[mac].ip)}
    ensures LeasedOffsets(r, Put(leases, l)) == OtherOffsets(r, leases, mac) + {OffsetOf(r, l.ip)}
  {
    var rest := leases - {mac};
    assert Put(rest, leases[mac].(mac := mac)).Keys == leases.Keys;
    OffsetsWith(r, rest, l);
    assert Put(rest, l) == Put(leases, l);
    OffsetsWith(r, rest, leases[mac].(mac := mac));
    assert forall m :: m in leases ==>
        OffsetOf(r, leases[m].ip) == OffsetOf(r, Put(rest, leases[mac].(mac := mac))[m].ip);
  }

  ghost predicate IsOther(ranges: Ranges, s: State, prev: Lease, ip: Addr, i: nat, o: Lease) {
    InAddr(s, o) && o != prev && IfaceFor(ranges, o.ip) == Some(i) && WithoutZone(o.ip) == WithoutZone(ip)
  }

  /** A lease of interface i other than prev has the address ip, whatever the zone. */
  ghost predicate HeldByOther(ranges: Ranges, s: State, prev: Lease, ip: Addr, i: nat) {
    exists o :: IsOther(ranges, s, prev, ip, i, o)
  }

  lemma OthersHold(ranges: Ranges, s: State, prev: Lease, ip: Addr, i: nat)
    requires Consistent(ranges, s) && ValidRanges(ranges) && InAddr(s, prev) && InIface(ranges, s, prev)
    requires IfaceFor(ranges, prev.ip) == Some(i) && i < |ranges| && InRange(ranges[i], ip)
    ensures OffsetOf(ranges[i], ip) in OtherOffsets(ranges[i], s.leases[i], prev.mac) <==>
      HeldByOther(ranges, s, prev, ip, i)
  {
    var r, rest := ranges[i], s.leases[i] - {prev.mac};
    forall m | m in rest
      ensures OffsetOf(r, rest[m].ip) == OffsetOf(r, ip) <==> IsOther(ranges, s, prev, ip, i, rest[m])
    {
      assert InIface(ranges, s, rest[m]);
      assert InAddr(s, rest[m]);
      SameOffset(r, rest[m].ip, ip);
    }
    forall o | IsOther(ranges, s, prev, ip, i, o)
      ensures o.mac in rest && rest[o.mac] == o
    {
      assert InIface(ranges, s, o);
    }
  }

  /**
   * An update that reports no error keeps the structures in agreement exactly when the name does not
   * belong to a lease of another interface, and the address either does not change but for the zone
   * or both the old and the new one are also held by others.
   */
  lemma UpdateKeepsIff(ranges: Ranges, s: State, l: Lease, i: nat)
    requires Consistent(ranges, s) && ValidRanges(ranges)
    requires IfaceFor(ranges, l.ip) == Some(i) && UpdateLease(ranges, s, l).1.None?
    ensures var prev := s.leases[i][l.mac];
            Consistent(ranges, UpdateLease(ranges, s, l).0) <==>
            NameIsOwn(s, l, prev) &&
            (WithoutZone(l.ip) == WithoutZone(prev.ip) ||
             (HeldByOther(ranges, s, prev, l.ip, i) && HeldByOther(ranges, s, prev, prev.ip, i)))
  {
    var r, prev := ranges[i], s.leases[i][l.mac];
    UpdateFacts(ranges, s, l, i);
    if NameIsOwn(s, l, prev) {
      UpdateIsRemoveAndAdd(ranges, s, l, i);
    } else {
      ForeignNameBreaks(ranges, s, l, i);
    }
    OffsetsAround(r, s.leases[i], l.mac, l);
    OthersHold(ranges, s, prev, l.ip, i);
    OthersHold(ranges, s, prev, prev.ip, i);
    SameOffset(r, l.ip, prev.ip);
    SetsAround(OtherOffsets(r, s.leases[i], l.mac), OffsetOf(r, prev.ip), OffsetOf(r, l.ip));
  }

  lemma SetsAround(rest: set<nat>, a: nat, b: nat)
    ensures rest + {a} == rest + {b} <==> a == b || (a in rest && b in rest)
  {
  }

  /** A held lease other than prev has the address or the name of l. */
  ghost predicate MatchesAnother(s: State, l: Lease, prev: Lease) {
    exists o :: InAddr(s, o) && o != prev && (o.ip == l.ip || Lower(o.hostname) == Lower(l.hostname))
  }

  /** An accepted update takes a value of another lease exactly when the name belongs to one. */
  lemma TakesAnothersIff(ranges: Ranges, s: State, l: Lease, i: nat)
    requires Consistent(ranges, s) && IfaceFor(ranges, l.ip) == Some(i) && UpdateLease(ranges, s, l).1.None?
    ensures MatchesAnother(s, l, s.leases[i][l.mac]) <==> !NameIsOwn(s, l, s.leases[i][l.mac])
  {
  }

  lemma TakenIsAnothers(ranges: Ranges, s: State, l: Lease, prev: Lease)
    requires Consistent(ranges, s) && TakenByOther(s, l) && prev.mac == l.mac
    ensures MatchesAnother(s, l, prev)
  {
  }

  /** The update is accepted as documented: the hardware address has a lease, and nothing else matches another. */
  ghost predicate AcceptsAsDocumented(ranges: Ranges, s: State, l: Lease, i: nat)
    requires Shaped(ranges, s) && i < |ranges|
  {
    UpdateLease(ranges, s, l).1.None? <==> l.mac in s.leases[i] && !MatchesAnother(s, l, s.leases[i][l.mac])
  }

  /**
   * That holds exactly when l is not one to replace a lease, or its name is free or that of the lease
   * it replaces.
   */
  lemma AcceptsAsDocumentedIff(ranges: Ranges, s: State, l: Lease, i: nat)
    requires Consistent(ranges, s) && IfaceFor(ranges, l.ip) == Some(i)
    ensures AcceptsAsDocumented(ranges, s, l, i) <==> (CanReplace(ranges, s, l) ==> NameIsOwn(s, l, s.leases[i][l.mac]))
  {
  }

  /** Somebody with another hardware address has the address or the name of l. */
  predicate TakenByOther(s: State, l: Lease) {
    (l.ip in s.byAddr && s.byAddr[l.ip].mac != l.mac) ||
    (Lower(l.hostname) in s.byName && s.byName[Lower(l.hostname)].mac != l.mac)
  }

  /** The interface for l has a lease of its hardware address, and nobody else stands in the way. */
  predicate CanReplace(ranges: Ranges, s: State, l: Lease)
    requires Shaped(ranges, s)
  {
    var i := IfaceFor(ranges, l.ip);
    i.Some? && l.mac in s.leases[i.value] && !TakenByOther(s, l)
  }

  datatype Op = Add(l: Lease) | Remove(l: Lease) | RemoveAddr(addr: Addr) | Update(l: Lease) | ResetAll

  function Step(ranges: Ranges, s: State, op: Op): (t: State)
    requires Shaped(ranges, s)
    ensures Shaped(ranges, t)
  {
    match op
    case Add(l) => AddLease(ranges, s, l).0
    case Remove(l) => RemoveLease(ranges, s, l).0
    case RemoveAddr(a) => RemoveByAddr(ranges, s, a).0
    case Update(l) => UpdateLease(ranges, s, l).0
    case ResetAll => Reset(s)
  }

  /** What a caller must check before the step so that the structures go on to agree. */
  ghost predicate Safe(ranges: Ranges, s: State, op: Op)
    requires Shaped(ranges, s)
  {
    match op
    case Add(_) => true
    case Remove(l) =>
      KeysHeld(ranges, s, l) ==> KeysAgree(s, l, IfaceFor(ranges, l.ip).value) && !HasTwin(ranges, s, l.ip)
    case RemoveAddr(a) => a in s.byAddr ==> !HasTwin(ranges, s, a)
    case Update(l) =>
      CanReplace(ranges, s, l) ==>
        var i := IfaceFor(ranges, l.ip).value;
        var prev := s.leases[i][l.mac];
        NameIsOwn(s, l, prev) &&
        (WithoutZone(l.ip) == WithoutZone(prev.ip) ||
         (HeldByOther(ranges, s, prev, l.ip, i) && HeldByOther(ranges, s, prev, prev.ip, i)))
    case ResetAll => s.byAddr == map[]
  }

  /** A step keeps the structures in agreement if and only if it is safe. */
  lemma StepKeepsIff(ranges: Ranges, s: State, op: Op)
    requires Consistent(ranges, s) && ValidRanges(ranges)
    ensures Consistent(ranges, Step(ranges, s, op)) <==> Safe(ranges, s, op)
  {
    match op
    case Add(l) => AddKeeps(ranges, s, l);
    case Remove(l) =>
      if RemoveLease(ranges, s, l).1.None? {
        RemoveKeepsIff(ranges, s, l);
      }
    case RemoveAddr(a) => RemoveByAddrKeepsIff(ranges, s, a);
    case Update(l) =>
      if UpdateLease(ranges, s, l).1.None? {
        UpdateKeepsIff(ranges, s, l, IfaceFor(ranges, l.ip).value);
      }
    case ResetAll => ResetKeepsIff(ranges, s);
  }

  function Run(ranges: Ranges, s: State, ops: seq<Op>): State
    requires Shaped(ranges, s)
    decreases |ops|
  {
    if ops == [] then s else Run(ranges, Step(ranges, s, ops[0]), ops[1..])
  }

  /** Every state that the run passes through agrees. */
  ghost predicate AllAgree(ranges: Ranges, s: State, ops: seq<Op>)
    requires Shaped(ranges, s)
    decreases |ops|
  {
    ops != [] ==>
      var t := Step(ranges, s, ops[0]);
      Consistent(ranges, t) && AllAgree(ranges, t, ops[1..])
  }

  /** Every step of the run is safe where it is taken. */
  ghost predicate AllSafe(ranges: Ranges, s: State, ops: seq<Op>)
    requires Shaped(ranges, s)
    decreases |ops|
  {
    ops != [] ==>
      Safe(ranges, s, ops[0]) && AllSafe(ranges, Step(ranges, s, ops[0]), ops[1..])
  }

  /** Over any run of the five operations every state agrees if and only if every step is safe. */
  lemma {:induction false} RunKeepsIff(ranges: Ranges, s: State, ops: seq<Op>)
    requires Consistent(ranges, s) && ValidRanges(ranges)
    ensures AllAgree(ranges, s, ops) <==> AllSafe(ranges, s, ops)
    ensures AllSafe(ranges, s, ops) ==> Consistent(ranges, Run(ranges, s, ops))
    decreases |ops|
  {
    if ops != [] {
      StepKeepsIff(ranges, s, ops[0]);
      if Safe(ranges, s, ops[0]) {
        RunKeepsIff(ranges, Step(ranges, s, ops[0]), ops[1..]);
      }
    }
  }

  /** Steps that never need a check as long as no address has a zone. */
  predicate ZoneFree(op: Op) {
    op.RemoveAddr? || (op.Add? && Zone(op.l.ip) == "")
  }

  ghost predicate NoZones(s: State) {
    forall l :: InAddr(s, l) ==> Zone(l.ip) == ""
  }

  lemma ZoneFreeStep(ranges: Ranges, s: State, op: Op)
    requires Consistent(ranges, s) && ValidRanges(ranges) && NoZones(s) && ZoneFree(op)
    ensures Safe(ranges, s, op) && NoZones(Step(ranges, s, op))
  {
    match op
    case Add(l) =>
      AddKeeps(ranges, s, l);
      AddsIff(ranges, s, l);
    case RemoveAddr(a) =>
      if a in s.byAddr {
        assert InAddr(s, s.byAddr[a]);
      }
      RemoveByAddrKeepsIff(ranges, s, a);
  }

  /** Without zones, every run of additions and removals by address keeps all structures in agreement. */
  lemma {:induction false} ZoneFreeRunKeeps(ranges: Ranges, s: State, ops: seq<Op>)
    requires Consistent(ranges, s) && ValidRanges(ranges) && NoZones(s)
    requires forall op :: op in ops ==> ZoneFree(op)
    ensures Consistent(ranges, Run(ranges, s, ops)) && NoZones(Run(ranges, s, ops))
    decreases |ops|
  {
    if ops != [] {
      ZoneFreeStep(ranges, s, ops[0]);
      StepKeepsIff(ranges, s, ops[0]);
      assert forall op :: op in ops[1..] ==> op in ops;
      ZoneFreeRunKeeps(ranges, Step(ranges, s, ops[0]), ops[1..]);
    }
  }
}
