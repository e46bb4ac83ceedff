/**
 * The DHCP lease structures as values: leases by address, by name and by hardware address of each
 * interface, and the leased offsets of each interface, which must all describe the same leases.
 */
module LeaseSpec {
  import opened Common
  import opened Netip
  import opened IPRanges

  /** expiry is in nanoseconds; the zero time stands for none. */
  datatype Lease = Lease(ip: Addr, expiry: int, hostname: string, mac: Mac, isStatic: bool)

  /** On printable ASCII the folding is the usual one; other characters may be folded in any way. */
  predicate FoldsAscii(m: map<char, char>) {
    forall c | ' ' <= c <= '~' :: (if c in m then m[c] else c) == if 'A' <= c <= 'Z' then c - 'A' + 'a' else c
  }

  type Folding = m: map<char, char> | FoldsAscii(m)
    witness map c | 'A' <= c <= 'Z' :: c - 'A' + 'a'

  /** unicode.ToLower, of which nothing but its ASCII part is known. */
  const FOLDING: Folding

  function LowerChar(c: char): char {
    if c in FOLDING then FOLDING[c] else c
  }

  /** strings.ToLower: every character of the name folded. */
  function Lower(s: string): string {
    seq(|s|, i requires 0 <= i < |s| => LowerChar(s[i]))
  }

  predicate Ascii(s: string) {
    forall i :: 0 <= i < |s| ==> ' ' <= s[i] <= '~'
  }

  /** Names are compared without regard to the case of ASCII letters, and to nothing else in ASCII. */
  lemma LowerIff(a: string, b: string)
    requires Ascii(a) && Ascii(b)
    ensures Lower(a) == Lower(b) <==> |a| == |b| && forall i :: 0 <= i < |a| ==>
      a[i] == b[i] ||
      ('A' <= a[i] <= 'Z' && b[i] as int == a[i] as int + 32) || ('A' <= b[i] <= 'Z' && a[i] as int == b[i] as int + 32)
  {
    if Lower(a) == Lower(b) {
      assert |Lower(a)| == |a| && |Lower(b)| == |b|;
      assert forall i :: 0 <= i < |a| ==> Lower(a)[i] == LowerChar(a[i]) && Lower(b)[i] == LowerChar(b[i]);
    }
  }

  datatype State = State(
    byAddr: map<Addr, Lease>,
    byName: map<string, Lease>,
    leases: seq<map<Mac, Lease>>,
    offsets: seq<set<nat>>)

  /** The ranges of the interfaces, those of IPv4 first. */
  type Ranges = seq<IPRange>

  /** Every range was accepted, or is the zero range that is left where one was refused. */
  ghost predicate ValidRanges(ranges: Ranges) {
    forall i :: 0 <= i < |ranges| ==> ranges[i] == NoRange || Accepted(ranges[i])
  }

  function IfaceFrom(ranges: Ranges, ip: Addr, from: nat): (i: Option<nat>)
    requires from <= |ranges|
    ensures i.Some? ==> from <= i.value < |ranges| && InRange(ranges[i.value], ip)
    ensures forall j :: from <= j < (if i.Some? then i.value else |ranges|) ==> !InRange(ranges[j], ip)
    decreases |ranges| - from
  {
    if from == |ranges| then None
    else if InRange(ranges[from], ip) then Some(from)
    else IfaceFrom(ranges, ip, from + 1)
  }

  /** The first interface that is responsible for ip. */
  function IfaceFor(ranges: Ranges, ip: Addr): (i: Option<nat>)
    ensures i.Some? ==> i.value < |ranges| && InRange(ranges[i.value], ip)
  {
    IfaceFrom(ranges, ip, 0)
  }

  function OffsetOf(r: IPRange, ip: Addr): nat {
    Offset(r, ip).0
  }

  ghost function LeasedOffsets(r: IPRange, leases: map<Mac, Lease>): set<nat> {
    set m | m in leases :: OffsetOf(r, leases[m].ip)
  }

  ghost predicate InAddr(s: State, l: Lease) {
    l.ip in s.byAddr && s.byAddr[l.ip] == l
  }

  ghost predicate InName(s: State, l: Lease) {
    Lower(l.hostname) in s.byName && s.byName[Lower(l.hostname)] == l
  }

  ghost predicate InIface(ranges: Ranges, s: State, l: Lease)
    requires |s.leases| == |ranges|
  {
    var i := IfaceFor(ranges, l.ip);
    i.Some? && l.mac in s.leases[i.value] && s.leases[i.value][l.mac] == l
  }

  /** One map and one offset set for every interface. */
  predicate Shaped(ranges: Ranges, s: State) {
    |s.leases| == |s.offsets| == |ranges|
  }

  /** Every lease is under its own address, name, and hardware address of its own interface. */
  ghost predicate Keyed(ranges: Ranges, s: State)
    requires Shaped(ranges, s)
  {
    && (forall a :: a in s.byAddr ==> s.byAddr[a].ip == a)
    && (forall n :: n in s.byName ==> Lower(s.byName[n].hostname) == n)
    && (forall i, m :: 0 <= i < |ranges| && m in s.leases[i] ==>
         s.leases[i][m].mac == m && IfaceFor(ranges, s.leases[i][m].ip) == Some(i))
  }

  /** The three indexes hold the same leases. */
  ghost predicate SameLeases(ranges: Ranges, s: State)
    requires Shaped(ranges, s)
  {
    forall l :: InAddr(s, l) == InName(s, l) == InIface(ranges, s, l)
  }

  ghost predicate OffsetsMatch(ranges: Ranges, s: State)
    requires Shaped(ranges, s)
  {
    forall i :: 0 <= i < |ranges| ==> s.offsets[i] == LeasedOffsets(ranges[i], s.leases[i])
  }

  /** All four structures of every interface describe one set of leases. */
  ghost predicate Consistent(ranges: Ranges, s: State) {
    Shaped(ranges, s) && Keyed(ranges, s) && SameLeases(ranges, s) && OffsetsMatch(ranges, s)
  }

  function EmptyState(n: nat): State {
    State(map[], map[], seq(n, _ => map[]), seq(n, _ => {}))
  }

  /** The leases of an interface with l under its hardware address. */
  function Put(leases: map<Mac, Lease>, l: Lease): map<Mac, Lease> {
    leases[l.mac := l]
  }

  datatype LeaseError =
    | NoInterface
    | AddrExists | NameExists | MACExists
    | NoLeaseForAddr | NoLeaseForName | NoLeaseForMAC

  /** Adding a lease: the new state, and the error if there is one. */
  function AddLease(ranges: Ranges, s: State, l: Lease): (State, Option<LeaseError>)
    requires Shaped(ranges, s)
  {
    var i := IfaceFor(ranges, l.ip);
    if i.None? then (s, Some(NoInterface))
    else if l.ip in s.byAddr then (s, Some(AddrExists))
    else if Lower(l.hostname) in s.byName then (s, Some(NameExists))
    else if l.mac in s.leases[i.value] then (s, Some(MACExists))
    else (Added(ranges, s, l, i.value), None)
  }

  function Added(ranges: Ranges, s: State, l: Lease, i: nat): State
    requires Shaped(ranges, s) && i < |ranges|
  {
    State(s.byAddr[l.ip := l], s.byName[Lower(l.hostname) := l],
          s.leases[i := Put(s.leases[i], l)],
          s.offsets[i := s.offsets[i] + {OffsetOf(ranges[i], l.ip)}])
  }

  /** A held lease has the address, the name or, on the same interface, the hardware address of l. */
  ghost predicate Conflicts(ranges: Ranges, s: State, l: Lease) {
    exists other :: InAddr(s, other) &&
      (other.ip == l.ip || Lower(other.hostname) == Lower(l.hostname) ||
       (IfaceFor(ranges, other.ip) == IfaceFor(ranges, l.ip) && other.mac == l.mac))
  }

  /** A lease is added exactly when an interface is responsible for it and nothing held conflicts. */
  lemma AddsIff(ranges: Ranges, s: State, l: Lease)
    requires Consistent(ranges, s)
    ensures AddLease(ranges, s, l).1.None? <==> IfaceFor(ranges, l.ip).Some? && !Conflicts(ranges, s, l)
    ensures AddLease(ranges, s, l).1.Some? ==> AddLease(ranges, s, l).0 == s
  {
  }

  /** Which error an addition gives: the first of its reasons, in terms of what is held. */
  lemma AddErrorIs(ranges: Ranges, s: State, l: Lease)
    requires Consistent(ranges, s)
    ensures var err := AddLease(ranges, s, l).1;
            var i := IfaceFor(ranges, l.ip);
            var addr := exists o :: InAddr(s, o) && o.ip == l.ip;
            var name := exists o :: InAddr(s, o) && Lower(o.hostname) == Lower(l.hostname);
            && (err == Some(NoInterface) <==> i.None?)
            && (err == Some(AddrExists) <==> i.Some? && addr)
            && (err == Some(NameExists) <==> i.Some? && !addr && name)
            && (err == Some(MACExists) <==>
                 (i.Some? && !addr && !name &&
                  exists o :: InAddr(s, o) && IfaceFor(ranges, o.ip) == i && o.mac == l.mac))
  {
    var i := IfaceFor(ranges, l.ip);
    if l.ip in s.byAddr {
      assert InAddr(s, s.byAddr[l.ip]);
    }
    if Lower(l.hostname) in s.byName {
      assert InName(s, s.byName[Lower(l.hostname)]);
      assert InAddr(s, s.byName[Lower(l.hostname)]);
    }
    if i.Some? && l.mac in s.leases[i.value] {
      assert InIface(ranges, s, s.leases[i.value][l.mac]);
      assert InAddr(s, s.leases[i.value][l.mac]);
    }
    forall o | InAddr(s, o)
      ensures InName(s, o) && InIface(ranges, s, o)
    {
    }
  }

  /** Adding keeps all four structures in agreement, whatever the lease. */
  lemma AddKeeps(ranges: Ranges, s: State, l: Lease)
    requires Consistent(ranges, s)
    ensures Consistent(ranges, AddLease(ranges, s, l).0)
    ensures AddLease(ranges, s, l).1.None? ==>
      forall other :: InAddr(AddLease(ranges, s, l).0, other) <==> InAddr(s, other) || other == l
  {
    if AddLease(ranges, s, l).1.None? {
      var i := IfaceFor(ranges, l.ip).value;
      AddedSets(ranges, s, l, i);
      AddedOffsets(ranges, s, l, i);
    }
  }

  lemma AddedSets(ranges: Ranges, s: State, l: Lease, i: nat)
    requires Shaped(ranges, s) && Keyed(ranges, s) && SameLeases(ranges, s) && IfaceFor(ranges, l.ip) == Some(i)
    requires l.ip !in s.byAddr && Lower(l.hostname) !in s.byName && l.mac !in s.leases[i]
    ensures var t := Added(ranges, s, l, i);
            && Keyed(ranges, t) && SameLeases(ranges, t)
            && forall other :: InAddr(t, other) <==> InAddr(s, other) || other == l
  {
    var t := Added(ranges, s, l, i);
    forall other
      ensures InAddr(t, other) <==> InAddr(s, other) || other == l
      ensures InName(t, other) <==> InName(s, other) || other == l
      ensures InIface(ranges, t, other) <==> InIface(ranges, s, other) || other == l
    {
    }
  }

  lemma AddedOffsets(ranges: Ranges, s: State, l: Lease, i: nat)
    requires Shaped(ranges, s) && OffsetsMatch(ranges, s) && i < |ranges| && l.mac !in s.leases[i]
    ensures OffsetsMatch(ranges, Added(ranges, s, l, i))
  {
    OffsetsWith(ranges[i], s.leases[i], l);
  }

  lemma OffsetsWith(r: IPRange, leases: map<Mac, Lease>, l: Lease)
    requires l.mac !in leases
    ensures LeasedOffsets(r, Put(leases, l)) == LeasedOffsets(r, leases) + {OffsetOf(r, l.ip)}
  {
    var with := Put(leases, l);
    assert forall m :: m in leases ==> m in with && with[m] == leases[m];
    assert l.mac in with;
  }

  /** Loading: every lease in turn is added to the interface responsible for it, or skipped. */
  function LoadLeases(ranges: Ranges, s: State, leases: seq<Lease>): (t: State)
    requires Shaped(ranges, s)
    ensures Shaped(ranges, t)
  {
    if leases == [] then s
    else AddLease(ranges, LoadLeases(ranges, s, leases[..|leases| - 1]), leases[|leases| - 1]).0
  }

  lemma EmptyIsConsistent(ranges: Ranges)
    ensures Consistent(ranges, EmptyState(|ranges|))
  {
  }

  /**
   * Loading any list, with duplicates and addresses of no interface, gives agreeing structures that
   * hold only leases of the list; a lease of the list is left out only if no interface is
   * responsible for it or something held conflicts with it.
   */
  lemma {:induction false} LoadIsConsistent(ranges: Ranges, leases: seq<Lease>)
    ensures var t := LoadLeases(ranges, EmptyState(|ranges|), leases);
            && Consistent(ranges, t)
            && (forall l :: InAddr(t, l) ==> l in leases)
            && (forall l :: l in leases && !InAddr(t, l) ==> IfaceFor(ranges, l.ip).None? || Conflicts(ranges, t, l))
  {
    EmptyIsConsistent(ranges);
    if leases != [] {
      var before, last := leases[..|leases| - 1], leases[|leases| - 1];
      LoadIsConsistent(ranges, before);
      var s := LoadLeases(ranges, EmptyState(|ranges|), before);
      AddKeeps(ranges, s, last);
      AddsIff(ranges, s, last);
      var t := AddLease(ranges, s, last).0;
      assert leases == before + [last];
      forall l | l in before && !InAddr(t, l)
        ensures IfaceFor(ranges, l.ip).None? || Conflicts(ranges, t, l)
      {
        ConflictStays(ranges, s, t, l);
      }
    }
  }

  /** a and b cannot both be held. */
  ghost predicate Collide(ranges: Ranges, a: Lease, b: Lease) {
    a.ip == b.ip || Lower(a.hostname) == Lower(b.hostname) ||
    (IfaceFor(ranges, a.ip) == IfaceFor(ranges, b.ip) && a.mac == b.mac)
  }

  /** A lease that stands earlier in the list is held and collides with the one at i. */
  ghost predicate BeatenEarlier(ranges: Ranges, t: State, leases: seq<Lease>, i: nat)
    requires i < |leases|
  {
    exists j :: 0 <= j < i && InAddr(t, leases[j]) && Collide(ranges, leases[j], leases[i])
  }

  lemma LastIsBeaten(ranges: Ranges, s: State, t: State, leases: seq<Lease>)
    requires leases != [] && Conflicts(ranges, s, leases[|leases| - 1])
    requires HoldsOnly(s, leases[..|leases| - 1]) && AllHeld(s, t)
    ensures BeatenEarlier(ranges, t, leases, |leases| - 1)
  {
    var last := leases[|leases| - 1];
    var other :| InAddr(s, other) && Collide(ranges, other, last);
    var j :| 0 <= j < |leases| - 1 && leases[..|leases| - 1][j] == other;
    assert InAddr(t, leases[j]) && Collide(ranges, leases[j], last);
  }

  lemma StaysBeaten(ranges: Ranges, s: State, t: State, leases: seq<Lease>, i: nat)
    requires i < |leases| - 1 && BeatenEarlier(ranges, s, leases[..|leases| - 1], i)
    requires AllHeld(s, t)
    ensures BeatenEarlier(ranges, t, leases, i)
  {
    var before := leases[..|leases| - 1];
    var j: nat :| j < i && InAddr(s, before[j]) && Collide(ranges, before[j], before[i]);
    assert InAddr(t, leases[j]) && Collide(ranges, leases[j], leases[i]);
  }

  lemma AddStep(ranges: Ranges, s: State, l: Lease)
    requires Consistent(ranges, s)
    ensures AllHeld(s, AddLease(ranges, s, l).0)
    ensures IfaceFor(ranges, l.ip).Some? ==> InAddr(AddLease(ranges, s, l).0, l) || Conflicts(ranges, s, l)
  {
    AddKeeps(ranges, s, l);
    AddsIff(ranges, s, l);
  }

  ghost predicate AllHeld(s: State, t: State) {
    forall l :: InAddr(s, l) ==> InAddr(t, l)
  }

  ghost predicate HoldsOnly(s: State, leases: seq<Lease>) {
    forall l :: InAddr(s, l) ==> l in leases
  }

  lemma LoadHolds(ranges: Ranges, leases: seq<Lease>)
    ensures Consistent(ranges, LoadLeases(ranges, EmptyState(|ranges|), leases))
    ensures HoldsOnly(LoadLeases(ranges, EmptyState(|ranges|), leases), leases)
  {
    LoadIsConsistent(ranges, leases);
  }

  /** What loading one more lease does to those held. */
  lemma LoadStep(ranges: Ranges, before: seq<Lease>, last: Lease)
    ensures var s := LoadLeases(ranges, EmptyState(|ranges|), before);
            var t := AddLease(ranges, s, last).0;
            && HoldsOnly(s, before) && AllHeld(s, t)
            && (IfaceFor(ranges, last.ip).Some? ==> InAddr(t, last) || Conflicts(ranges, s, last))
  {
    LoadHolds(ranges, before);
    AddStep(ranges, LoadLeases(ranges, EmptyState(|ranges|), before), last);
  }

  /** Of leases that collide the first in the list wins. */
  lemma {:induction false} EarlierWins(ranges: Ranges, leases: seq<Lease>, i: nat)
    requires i < |leases| && IfaceFor(ranges, leases[i].ip).Some?
    ensures var t := LoadLeases(ranges, EmptyState(|ranges|), leases);
            InAddr(t, leases[i]) || BeatenEarlier(ranges, t, leases, i)
    decreases |leases|
  {
    var before, last := leases[..|leases| - 1], leases[|leases| - 1];
    var s := LoadLeases(ranges, EmptyState(|ranges|), before);
    var t := AddLease(ranges, s, last).0;
    LoadStep(ranges, before, last);
    if i < |before| {
      EarlierWins(ranges, before, i);
      if !InAddr(s, leases[i]) {
        StaysBeaten(ranges, s, t, leases, i);
      }
    } else if !InAddr(t, last) {
      LastIsBeaten(ranges, s, t, leases);
    }
  }

  lemma ConflictStays(ranges: Ranges, s: State, t: State, l: Lease)
    requires forall other :: InAddr(s, other) ==> InAddr(t, other)
    ensures Conflicts(ranges, s, l) ==> Conflicts(ranges, t, l)
  {
  }
}
