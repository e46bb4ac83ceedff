/** The lease database: what a stored lease keeps, the order of the file, and loading it again. */
module LeaseDb {
  import opened Common
  import opened Netip
  import opened LeaseSpec

  const NANOS: int := 1_000_000_000

  /** The expiry as text: nothing, a time in whole seconds, or something that does not parse. */
  datatype ExpiryText = NoText | Stamp(sec: int) | BadTime

  datatype MacText = MacText(mac: Mac) | BadMac

  datatype JsonLease = JsonLease(expires: ExpiryText, ip: Addr, hostname: string, mac: MacText, isStatic: bool)

  function ToJSONLease(l: Lease): JsonLease {
    JsonLease(if l.isStatic then NoText else Stamp(l.expiry / NANOS), l.ip, l.hostname, MacText(l.mac), l.isStatic)
  }

  datatype LoadError = BadHardwareAddress | BadExpiry

  function ToInternal(j: JsonLease): Result<Lease, LoadError> {
    if j.mac.BadMac? then Err(BadHardwareAddress)
    else if j.isStatic then Ok(Lease(j.ip, 0, j.hostname, j.mac.mac, true))
    else if !j.expires.Stamp? then Err(BadExpiry)
    else Ok(Lease(j.ip, j.expires.sec * NANOS, j.hostname, j.mac.mac, false))
  }

  /** What is left of a lease once stored: whole seconds, and no expiry if it is static. */
  function Kept(l: Lease): Lease {
    l.(expiry := if l.isStatic then 0 else l.expiry - l.expiry % NANOS)
  }

  /** What reads back of a lease: everything, but the expiry without its fraction, and none if it is static. */
  lemma StoredLeaseReadsBack(l: Lease)
    ensures ToInternal(ToJSONLease(l)) == Ok(Kept(l))
    ensures var k := Kept(l);
            && k.ip == l.ip && k.hostname == l.hostname && k.mac == l.mac && k.isStatic == l.isStatic
            && (l.isStatic ==> k.expiry == 0)
            && (!l.isStatic ==> k.expiry % 1_000_000_000 == 0 && k.expiry <= l.expiry < k.expiry + 1_000_000_000)
  {
  }

  /** Which entries parse, and what they give. */
  lemma ParsesIff(j: JsonLease)
    ensures ToInternal(j).Ok? <==> j.mac.MacText? && (j.isStatic || j.expires.Stamp?)
    ensures ToInternal(j).Ok? ==>
      var l := ToInternal(j).value;
      && l.ip == j.ip && l.hostname == j.hostname && l.mac == j.mac.mac && l.isStatic == j.isStatic
      && l.expiry == if j.isStatic then 0 else j.expires.sec * 1_000_000_000
  {
  }

  /** A file decodes without errors exactly if every entry parses, and then to the leases in order. */
  lemma {:induction false} DecodedIff(dl: seq<JsonLease>)
    ensures Decoded(dl).1 == 0 <==> forall i :: 0 <= i < |dl| ==> ToInternal(dl[i]).Ok?
    ensures Decoded(dl).1 == 0 ==>
      |Decoded(dl).0| == |dl| && forall i :: 0 <= i < |dl| ==> Ok(Decoded(dl).0[i]) == ToInternal(dl[i])
  {
    if dl != [] {
      DecodedIff(dl[..|dl| - 1]);
    }
  }

  function CompareNames(a: JsonLease, b: JsonLease): int {
    CompareStrings(a.hostname, b.hostname)
  }

  ghost predicate SortedByName(js: seq<JsonLease>) {
    forall i, j :: 0 <= i < j < |js| ==> CompareNames(js[i], js[j]) <= 0
  }

  /** Sorted by name: no name comes before that of an entry above it. */
  lemma SortedByNameIff(js: seq<JsonLease>)
    ensures SortedByName(js) <==>
      forall i, j :: 0 <= i < j < |js| ==> !exists k :: Precedes(js[j].hostname, js[i].hostname, k)
  {
    forall i, j | 0 <= i < j < |js|
      ensures CompareNames(js[i], js[j]) <= 0 <==> !exists k :: Precedes(js[j].hostname, js[i].hostname, k)
    {
      CompareStringsPair(js[i].hostname, js[j].hostname);
      CompareStringsIsLexicographic(js[j].hostname, js[i].hostname);
    }
  }

  function ToJSONs(leases: seq<Lease>): seq<JsonLease> {
    seq(|leases|, i requires 0 <= i < |leases| => ToJSONLease(leases[i]))
  }

  lemma InsertByName(js: seq<JsonLease>, i: nat, j: JsonLease)
    requires SortedByName(js) && i <= |js|
    requires forall k :: 0 <= k < i ==> CompareNames(js[k], j) < 0
    requires forall k :: i <= k < |js| ==> CompareNames(js[k], j) >= 0
    ensures SortedByName(Insert(js, i, j))
    ensures multiset(Insert(js, i, j)) == multiset(js) + multiset{j}
  {
    forall k | i <= k < |js|
      ensures CompareNames(j, js[k]) <= 0
    {
      CompareStringsPair(j.hostname, js[k].hostname);
    }
    assert js == js[..i] + js[i..];
  }

  /** The entries of the file: every lease inserted where a binary search by name puts it. */
  method EncodeLeases(leases: seq<Lease>) returns (dl: seq<JsonLease>)
    ensures SortedByName(dl) && multiset(dl) == multiset(ToJSONs(leases))
  {
    dl := [];
    for n := 0 to |leases|
      invariant SortedByName(dl) && multiset(dl) == multiset(ToJSONs(leases[..n]))
    {
      var lease := ToJSONLease(leases[n]);
      forall a, b | 0 <= a < b < |dl| && CompareNames(dl[b], lease) < 0
        ensures CompareNames(dl[a], lease) < 0
      {
        NotGreater(dl[a].hostname, dl[b].hostname, lease.hostname);
      }
      var i, _ := BinarySearchFunc(dl, lease, CompareNames);
      InsertByName(dl, i, lease);
      dl := Insert(dl, i, lease);
      assert ToJSONs(leases[..n + 1]) == ToJSONs(leases[..n]) + [lease];
    }
    assert leases[..|leases|] == leases;
  }

  /** The leases of the file in order, without the entries that do not parse, and how many those are. */
  function Decoded(dl: seq<JsonLease>): (seq<Lease>, nat) {
    if dl == [] then ([], 0)
    else
      var (before, bad) := Decoded(dl[..|dl| - 1]);
      match ToInternal(dl[|dl| - 1])
      case Ok(l) => (before + [l], bad)
      case Err(_) => (before, bad + 1)
  }

  method DecodeLeases(dl: seq<JsonLease>) returns (leases: seq<Lease>, bad: nat)
    ensures (leases, bad) == Decoded(dl)
  {
    leases, bad := [], 0;
    for n := 0 to |dl|
      invariant (leases, bad) == Decoded(dl[..n])
    {
      assert dl[..n + 1][..n] == dl[..n];
      match ToInternal(dl[n]) {
        case Ok(l) => leases := leases + [l];
        case Err(_) => bad := bad + 1;
      }
    }
    assert dl[..|dl|] == dl;
  }

  lemma TailMultiset(a: seq<JsonLease>)
    requires a != []
    ensures multiset(a[1..]) == multiset(a) - multiset{a[0]}
  {
    assert a == [a[0]] + a[1..];
  }

  lemma SameLength(a: seq<JsonLease>, b: seq<JsonLease>)
    requires multiset(a) == multiset(b)
    ensures |a| == |b|
  {
    assert |multiset(a)| == |a| && |multiset(b)| == |b|;
  }

  lemma HeadLowest(js: seq<JsonLease>, j: JsonLease)
    requires SortedByName(js) && j in js
    ensures j == js[0] || CompareNames(js[0], j) <= 0
  {
  }

  lemma SameFirst(a: seq<JsonLease>, b: seq<JsonLease>)
    requires SortedByName(a) && SortedByName(b) && multiset(a) == multiset(b) && a != [] && b != []
    requires forall i, j :: 0 <= i < j < |a| ==> a[i].hostname != a[j].hostname
    ensures a[0] == b[0]
  {
    assert b[0] in multiset(b) && a[0] in multiset(a);
    assert b[0] in multiset(a) && a[0] in multiset(b);
    HeadLowest(a, b[0]);
    HeadLowest(b, a[0]);
    CompareStringsPair(a[0].hostname, b[0].hostname);
  }

  /** Two sorted listings of the same entries with distinct names are equal: the file does not depend on map order. */
  lemma {:induction false} FileIsDetermined(a: seq<JsonLease>, b: seq<JsonLease>)
    requires SortedByName(a) && SortedByName(b) && multiset(a) == multiset(b)
    requires forall i, j :: 0 <= i < j < |a| ==> a[i].hostname != a[j].hostname
    ensures a == b
  {
    SameLength(a, b);
    if a != [] {
      SameFirst(a, b);
      TailMultiset(a);
      TailMultiset(b);
      FileIsDetermined(a[1..], b[1..]);
      assert a == [a[0]] + a[1..] && b == [b[0]] + b[1..];
    }
  }

  /** The entries of a store: one for every lease by address. */
  function Entries(byAddr: map<Addr, Lease>): set<JsonLease> {
    set a | a in byAddr :: ToJSONLease(byAddr[a])
  }

  /** What a successful store leaves in the file. */
  ghost predicate Stored(byAddr: map<Addr, Lease>, dl: seq<JsonLease>) {
    SortedByName(dl) && multiset(dl) == multiset(Entries(byAddr))
  }

  /** The file after a request: written with all leases, or as it was. */
  ghost predicate Wrote(stored: bool, byAddr: map<Addr, Lease>, was: seq<JsonLease>, file: seq<JsonLease>) {
    if stored then Stored(byAddr, file) else file == was
  }

  lemma NoDuplicates(dl: seq<JsonLease>, entries: set<JsonLease>, i: nat, j: nat)
    requires multiset(dl) == multiset(entries) && i < j < |dl|
    ensures dl[i] != dl[j]
  {
    assert dl == dl[..j] + [dl[j]] + dl[j + 1..];
    assert multiset(dl) == multiset(dl[..j]) + multiset{dl[j]} + multiset(dl[j + 1..]);
    assert dl[..j][i] == dl[i] && dl[i] in multiset(dl[..j]);
    assert multiset(dl)[dl[j]] <= 1;
  }

  /** The file that a consistent state is stored as is unique: it does not depend on the order of map iteration. */
  lemma StoredFileIsUnique(ranges: Ranges, s: State, a: seq<JsonLease>, b: seq<JsonLease>)
    requires Consistent(ranges, s) && Stored(s.byAddr, a) && Stored(s.byAddr, b)
    ensures a == b
  {
    forall i, j | 0 <= i < j < |a|
      ensures a[i].hostname != a[j].hostname
    {
      NoDuplicates(a, Entries(s.byAddr), i, j);
      assert a[i] in multiset(a) && a[j] in multiset(a);
      var x :| x in s.byAddr && a[i] == ToJSONLease(s.byAddr[x]);
      var y :| y in s.byAddr && a[j] == ToJSONLease(s.byAddr[y]);
      assert InAddr(s, s.byAddr[x]) && InAddr(s, s.byAddr[y]);
      assert InName(s, s.byAddr[x]) && InName(s, s.byAddr[y]);
    }
    FileIsDetermined(a, b);
  }

  lemma StoredIsFileOf(ranges: Ranges, s: State, dl: seq<JsonLease>)
    requires Consistent(ranges, s) && Stored(s.byAddr, dl)
    ensures FileOf(s, dl)
  {
    forall j
      ensures j in dl <==> j in Entries(s.byAddr)
    {
      assert j in dl <==> j in multiset(dl);
    }
    forall a | a in s.byAddr
      ensures InAddr(s, s.byAddr[a])
    {
    }
  }

  /** A file with exactly the leases held in s, in any order and however often. */
  ghost predicate FileOf(s: State, dl: seq<JsonLease>) {
    && (forall l :: InAddr(s, l) ==> ToJSONLease(l) in dl)
    && (forall j :: j in dl ==> exists l :: InAddr(s, l) && j == ToJSONLease(l))
  }

  /** The state s as far as a file keeps it. */
  function KeptState(s: State): State {
    State(map a | a in s.byAddr :: Kept(s.byAddr[a]), map n | n in s.byName :: Kept(s.byName[n]),
          seq(|s.leases|, i requires 0 <= i < |s.leases| => map m | m in s.leases[i] :: Kept(s.leases[i][m])),
          s.offsets)
  }

  lemma KeptStateHolds(ranges: Ranges, s: State)
    requires Consistent(ranges, s)
    ensures Consistent(ranges, KeptState(s))
    ensures forall l :: InAddr(KeptState(s), l) <==> exists was :: InAddr(s, was) && l == Kept(was)
  {
    var t := KeptState(s);
    forall i | 0 <= i < |ranges|
      ensures t.offsets[i] == LeasedOffsets(ranges[i], t.leases[i])
    {
      assert forall m :: m in s.leases[i] ==> t.leases[i][m].ip == s.leases[i][m].ip;
    }
    forall l
      ensures InAddr(t, l) == InName(t, l) == InIface(ranges, t, l)
      ensures InAddr(t, l) <==> exists was :: InAddr(s, was) && l == Kept(was)
    {
      KeptAddr(s, l);
      KeptName(s, l);
      KeptIface(ranges, s, l);
    }
  }

  lemma KeptAddr(s: State, l: Lease)
    requires forall a :: a in s.byAddr ==> s.byAddr[a].ip == a
    ensures InAddr(KeptState(s), l) <==> exists was :: InAddr(s, was) && l == Kept(was)
  {
  }

  lemma KeptName(s: State, l: Lease)
    requires forall n :: n in s.byName ==> Lower(s.byName[n].hostname) == n
    ensures InName(KeptState(s), l) <==> exists was :: InName(s, was) && l == Kept(was)
  {
  }

  lemma KeptIface(ranges: Ranges, s: State, l: Lease)
    requires Shaped(ranges, s) && Keyed(ranges, s)
    ensures InIface(ranges, KeptState(s), l) <==> exists was :: InIface(ranges, s, was) && l == Kept(was)
  {
  }

  /** An agreeing state is determined by the leases that it holds. */
  lemma HeldDetermineState(ranges: Ranges, s: State, t: State)
    requires Consistent(ranges, s) && Consistent(ranges, t)
    requires forall l :: InAddr(s, l) <==> InAddr(t, l)
    ensures s == t
  {
    forall a
      ensures a in s.byAddr ==> a in t.byAddr && t.byAddr[a] == s.byAddr[a]
      ensures a in t.byAddr ==> a in s.byAddr
    {
      assert a in s.byAddr ==> InAddr(s, s.byAddr[a]);
      assert a in t.byAddr ==> InAddr(t, t.byAddr[a]);
    }
    forall n
      ensures n in s.byName ==> n in t.byName && t.byName[n] == s.byName[n]
      ensures n in t.byName ==> n in s.byName
    {
      assert n in s.byName ==> InName(s, s.byName[n]) && InAddr(s, s.byName[n]) && InName(t, s.byName[n]);
      assert n in t.byName ==> InName(t, t.byName[n]) && InAddr(t, t.byName[n]) && InName(s, t.byName[n]);
    }
    forall i | 0 <= i < |ranges|
      ensures s.leases[i] == t.leases[i]
    {
      SameIface(ranges, s, t, i);
      SameIface(ranges, t, s, i);
    }
    assert s.byAddr == t.byAddr && s.byName == t.byName;
    assert s.leases == t.leases && s.offsets == t.offsets;
  }

  lemma SameIface(ranges: Ranges, s: State, t: State, i: nat)
    requires Consistent(ranges, s) && Consistent(ranges, t) && i < |ranges|
    requires forall l :: InAddr(s, l) <==> InAddr(t, l)
    ensures forall m :: m in s.leases[i] ==> m in t.leases[i] && t.leases[i][m] == s.leases[i][m]
  {
    forall m | m in s.leases[i]
      ensures m in t.leases[i] && t.leases[i][m] == s.leases[i][m]
    {
      var l := s.leases[i][m];
      assert InIface(ranges, s, l);
      assert InAddr(s, l) && InIface(ranges, t, l);
    }
  }

  lemma HeldDoNotCollide(ranges: Ranges, s: State, a: Lease, b: Lease)
    requires Consistent(ranges, s) && InAddr(s, a) && InAddr(s, b) && a != b
    ensures !Collide(ranges, a, b) && IfaceFor(ranges, a.ip).Some?
  {
  }

  /** Leases of known interfaces that do not collide are all loaded, whatever their order. */
  lemma LoadKeepsAll(ranges: Ranges, leases: seq<Lease>)
    requires forall l :: l in leases ==> IfaceFor(ranges, l.ip).Some?
    requires forall a, b :: a in leases && b in leases && a != b ==> !Collide(ranges, a, b)
    ensures forall l :: l in leases <==> InAddr(LoadLeases(ranges, EmptyState(|ranges|), leases), l)
  {
    LoadIsConsistent(ranges, leases);
    var t := LoadLeases(ranges, EmptyState(|ranges|), leases);
    forall l | l in leases
      ensures InAddr(t, l)
    {
      if !InAddr(t, l) {
        assert Conflicts(ranges, t, l);
        var other :| InAddr(t, other) &&
          (other.ip == l.ip || Lower(other.hostname) == Lower(l.hostname) ||
           (IfaceFor(ranges, other.ip) == IfaceFor(ranges, l.ip) && other.mac == l.mac));
        assert Collide(ranges, other, l);
      }
    }
  }

  lemma {:induction false} DecodedOfFile(s: State, dl: seq<JsonLease>)
    requires forall j :: j in dl ==> exists l :: InAddr(s, l) && j == ToJSONLease(l)
    ensures Decoded(dl).1 == 0
    ensures forall l :: l in Decoded(dl).0 <==> exists was :: InAddr(s, was) && ToJSONLease(was) in dl && l == Kept(was)
  {
    if dl != [] {
      var before, last := dl[..|dl| - 1], dl[|dl| - 1];
      assert dl == before + [last];
      assert last in dl && forall j :: j in before ==> j in dl;
      DecodedOfFile(s, before);
      var was :| InAddr(s, was) && last == ToJSONLease(was);
      StoredLeaseReadsBack(was);
      assert Decoded(dl).0 == Decoded(before).0 + [Kept(was)];
      forall other | ToJSONLease(other) == last
        ensures Kept(other) == Kept(was)
      {
        StoredLeaseReadsBack(other);
      }
    }
  }

  /**
   * Storing a consistent state and loading the file into a fresh server with the same ranges gives
   * the same four structures, up to what a stored lease keeps, for every order of the file.
   */
  lemma StoreLoadRoundTrip(ranges: Ranges, s: State, dl: seq<JsonLease>)
    requires Consistent(ranges, s) && (Stored(s.byAddr, dl) || FileOf(s, dl))
    ensures Decoded(dl).1 == 0
    ensures LoadLeases(ranges, EmptyState(|ranges|), Decoded(dl).0) == KeptState(s)
  {
    if Stored(s.byAddr, dl) {
      StoredIsFileOf(ranges, s, dl);
    }
    DecodedOfFile(s, dl);
    var leases := Decoded(dl).0;
    KeptStateHolds(ranges, s);
    assert forall l :: l in leases <==> InAddr(KeptState(s), l);
    forall a, b | a in leases && b in leases && a != b
      ensures !Collide(ranges, a, b)
    {
      HeldDoNotCollide(ranges, KeptState(s), a, b);
    }
    forall l | l in leases
      ensures IfaceFor(ranges, l.ip).Some?
    {
      assert InIface(ranges, KeptState(s), l);
    }
    LoadKeepsAll(ranges, leases);
    LoadIsConsistent(ranges, leases);
    HeldDetermineState(ranges, LoadLeases(ranges, EmptyState(|ranges|), leases), KeptState(s));
  }
}
