/** The index of persistent clients: six maps that must describe one set of clients. */
module ClientIndex {
  import opened Common
  import opened Netip
  import opened Clients
  import SortedMaps

  /** The identifier maps of the index, as values. */
  datatype Maps = Maps(
    names: map<string, UID>,
    clientIDs: map<string, UID>,
    ips: map<Addr, UID>,
    subnets: map<Prefix, UID>,
    macs: map<Mac, UID>)

  function At<I>(m: map<I, UID>, i: I): Option<UID> {
    if i in m then Some(m[i]) else None
  }

  /** Whom the maps say i belongs to. */
  function Owner(m: Maps, i: Ident): Option<UID> {
    match i
    case Name(n) => At(m.names, n)
    case ClientID(id) => At(m.clientIDs, id)
    case IP(ip) => At(m.ips, ip)
    case Subnet(p) => At(m.subnets, p)
    case MAC(mac) => At(m.macs, mac)
  }

  /** The maps hold the identifiers of the clients, each under its client, and nothing else. */
  ghost predicate Agree(m: Maps, clients: ClientSet) {
    && (forall u :: u in clients ==> clients[u].uid == u != 0)
    && (forall i :: Owner(m, i).Some? ==> Owner(m, i).value in clients && Has(clients[Owner(m, i).value], i))
    && (forall u, i :: u in clients && Has(clients[u], i) ==> Owner(m, i) == Some(u))
  }

  /** An agreeing index shares no identifier between two clients, and answers like the linear search. */
  lemma AgreeIsConsistent(m: Maps, clients: ClientSet)
    requires Agree(m, clients)
    ensures Consistent(clients)
    ensures forall i :: Owner(m, i) == OwnerOf(clients, i)
  {
    forall u, v, i | u in clients && v in clients && Has(clients[u], i) && Has(clients[v], i)
      ensures u == v
    {
      assert Owner(m, i) == Some(u);
    }
    forall i
      ensures Owner(m, i) == OwnerOf(clients, i)
    {
      if OwnerOf(clients, i).Some? {
        OwnerIs(clients, i, OwnerOf(clients, i).value);
      }
    }
  }

  lemma SameAt<I(!new)>(m: map<I, UID>, n: map<I, UID>)
    requires forall i :: At(m, i) == At(n, i)
    ensures m == n
  {
    assert forall i :: i in m <==> At(m, i).Some?;
    assert forall i :: i in n <==> At(n, i).Some?;
    forall i | i in m
      ensures m[i] == n[i]
    {
      assert At(m, i) == At(n, i);
    }
  }

  /** The clients alone determine every map of the index: no history can leave a stray entry. */
  lemma ClientsDetermineMaps(m: Maps, n: Maps, clients: ClientSet)
    requires Agree(m, clients) && Agree(n, clients)
    ensures m == n
  {
    AgreeIsConsistent(m, clients);
    AgreeIsConsistent(n, clients);
    forall i
      ensures Owner(m, i) == Owner(n, i)
    {
    }
    forall k: string ensures At(m.names, k) == At(n.names, k) { assert Owner(m, Name(k)) == Owner(n, Name(k)); }
    forall k ensures At(m.clientIDs, k) == At(n.clientIDs, k) { assert Owner(m, ClientID(k)) == Owner(n, ClientID(k)); }
    forall k ensures At(m.ips, k) == At(n.ips, k) { assert Owner(m, IP(k)) == Owner(n, IP(k)); }
    forall k ensures At(m.subnets, k) == At(n.subnets, k) { assert Owner(m, Subnet(k)) == Owner(n, Subnet(k)); }
    forall k ensures At(m.macs, k) == At(n.macs, k) { assert Owner(m, MAC(k)) == Owner(n, MAC(k)); }
    SameAt(m.names, n.names);
    SameAt(m.clientIDs, n.clientIDs);
    SameAt(m.ips, n.ips);
    SameAt(m.subnets, n.subnets);
    SameAt(m.macs, n.macs);
  }

  /** The maps after is the maps before with every identifier of c given to its UID. */
  ghost predicate Added(before: Maps, after: Maps, c: Persistent) {
    forall i :: Owner(after, i) == if Has(c, i) then Some(c.uid) else Owner(before, i)
  }

  /** The maps after is the maps before without any identifier of c. */
  ghost predicate Removed(before: Maps, after: Maps, c: Persistent) {
    forall i :: Owner(after, i) == if Has(c, i) then None else Owner(before, i)
  }

  lemma AddKeepsAgreement(before: Maps, after: Maps, clients: ClientSet, c: Persistent)
    requires Agree(before, clients) && Added(before, after, c)
    requires c.uid != 0 && c.uid !in clients && !Clashing(clients, c)
    ensures Agree(after, clients[c.uid := c])
  {
    forall u, i | u in clients && Has(clients[u], i)
      ensures Owner(after, i) == Some(u)
    {
      assert !Has(c, i);
      assert Owner(before, i) == Some(u);
    }
  }

  lemma RemoveKeepsAgreement(before: Maps, after: Maps, clients: ClientSet, u: UID)
    requires Agree(before, clients) && u in clients && Removed(before, after, clients[u])
    ensures Agree(after, clients - {u})
  {
    forall v, i | v in clients && v != u && Has(clients[v], i)
      ensures Owner(after, i) == Some(v)
    {
      assert Owner(before, i) == Some(v);
    }
    forall i | Owner(after, i).Some?
      ensures Owner(after, i).value in clients - {u}
    {
      assert Owner(before, i).value in clients;
    }
  }

  /** m with every one of ids mapped to uid. */
  ghost function With<I>(m: map<I, UID>, ids: seq<I>, uid: UID): map<I, UID> {
    m + map i | i in ids :: uid
  }

  ghost function Without<I>(m: map<I, UID>, ids: seq<I>): map<I, UID> {
    m - (set i | i in ids)
  }

  lemma WithNext<I>(m: map<I, UID>, ids: seq<I>, k: nat, uid: UID)
    requires k < |ids|
    ensures With(m, ids[..k + 1], uid) == With(m, ids[..k], uid)[ids[k] := uid]
  {
  }

  lemma WithoutNext<I>(m: map<I, UID>, ids: seq<I>, k: nat)
    requires k < |ids|
    ensures Without(m, ids[..k + 1]) == Without(m, ids[..k]) - {ids[k]}
  {
  }

  /** The maps once add has written them. */
  ghost function MapsWith(m: Maps, c: Persistent): (r: Maps)
    ensures Added(m, r, c)
  {
    Maps(m.names[c.name := c.uid], With(m.clientIDs, c.clientIDs, c.uid), With(m.ips, c.ips, c.uid),
         With(m.subnets, c.subnets, c.uid), With(m.macs, c.macs, c.uid))
  }

  /** The maps once remove has deleted from them. */
  ghost function MapsWithout(m: Maps, c: Persistent): (r: Maps)
    ensures Removed(m, r, c)
  {
    Maps(m.names - {c.name}, Without(m.clientIDs, c.clientIDs), Without(m.ips, c.ips),
         Without(m.subnets, c.subnets), Without(m.macs, c.macs))
  }

  lemma WithAll<I>(m: map<I, UID>, ids: seq<I>, uid: UID)
    ensures With(m, [], uid) == m && Without(m, []) == m
    ensures ids[..|ids|] == ids
  {
  }

  lemma CoversStored(m: Maps, clients: ClientSet, ip: Addr)
    requires Agree(m, clients)
    ensures forall p :: Covers(clients, ip, p) <==> p in m.subnets && Contains(p, WithoutZone(ip))
  {
    AgreeIsConsistent(m, clients);
    forall p
      ensures Covers(clients, ip, p) <==> p in m.subnets && Contains(p, WithoutZone(ip))
    {
      assert Owner(m, Subnet(p)) == At(m.subnets, p);
    }
  }

  /** The first stored subnet that contains the address, in subnet order, is the best one. */
  lemma FirstCoveringIsLookup(m: Maps, clients: ClientSet, ip: Addr, found: Option<(Prefix, UID)>)
    requires Agree(m, clients) && ip !in m.ips
    requires found.None? ==> forall p :: p in m.subnets ==> !Contains(p, WithoutZone(ip))
    requires found.Some? ==>
      var (p, u) := found.value;
      p in m.subnets && m.subnets[p] == u && Contains(p, WithoutZone(ip)) &&
      forall q :: q in m.subnets && Contains(q, WithoutZone(ip)) ==> SubnetCompare(p, q) <= 0
    ensures found.Some? ==> found.value.1 in clients
    ensures LookupIP(clients, ip) == if found.Some? then Some(found.value.1) else None
  {
    AgreeIsConsistent(m, clients);
    assert Owner(m, IP(ip)).None?;
    CoversStored(m, clients, ip);
    if found.Some? {
      assert Best(clients, ip, found.value.0);
      LookupBest(clients, ip, found.value.0);
      assert Owner(m, Subnet(found.value.0)) == Some(found.value.1);
    }
  }

  /**
   * c lists the address, or a subnet that contains it and is longer than any other subnet that does, or
   * as long and with no higher an address.
   */
  ghost predicate FoundFor(clients: ClientSet, c: Persistent, ip: Addr) {
    ip in c.ips ||
    exists p :: p in c.subnets && Contains(p, WithoutZone(ip)) &&
      forall u, q :: u in clients && q in clients[u].subnets && Contains(q, WithoutZone(ip)) ==>
        p.bits > q.bits || (p.bits == q.bits && !Less(q.addr, p.addr))
  }

  /** Longest-prefix match, in terms of what the clients list. */
  lemma LookupFinds(m: Maps, clients: ClientSet, ip: Addr)
    requires Agree(m, clients)
    ensures forall u :: u in clients && ip in clients[u].ips ==> LookupIP(clients, ip) == Some(u)
    ensures LookupIP(clients, ip).Some? ==> FoundFor(clients, clients[LookupIP(clients, ip).value], ip)
    ensures LookupIP(clients, ip).None? ==>
      forall u, q :: u in clients && q in clients[u].subnets ==> !Contains(q, WithoutZone(ip))
  {
    AgreeIsConsistent(m, clients);
    LookupIsLongestPrefix(clients, ip);
    forall u | u in clients && ip in clients[u].ips
      ensures LookupIP(clients, ip) == Some(u)
    {
      assert Has(clients[u], IP(ip));
    }
    forall u, q | u in clients && q in clients[u].subnets
      ensures Has(clients[u], Subnet(q))
    {
    }
    if LookupIP(clients, ip).Some? {
      var u := LookupIP(clients, ip).value;
      if OwnerOf(clients, IP(ip)).None? {
        var p :| MostSpecific(clients, ip, u, p);
        assert p in clients[u].subnets && Contains(p, WithoutZone(ip));
      } else {
        assert Has(clients[OwnerOf(clients, IP(ip)).value], IP(ip));
      }
    }
  }

  predicate IsStored(clients: ClientSet, c: Persistent) {
    c.uid in clients && clients[c.uid] == c
  }

  /** Which identifier of a client another client already has. */
  datatype Clash = Clash(other: Persistent, ident: Ident)

  /** Clashes are reported in this order. */
  function Rank(i: Ident): nat {
    match i
    case Name(_) => 0
    case ClientID(_) => 1
    case IP(_) => 2
    case Subnet(_) => 3
    case MAC(_) => 4
  }

  /** The order of the reports: names, ClientIDs, addresses, subnets, hardware addresses. */
  lemma ReportOrder(n: string, id: string, ip: Addr, p: Prefix, m: Mac)
    ensures Rank(Name(n)) < Rank(ClientID(id)) < Rank(IP(ip)) < Rank(Subnet(p)) < Rank(MAC(m))
  {
  }

  ghost predicate IsClash(clients: ClientSet, c: Persistent, clash: Clash) {
    && clash.other.uid in clients && clients[clash.other.uid] == clash.other && clash.other.uid != c.uid
    && Has(clash.other, clash.ident) && Has(c, clash.ident)
  }

  /** The answer a check of the identifiers of one kind must give. */
  ghost predicate Reports(clients: ClientSet, c: Persistent, kind: nat, r: Option<Clash>) {
    && (r.Some? ==> IsClash(clients, c, r.value) && Rank(r.value.ident) == kind)
    && (r.None? ==> forall clash :: IsClash(clients, c, clash) ==> Rank(clash.ident) != kind)
  }

  function Deref(clients: ClientSet, o: Option<UID>): Option<Persistent> {
    if o.Some? && o.value in clients then Some(clients[o.value]) else None
  }

  class Index {
    const subnetToUID: SortedMaps.SortedMap<Prefix, UID>
    var nameToUID: map<string, UID>
    var clientIDToUID: map<string, UID>
    var ipToUID: map<Addr, UID>
    var macToUID: map<Mac, UID>
    var uidToClient: ClientSet

    ghost function GetMaps(): Maps
      reads this, subnetToUID
    {
      Maps(nameToUID, clientIDToUID, ipToUID, subnetToUID.vals, macToUID)
    }

    ghost predicate Valid()
      reads this, subnetToUID
    {
      subnetToUID.Valid() && subnetToUID.cmp == SubnetCompare && Agree(GetMaps(), uidToClient)
    }

    constructor ()
      ensures Valid() && uidToClient == map[] && fresh(subnetToUID)
    {
      SubnetCompareIsOrder();
      subnetToUID := new SortedMaps.SortedMap(SubnetCompare);
      nameToUID, clientIDToUID, ipToUID, macToUID := map[], map[], map[], map[];
      uidToClient := map[];
    }

    /** Stores c, which must have a UID and no identifier of another client. */
    method Add(c: Persistent)
      requires Valid()
      requires c.uid != 0 && c.uid !in uidToClient && !Clashing(uidToClient, c)
      modifies this, subnetToUID
      ensures Valid() && uidToClient == old(uidToClient)[c.uid := c]
      ensures Added(old(GetMaps()), GetMaps(), c)
    {
      nameToUID := nameToUID[c.name := c.uid];
      AddClientIDs(c);
      AddIPs(c);
      AddSubnets(c);
      AddMACs(c);
      uidToClient := uidToClient[c.uid := c];
      assert GetMaps() == MapsWith(old(GetMaps()), c);
      AddKeepsAgreement(old(GetMaps()), GetMaps(), old(uidToClient), c);
    }

    method AddClientIDs(c: Persistent)
      modifies this`clientIDToUID
      ensures clientIDToUID == With(old(clientIDToUID), c.clientIDs, c.uid)
    {
      WithAll(clientIDToUID, c.clientIDs, c.uid);
      for k := 0 to |c.clientIDs|
        invariant clientIDToUID == With(old(clientIDToUID), c.clientIDs[..k], c.uid)
      {
        WithNext(old(clientIDToUID), c.clientIDs, k, c.uid);
        clientIDToUID := clientIDToUID[c.clientIDs[k] := c.uid];
      }
    }

    method AddIPs(c: Persistent)
      modifies this`ipToUID
      ensures ipToUID == With(old(ipToUID), c.ips, c.uid)
    {
      WithAll(ipToUID, c.ips, c.uid);
      for k := 0 to |c.ips|
        invariant ipToUID == With(old(ipToUID), c.ips[..k], c.uid)
      {
        WithNext(old(ipToUID), c.ips, k, c.uid);
        ipToUID := ipToUID[c.ips[k] := c.uid];
      }
    }

    method AddSubnets(c: Persistent)
      requires subnetToUID.Valid()
      modifies subnetToUID
      ensures subnetToUID.Valid() && subnetToUID.vals == With(old(subnetToUID.vals), c.subnets, c.uid)
    {
      WithAll(subnetToUID.vals, c.subnets, c.uid);
      for k := 0 to |c.subnets|
        invariant subnetToUID.Valid() && subnetToUID.vals == With(old(subnetToUID.vals), c.subnets[..k], c.uid)
      {
        WithNext(old(subnetToUID.vals), c.subnets, k, c.uid);
        subnetToUID.Set(c.subnets[k], c.uid);
      }
    }

    method AddMACs(c: Persistent)
      modifies this`macToUID
      ensures macToUID == With(old(macToUID), c.macs, c.uid)
    {
      WithAll(macToUID, c.macs, c.uid);
      for k := 0 to |c.macs|
        invariant macToUID == With(old(macToUID), c.macs[..k], c.uid)
      {
        WithNext(old(macToUID), c.macs, k, c.uid);
        macToUID := macToUID[c.macs[k] := c.uid];
      }
    }

    /** Removes the stored client c. */
    method Remove(c: Persistent)
      requires Valid() && c.uid in uidToClient && uidToClient[c.uid] == c
      modifies this, subnetToUID
      ensures Valid() && uidToClient == old(uidToClient) - {c.uid}
      ensures Removed(old(GetMaps()), GetMaps(), c)
    {
      nameToUID := nameToUID - {c.name};
      RemoveClientIDs(c);
      RemoveIPs(c);
      RemoveSubnets(c);
      RemoveMACs(c);
      uidToClient := uidToClient - {c.uid};
      assert GetMaps() == MapsWithout(old(GetMaps()), c);
      RemoveKeepsAgreement(old(GetMaps()), GetMaps(), old(uidToClient), c.uid);
    }

    method RemoveClientIDs(c: Persistent)
      modifies this`clientIDToUID
      ensures clientIDToUID == Without(old(clientIDToUID), c.clientIDs)
    {
      WithAll(clientIDToUID, c.clientIDs, c.uid);
      for k := 0 to |c.clientIDs|
        invariant clientIDToUID == Without(old(clientIDToUID), c.clientIDs[..k])
      {
        WithoutNext(old(clientIDToUID), c.clientIDs, k);
        clientIDToUID := clientIDToUID - {c.clientIDs[k]};
      }
    }

    method RemoveIPs(c: Persistent)
      modifies this`ipToUID
      ensures ipToUID == Without(old(ipToUID), c.ips)
    {
      WithAll(ipToUID, c.ips, c.uid);
      for k := 0 to |c.ips|
        invariant ipToUID == Without(old(ipToUID), c.ips[..k])
      {
        WithoutNext(old(ipToUID), c.ips, k);
        ipToUID := ipToUID - {c.ips[k]};
      }
    }

    method RemoveSubnets(c: Persistent)
      requires subnetToUID.Valid()
      modifies subnetToUID
      ensures subnetToUID.Valid() && subnetToUID.vals == Without(old(subnetToUID.vals), c.subnets)
    {
      WithAll(subnetToUID.vals, c.subnets, c.uid);
      for k := 0 to |c.subnets|
        invariant subnetToUID.Valid() && subnetToUID.vals == Without(old(subnetToUID.vals), c.subnets[..k])
      {
        WithoutNext(old(subnetToUID.vals), c.subnets, k);
        subnetToUID.Del(c.subnets[k]);
      }
    }

    method RemoveMACs(c: Persistent)
      modifies this`macToUID
      ensures macToUID == Without(old(macToUID), c.macs)
    {
      WithAll(macToUID, c.macs, c.uid);
      for k := 0 to |c.macs|
        invariant macToUID == Without(old(macToUID), c.macs[..k])
      {
        WithoutNext(old(macToUID), c.macs, k);
        macToUID := macToUID - {c.macs[k]};
      }
    }

    method FindByClientID(id: string) returns (r: Option<Persistent>)
      requires Valid()
      ensures r == Deref(uidToClient, OwnerOf(uidToClient, ClientID(id)))
      ensures r.Some? ==> IsStored(uidToClient, r.value) && id in r.value.clientIDs
      ensures r.None? ==> forall u :: u in uidToClient ==> id !in uidToClient[u].clientIDs
    {
      AgreeIsConsistent(GetMaps(), uidToClient);
      assert Owner(GetMaps(), ClientID(id)) == At(clientIDToUID, id);
      r := if id in clientIDToUID then Some(uidToClient[clientIDToUID[id]]) else None;
    }

    method FindByName(name: string) returns (r: Option<Persistent>)
      requires Valid()
      ensures r == Deref(uidToClient, OwnerOf(uidToClient, Name(name)))
      ensures r.Some? ==> IsStored(uidToClient, r.value) && r.value.name == name
      ensures r.None? ==> forall u :: u in uidToClient ==> uidToClient[u].name != name
    {
      AgreeIsConsistent(GetMaps(), uidToClient);
      assert Owner(GetMaps(), Name(name)) == At(nameToUID, name);
      r := if name in nameToUID then Some(uidToClient[nameToUID[name]]) else None;
    }

    method FindByMAC(mac: Mac) returns (r: Option<Persistent>)
      requires Valid()
      ensures r == Deref(uidToClient, OwnerOf(uidToClient, MAC(mac)))
      ensures r.Some? ==> IsStored(uidToClient, r.value) && mac in r.value.macs
      ensures r.None? ==> forall u :: u in uidToClient ==> mac !in uidToClient[u].macs
    {
      AgreeIsConsistent(GetMaps(), uidToClient);
      assert Owner(GetMaps(), MAC(mac)) == At(macToUID, mac);
      r := if mac in macToUID then Some(uidToClient[macToUID[mac]]) else None;
    }

    /** Finds the exact subnet by a walk over the ordered subnets. */
    method FindByCIDR(subnet: Prefix) returns (r: Option<Persistent>)
      requires Valid()
      ensures r == Deref(uidToClient, OwnerOf(uidToClient, Subnet(subnet)))
      ensures r.Some? ==> IsStored(uidToClient, r.value) && subnet in r.value.subnets
      ensures r.None? ==> forall u :: u in uidToClient ==> subnet !in uidToClient[u].subnets
    {
      AgreeIsConsistent(GetMaps(), uidToClient);
      assert Owner(GetMaps(), Subnet(subnet)) == At(subnetToUID.vals, subnet);
      var found := subnetToUID.First((pref, _) => pref == subnet);
      r := if found.Some? then Some(uidToClient[found.value.1]) else None;
    }

    /** The owner of the address, else of the first stored subnet, longest first, that contains it. */
    method FindByIP(ip: Addr) returns (r: Option<Persistent>)
      requires Valid()
      ensures r == Deref(uidToClient, LookupIP(uidToClient, ip))
      ensures forall u :: u in uidToClient && ip in uidToClient[u].ips ==> r == Some(uidToClient[u])
      ensures r.Some? ==> IsStored(uidToClient, r.value) && FoundFor(uidToClient, r.value, ip)
      ensures r.None? ==>
        forall u, q :: u in uidToClient && q in uidToClient[u].subnets ==> !Contains(q, WithoutZone(ip))
    {
      AgreeIsConsistent(GetMaps(), uidToClient);
      LookupFinds(GetMaps(), uidToClient, ip);
      assert Owner(GetMaps(), IP(ip)) == At(ipToUID, ip);
      if ip in ipToUID {
        return Some(uidToClient[ipToUID[ip]]);
      }
      var ipWithoutZone := WithoutZone(ip);
      var found := subnetToUID.First((pref, _) => Contains(pref, ipWithoutZone));
      FirstCoveringIsLookup(GetMaps(), uidToClient, ip, found);
      r := if found.Some? then Some(uidToClient[found.value.1]) else None;
    }

    method ClashesUID(c: Persistent) returns (r: Option<Persistent>)
      ensures r == Deref(uidToClient, Some(c.uid))
    {
      r := if c.uid in uidToClient then Some(uidToClient[c.uid]) else None;
    }

    method ClashesName(c: Persistent) returns (r: Option<Clash>)
      requires Valid()
      ensures Reports(uidToClient, c, 0, r)
    {
      var existing := FindByName(c.name);
      AgreeIsConsistent(GetMaps(), uidToClient);
      if existing.Some? && existing.value.uid != c.uid {
        return Some(Clash(existing.value, Name(c.name)));
      }
      NoOther(c, Name(c.name));
      r := None;
    }

    /** If the maps give i to nobody or to c itself, no other client has it. */
    lemma NoOther(c: Persistent, i: Ident)
      requires Valid()
      requires Owner(GetMaps(), i).None? || Owner(GetMaps(), i).value == c.uid
      ensures forall u :: u in uidToClient && Has(uidToClient[u], i) ==> u == c.uid
    {
    }

    method ClashesClientID(c: Persistent) returns (r: Option<Clash>)
      requires Valid()
      ensures Reports(uidToClient, c, 1, r)
    {
      for k := 0 to |c.clientIDs|
        invariant forall n, u :: 0 <= n < k && u in uidToClient && Has(uidToClient[u], ClientID(c.clientIDs[n])) ==>
                    u == c.uid
      {
        var id := c.clientIDs[k];
        assert Owner(GetMaps(), ClientID(id)) == At(clientIDToUID, id);
        if id in clientIDToUID && clientIDToUID[id] != c.uid {
          return Some(Clash(uidToClient[clientIDToUID[id]], ClientID(id)));
        }
        NoOther(c, ClientID(id));
      }
      r := None;
    }

    method ClashesIP(c: Persistent) returns (r: Option<Clash>)
      requires Valid()
      ensures Reports(uidToClient, c, 2, r)
    {
      for k := 0 to |c.ips|
        invariant forall n, u :: 0 <= n < k && u in uidToClient && Has(uidToClient[u], IP(c.ips[n])) ==> u == c.uid
      {
        var ip := c.ips[k];
        assert Owner(GetMaps(), IP(ip)) == At(ipToUID, ip);
        if ip in ipToUID && ipToUID[ip] != c.uid {
          return Some(Clash(uidToClient[ipToUID[ip]], IP(ip)));
        }
        NoOther(c, IP(ip));
      }
      r := None;
    }

    method ClashesSubnet(c: Persistent) returns (r: Option<Clash>)
      requires Valid()
      ensures Reports(uidToClient, c, 3, r)
    {
      for k := 0 to |c.subnets|
        invariant forall n, u :: 0 <= n < k && u in uidToClient && Has(uidToClient[u], Subnet(c.subnets[n])) ==>
                    u == c.uid
      {
        var s := c.subnets[k];
        assert Owner(GetMaps(), Subnet(s)) == At(subnetToUID.vals, s);
        var existing := subnetToUID.First((p, _) => s == p);
        if existing.Some? && existing.value.1 != c.uid {
          return Some(Clash(uidToClient[existing.value.1], Subnet(s)));
        }
        NoOther(c, Subnet(s));
      }
      r := None;
    }

    method ClashesMAC(c: Persistent) returns (r: Option<Clash>)
      requires Valid()
      ensures Reports(uidToClient, c, 4, r)
    {
      for k := 0 to |c.macs|
        invariant forall n, u :: 0 <= n < k && u in uidToClient && Has(uidToClient[u], MAC(c.macs[n])) ==> u == c.uid
      {
        var mac := c.macs[k];
        assert Owner(GetMaps(), MAC(mac)) == At(macToUID, mac);
        if mac in macToUID && macToUID[mac] != c.uid {
          return Some(Clash(uidToClient[macToUID[mac]], MAC(mac)));
        }
        NoOther(c, MAC(mac));
      }
      r := None;
    }

    /** A clash of c with another stored client, of the first kind that has one; None only if there is none. */
    method Clashes(c: Persistent) returns (r: Option<Clash>)
      requires Valid()
      ensures r.None? <==> !Clashing(uidToClient, c)
      ensures r.Some? ==> IsClash(uidToClient, c, r.value)
      ensures r.Some? ==> forall clash :: IsClash(uidToClient, c, clash) ==> Rank(r.value.ident) <= Rank(clash.ident)
    {
      r := ClashesName(c);
      if r.None? {
        r := ClashesClientID(c);
      }
      if r.None? {
        r := ClashesIP(c);
      }
      if r.None? {
        r := ClashesSubnet(c);
      }
      if r.None? {
        r := ClashesMAC(c);
      }
      if r.Some? {
        assert Has(uidToClient[r.value.other.uid], r.value.ident);
      } else {
        forall u, i | u in uidToClient && u != c.uid && Has(uidToClient[u], i)
          ensures !Has(c, i)
        {
          assert !IsClash(uidToClient, c, Clash(uidToClient[u], i)) by {
            assert Rank(i) <= 4;
          }
        }
      }
    }
  }
}
