/** Persistent clients, what identifies them, and how one is looked up: the linear specification. */
module Clients {
  import opened Common
  import opened Netip

  /** A 16-byte identifier; zero is the empty one. */
  type UID = u128

  /** The fields of a client from which its upstream configuration is built. */
  datatype Upstreams = Upstreams(servers: seq<string>, cacheSize: u32, cacheEnabled: bool)

  datatype Persistent = Persistent(
    uid: UID,
    name: string,
    clientIDs: seq<string>,
    ips: seq<Addr>,
    subnets: seq<Prefix>,
    macs: seq<Mac>,
    upstreams: Upstreams,
    tags: seq<string>)

  /** Anything two clients may not share. */
  datatype Ident = Name(name: string) | ClientID(id: string) | IP(ip: Addr) | Subnet(subnet: Prefix) | MAC(mac: Mac)

  predicate Has(c: Persistent, i: Ident) {
    match i
    case Name(n) => n == c.name
    case ClientID(id) => id in c.clientIDs
    case IP(ip) => ip in c.ips
    case Subnet(p) => p in c.subnets
    case MAC(m) => m in c.macs
  }

  type ClientSet = map<UID, Persistent>

  /** Every client is stored under its own non-empty UID, and no two share an identifier. */
  ghost predicate Consistent(clients: ClientSet) {
    && (forall u :: u in clients ==> clients[u].uid == u != 0)
    && (forall u, v, i :: u in clients && v in clients && Has(clients[u], i) && Has(clients[v], i) ==> u == v)
  }

  /** A client other than c, by UID, has an identifier of c. */
  ghost predicate Clashing(clients: ClientSet, c: Persistent) {
    exists u, i :: u in clients && u != c.uid && Has(clients[u], i) && Has(c, i)
  }

  /** The client that has i; at most one in a consistent set. */
  ghost function OwnerOf(clients: ClientSet, i: Ident): (o: Option<UID>)
    ensures o.Some? ==> o.value in clients && Has(clients[o.value], i)
    ensures o.None? ==> forall u :: u in clients ==> !Has(clients[u], i)
  {
    if exists u :: u in clients && Has(clients[u], i) then
      var u :| u in clients && Has(clients[u], i);
      Some(u)
    else None
  }

  lemma OwnerIs(clients: ClientSet, i: Ident, u: UID)
    requires Consistent(clients) && u in clients && Has(clients[u], i)
    ensures OwnerOf(clients, i) == Some(u)
  {
  }

  /** Some client lists p, and p contains the address, whose zone prefixes do not have. */
  ghost predicate Covers(clients: ClientSet, ip: Addr, p: Prefix) {
    Contains(p, WithoutZone(ip)) && OwnerOf(clients, Subnet(p)).Some?
  }

  ghost predicate Best(clients: ClientSet, ip: Addr, p: Prefix) {
    Covers(clients, ip, p) && forall q :: Covers(clients, ip, q) ==> SubnetCompare(p, q) <= 0
  }

  /** The owner of the address itself, else of the first covering subnet. */
  ghost function LookupIP(clients: ClientSet, ip: Addr): (o: Option<UID>)
    ensures o.Some? ==> o.value in clients
  {
    if OwnerOf(clients, IP(ip)).Some? then OwnerOf(clients, IP(ip))
    else if exists p :: Best(clients, ip, p) then
      var p :| Best(clients, ip, p);
      OwnerOf(clients, Subnet(p))
    else None
  }

  lemma BestIsUnique(clients: ClientSet, ip: Addr, p: Prefix, q: Prefix)
    requires Best(clients, ip, p) && Best(clients, ip, q)
    ensures p == q
  {
    SubnetCompareIsOrder();
    assert Opposes(SubnetCompare, p, q);
  }

  lemma LookupBest(clients: ClientSet, ip: Addr, p: Prefix)
    requires OwnerOf(clients, IP(ip)).None? && Best(clients, ip, p)
    ensures LookupIP(clients, ip) == OwnerOf(clients, Subnet(p))
  {
    forall q | Best(clients, ip, q)
      ensures q == p
    {
      BestIsUnique(clients, ip, p, q);
    }
  }

  lemma {:induction false} LeastExists(ps: set<Prefix>) returns (p: Prefix)
    requires ps != {}
    ensures p in ps && forall q :: q in ps ==> SubnetCompare(p, q) <= 0
    decreases ps
  {
    var first :| first in ps;
    var rest := ps - {first};
    p := first;
    assert forall q :: q in ps <==> q == first || q in rest;
    if rest != {} {
      var r := LeastExists(rest);
      SubnetCompareIsOrder();
      assert Opposes(SubnetCompare, first, r) && Opposes(SubnetCompare, r, first);
      if SubnetCompare(first, r) > 0 {
        p := r;
        assert SubnetCompare(r, first) < 0;
      }
      forall q | q in ps
        ensures SubnetCompare(p, q) <= 0
      {
        assert q == first || q in rest;
        assert Opposes(SubnetCompare, first, first);
        assert Chains(SubnetCompare, first, r, q) && Opposes(SubnetCompare, r, q);
      }
    }
  }

  lemma BestExists(clients: ClientSet, ip: Addr, p: Prefix) returns (best: Prefix)
    requires Covers(clients, ip, p)
    ensures Best(clients, ip, best)
  {
    var covering := set u, q | u in clients && q in clients[u].subnets && Contains(q, WithoutZone(ip)) :: q;
    forall q
      ensures q in covering <==> Covers(clients, ip, q)
    {
      if q in covering {
        var u :| u in clients && q in clients[u].subnets;
        assert Has(clients[u], Subnet(q));
      }
    }
    best := LeastExists(covering);
  }

  /**
   * Client u lists the covering subnet p, and every covering subnet of any client contains all of p
   * and, if it is as long, does not have a lower address.
   */
  ghost predicate MostSpecific(clients: ClientSet, ip: Addr, u: UID, p: Prefix) {
    && u in clients && Has(clients[u], Subnet(p)) && Contains(p, WithoutZone(ip))
    && forall v, q :: v in clients && Has(clients[v], Subnet(q)) && Contains(q, WithoutZone(ip)) ==>
      && p.bits >= q.bits && (p.bits == q.bits ==> !Less(q.addr, p.addr))
      && forall other :: Contains(p, other) ==> Contains(q, other)
  }

  /** Longest-prefix match: who is found for an address, and when nobody is. */
  lemma LookupIsLongestPrefix(clients: ClientSet, ip: Addr)
    requires Consistent(clients)
    ensures forall u :: u in clients && Has(clients[u], IP(ip)) ==> LookupIP(clients, ip) == Some(u)
    ensures OwnerOf(clients, IP(ip)).None? ==>
      match LookupIP(clients, ip)
      case Some(u) => exists p :: MostSpecific(clients, ip, u, p)
      case None => forall u, q :: u in clients && Has(clients[u], Subnet(q)) ==> !Contains(q, WithoutZone(ip))
  {
    forall u | u in clients && Has(clients[u], IP(ip)) {
      OwnerIs(clients, IP(ip), u);
    }
    if OwnerOf(clients, IP(ip)).None? {
      if p :| Covers(clients, ip, p) {
        var best := BestExists(clients, ip, p);
        LookupBest(clients, ip, best);
        BestIsMostSpecific(clients, ip, best);
      } else {
        forall u, q | u in clients && Has(clients[u], Subnet(q))
          ensures !Contains(q, WithoutZone(ip))
        {
          assert !Covers(clients, ip, q);
        }
      }
    }
  }

  lemma BestIsMostSpecific(clients: ClientSet, ip: Addr, p: Prefix)
    requires Best(clients, ip, p)
    ensures MostSpecific(clients, ip, OwnerOf(clients, Subnet(p)).value, p)
  {
    forall v, q | v in clients && Has(clients[v], Subnet(q)) && Contains(q, WithoutZone(ip))
      ensures p.bits >= q.bits && (p.bits == q.bits ==> !Less(q.addr, p.addr))
      ensures forall other :: Contains(p, other) ==> Contains(q, other)
    {
      assert Covers(clients, ip, q);
      SubnetOrderIff(q, p);
      SubnetCompareIsOrder();
      assert Opposes(SubnetCompare, p, q) && Opposes(SubnetCompare, q, p);
      forall other | Contains(p, other) {
        LongerIsInside(p, q, WithoutZone(ip), other);
      }
    }
  }

  /** The parameters of a search; an empty ClientID, the zero address and prefix, and no MAC mean "not given". */
  datatype FindParams = FindParams(clientID: string, remoteIP: Addr, subnet: Prefix, mac: Option<Mac>)

  ghost function OwnerOfMAC(clients: ClientSet, mac: Option<Mac>): Option<UID> {
    if mac.Some? then OwnerOf(clients, MAC(mac.value)) else None
  }

  /** Lookup by address, then by the MAC that the DHCP server has leased the address to. */
  ghost function LookupLeased(clients: ClientSet, ip: Addr, leased: Option<Mac>): Option<UID> {
    if LookupIP(clients, ip).Some? then LookupIP(clients, ip) else OwnerOfMAC(clients, leased)
  }

  function FirstFound<T>(candidates: seq<Option<T>>): Option<T> {
    if candidates == [] then None
    else if candidates[0].Some? then candidates[0]
    else FirstFound(candidates[1..])
  }

  /** What each parameter finds on its own, in the order of preference. */
  ghost function FindCandidates(clients: ClientSet, params: FindParams, leased: Option<Mac>): seq<Option<UID>> {
    [ if params.clientID != "" then OwnerOf(clients, ClientID(params.clientID)) else None,
      if params.remoteIP != NoAddr then LookupLeased(clients, params.remoteIP, leased) else None,
      if params.subnet != NoPrefix then OwnerOf(clients, Subnet(params.subnet)) else None,
      OwnerOfMAC(clients, params.mac) ]
  }

  ghost function FindSpec(clients: ClientSet, params: FindParams, leased: Option<Mac>): Option<UID> {
    FirstFound(FindCandidates(clients, params, leased))
  }

  /** The client that a DNS query with the given ClientID and address belongs to. */
  ghost function QuerySpec(clients: ClientSet, id: string, ip: Addr, leased: Option<Mac>): (o: Option<UID>)
    ensures o.Some? ==> o.value in clients
  {
    if OwnerOf(clients, ClientID(id)).Some? then OwnerOf(clients, ClientID(id))
    else LookupLeased(clients, ip, leased)
  }

  /** The two clients have the name, or some other identifier, in common. */
  ghost predicate Share(a: Persistent, b: Persistent) {
    || a.name == b.name
    || (exists id :: id in a.clientIDs && id in b.clientIDs)
    || (exists ip :: ip in a.ips && ip in b.ips)
    || (exists p :: p in a.subnets && p in b.subnets)
    || (exists m :: m in a.macs && m in b.macs)
  }

  lemma ShareIff(a: Persistent, b: Persistent)
    ensures Share(a, b) <==> exists i :: Has(a, i) && Has(b, i)
  {
    if a.name == b.name { assert Has(a, Name(a.name)) && Has(b, Name(a.name)); }
    if id :| id in a.clientIDs && id in b.clientIDs { assert Has(a, ClientID(id)) && Has(b, ClientID(id)); }
    if ip :| ip in a.ips && ip in b.ips { assert Has(a, IP(ip)) && Has(b, IP(ip)); }
    if p :| p in a.subnets && p in b.subnets { assert Has(a, Subnet(p)) && Has(b, Subnet(p)); }
    if m :| m in a.macs && m in b.macs { assert Has(a, MAC(m)) && Has(b, MAC(m)); }
  }

  /** A set of clients is consistent exactly if the UIDs are right and no two clients share anything. */
  lemma ConsistentIff(clients: ClientSet)
    ensures Consistent(clients) <==>
      && (forall u :: u in clients ==> clients[u].uid == u != 0)
      && (forall u, v :: u in clients && v in clients && u != v ==> !Share(clients[u], clients[v]))
  {
    forall u, v | u in clients && v in clients {
      ShareIff(clients[u], clients[v]);
    }
  }

  lemma ClashingIff(clients: ClientSet, c: Persistent)
    ensures Clashing(clients, c) <==> exists u :: u in clients && u != c.uid && Share(clients[u], c)
  {
    forall u | u in clients {
      ShareIff(clients[u], c);
    }
  }

  /** Whose every identifier is once a client has been put in, new or in place of its old self. */
  lemma PutOwners(clients: ClientSet, c: Persistent, i: Ident)
    requires Consistent(clients) && c.uid != 0 && !Clashing(clients, c)
    ensures OwnerOf(clients[c.uid := c], i) ==
      if Has(c, i) then Some(c.uid)
      else if c.uid in clients && Has(clients[c.uid], i) then None
      else OwnerOf(clients, i)
  {
    var after := clients[c.uid := c];
    if Has(c, i) {
      assert after[c.uid] == c;
      OwnerIs(after, i, c.uid);
    } else if OwnerOf(clients, i).Some? && OwnerOf(clients, i).value != c.uid {
      var u := OwnerOf(clients, i).value;
      assert after[u] == clients[u];
      assert Consistent(after);
      OwnerIs(after, i, u);
    }
  }

  /** Whose every identifier is once a client is gone. */
  lemma DropOwners(clients: ClientSet, u: UID, i: Ident)
    requires Consistent(clients) && u in clients
    ensures OwnerOf(clients - {u}, i) == if Has(clients[u], i) then None else OwnerOf(clients, i)
  {
    if !Has(clients[u], i) && OwnerOf(clients, i).Some? {
      OwnerIs(clients - {u}, i, OwnerOf(clients, i).value);
    }
  }

  ghost predicate ListsID(clients: ClientSet, id: string, u: UID) {
    u in clients && id in clients[u].clientIDs
  }

  ghost predicate ListsSubnet(clients: ClientSet, p: Prefix, u: UID) {
    u in clients && p in clients[u].subnets
  }

  ghost predicate ListsMAC(clients: ClientSet, mac: Option<Mac>, u: UID) {
    u in clients && mac.Some? && mac.value in clients[u].macs
  }

  /** By address and failing that by the leased MAC, u is the client. */
  ghost predicate FoundByAddr(clients: ClientSet, ip: Addr, leased: Option<Mac>, u: UID) {
    LookupIP(clients, ip) == Some(u) || (LookupIP(clients, ip).None? && ListsMAC(clients, leased, u))
  }

  lemma LookupLeasedIff(clients: ClientSet, ip: Addr, leased: Option<Mac>, u: UID)
    requires Consistent(clients)
    ensures LookupLeased(clients, ip, leased) == Some(u) <==> FoundByAddr(clients, ip, leased, u)
  {
    if ListsMAC(clients, leased, u) {
      assert Has(clients[u], MAC(leased.value));
      OwnerIs(clients, MAC(leased.value), u);
    }
  }

  lemma OwnerOfID(clients: ClientSet, id: string, u: UID)
    requires Consistent(clients)
    ensures OwnerOf(clients, ClientID(id)) == Some(u) <==> ListsID(clients, id, u)
  {
    if ListsID(clients, id, u) {
      assert Has(clients[u], ClientID(id));
      OwnerIs(clients, ClientID(id), u);
    }
  }

  /** A query belongs to the client that lists its ClientID; only if none does, to the one found by address. */
  lemma QuerySelects(clients: ClientSet, id: string, ip: Addr, leased: Option<Mac>, u: UID)
    requires Consistent(clients)
    ensures QuerySpec(clients, id, ip, leased) == Some(u) <==>
      ListsID(clients, id, u) ||
      ((forall v :: !ListsID(clients, id, v)) && FoundByAddr(clients, ip, leased, u))
  {
    OwnerOfID(clients, id, u);
    LookupLeasedIff(clients, ip, leased, u);
    if OwnerOf(clients, ClientID(id)).Some? {
      OwnerOfID(clients, id, OwnerOf(clients, ClientID(id)).value);
    } else {
      forall v
        ensures !ListsID(clients, id, v)
      {
        OwnerOfID(clients, id, v);
      }
    }
  }

  /** What the parameter in each position of the order of preference finds. */
  ghost predicate Finds(clients: ClientSet, params: FindParams, leased: Option<Mac>, k: nat, u: UID) {
    match k
    case 0 => params.clientID != "" && ListsID(clients, params.clientID, u)
    case 1 => params.remoteIP != NoAddr && FoundByAddr(clients, params.remoteIP, leased, u)
    case 2 => params.subnet != Prefix(NoAddr, -1) && ListsSubnet(clients, params.subnet, u)
    case _ => ListsMAC(clients, params.mac, u)
  }

  lemma CandidateIff(clients: ClientSet, params: FindParams, leased: Option<Mac>, k: nat, u: UID)
    requires Consistent(clients) && k < 4
    ensures FindCandidates(clients, params, leased)[k] == Some(u) <==> Finds(clients, params, leased, k, u)
  {
    match k {
      case 0 => OwnerOfID(clients, params.clientID, u);
      case 1 => LookupLeasedIff(clients, params.remoteIP, leased, u);
      case 2 =>
        if ListsSubnet(clients, params.subnet, u) {
          assert Has(clients[u], Subnet(params.subnet));
          OwnerIs(clients, Subnet(params.subnet), u);
        }
      case 3 =>
        if ListsMAC(clients, params.mac, u) {
          assert Has(clients[u], MAC(params.mac.value));
          OwnerIs(clients, MAC(params.mac.value), u);
        }
    }
  }

  /** The search finds u exactly if some parameter does and none preferred to it finds anybody. */
  lemma FindSelects(clients: ClientSet, params: FindParams, leased: Option<Mac>, u: UID)
    requires Consistent(clients)
    ensures FindSpec(clients, params, leased) == Some(u) <==>
      exists k: nat :: k < 4 && Finds(clients, params, leased, k, u) &&
        forall j: nat, v: UID :: j < k ==> !Finds(clients, params, leased, j, v)
  {
    var c := FindCandidates(clients, params, leased);
    FirstOfFour(c[0], c[1], c[2], c[3]);
    forall j: nat, v: UID | j < 4
      ensures c[j] == Some(v) <==> Finds(clients, params, leased, j, v)
    {
      CandidateIff(clients, params, leased, j, v);
    }
    forall j: nat | j < 4
      ensures c[j].Some? <==> exists v: UID :: Finds(clients, params, leased, j, v)
    {
      if c[j].Some? {
        assert Finds(clients, params, leased, j, c[j].value);
      }
    }
  }

  lemma FirstOfFour<T>(a: Option<T>, b: Option<T>, c: Option<T>, d: Option<T>)
    ensures FirstFound([a, b, c, d]) ==
      if a.Some? then a else if b.Some? then b else if c.Some? then c else d
  {
    assert [a, b, c, d][1..] == [b, c, d] && [b, c, d][1..] == [c, d] && [c, d][1..] == [d] && [d][1..] == [];
    assert FirstFound([d]) == d;
    assert FirstFound([c, d]) == if c.Some? then c else d;
  }
}
