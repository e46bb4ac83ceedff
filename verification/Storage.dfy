/** The client storage: persistent clients, their upstream configurations, and runtime clients. */
module Storages {
  import opened Common
  import opened Netip
  import opened Clients
  import opened StoreSpec
  import UpstreamSpec
  import RuntimeSpec
  import ClientIndex
  import UpstreamManagers
  import RuntimeIndexes

  datatype StorageError =
    | BadClient(reason: Invalid)
    | DuplicateUID(other: Persistent)
    | Clash(clash: ClientIndex.Clash)
    | NotFound(name: string)

  /** A clash of c with a stored client, of the first kind that has one. */
  ghost predicate FirstClash(clients: ClientSet, c: Persistent, clash: ClientIndex.Clash) {
    && ClientIndex.IsClash(clients, c, clash)
    && forall other :: ClientIndex.IsClash(clients, c, other) ==>
      ClientIndex.Rank(clash.ident) <= ClientIndex.Rank(other.ident)
  }

  /** What is wrong with adding p: the complaint about p itself comes first, then its UID, then a clash. */
  ghost predicate AddFails(conf: Config, clients: ClientSet, p: Persistent, e: StorageError) {
    match e
    case BadClient(reason) => Validate(conf, p) == Some(reason)
    case DuplicateUID(other) => Validate(conf, p).None? && p.uid in clients && other == clients[p.uid]
    case Clash(clash) => Validate(conf, p).None? && p.uid !in clients && FirstClash(clients, p, clash)
    case NotFound(_) => false
  }

  /** What is wrong with putting p in place of the client of that name. */
  ghost predicate UpdateFails(conf: Config, clients: ClientSet, name: string, p: Persistent, e: StorageError) {
    match e
    case BadClient(reason) => Validate(conf, p) == Some(reason)
    case NotFound(n) => Validate(conf, p).None? && OwnerOf(clients, Name(name)).None? && n == name
    case Clash(clash) =>
      var o := OwnerOf(clients, Name(name));
      Validate(conf, p).None? && o.Some? && FirstClash(clients, p.(uid := o.value), clash)
    case DuplicateUID(_) => false
  }

  /** What the caller's object holds after an update: tidied if valid, and with the UID of the client of that name. */
  ghost function AfterUpdate(conf: Config, clients: ClientSet, name: string, p: Persistent): Persistent {
    if Validate(conf, p).Some? then p
    else
      match OwnerOf(clients, Name(name))
      case None => Tidy(p)
      case Some(u) => Tidy(p).(uid := u)
  }

  /** A clash of the tidied client is a clash of the client. */
  lemma TidyClashes(clients: ClientSet, p: Persistent, clash: Option<ClientIndex.Clash>)
    ensures Clashing(clients, Tidy(p)) <==> Clashing(clients, p)
    ensures clash.Some? ==> (FirstClash(clients, Tidy(p), clash.value) <==> FirstClash(clients, p, clash.value))
  {
    TidyHas(p);
    assert forall other :: ClientIndex.IsClash(clients, Tidy(p), other) <==> ClientIndex.IsClash(clients, p, other);
  }

  /** The first candidate found is the one that all before it leave to. */
  lemma {:induction false} FirstFoundAt<T>(candidates: seq<Option<T>>, j: nat)
    requires j <= |candidates| && forall k :: 0 <= k < j ==> candidates[k].None?
    requires j < |candidates| ==> candidates[j].Some?
    ensures FirstFound(candidates) == if j < |candidates| then candidates[j] else None
  {
    if j > 0 {
      FirstFoundAt(candidates[1..], j - 1);
    }
  }

  /** Parameter k was given. */
  predicate Given(params: FindParams, k: nat) {
    match k
    case 0 => params.clientID != ""
    case 1 => params.remoteIP != NoAddr
    case 2 => params.subnet != NoPrefix
    case _ => params.mac.Some?
  }

  lemma NotGivenFindsNothing(clients: ClientSet, params: FindParams, leased: Option<Mac>)
    ensures forall k :: 0 <= k < 4 && !Given(params, k) ==> FindCandidates(clients, params, leased)[k].None?
  {
  }

  class Storage {
    const conf: Config
    const runtimeSourceDHCP: bool
    const index: ClientIndex.Index
    const upstreamManager: UpstreamManagers.UpstreamManager
    const runtimeIndex: RuntimeIndexes.RuntimeIndex
    var arpAlive: bool

    /** The persistent side of the state as a value. */
    ghost function Persisted(): Store
      reads this, index, upstreamManager
    {
      Store(index.uidToClient, upstreamManager.Model())
    }

    ghost function RuntimeState(): RuntimeSpec.State
      reads this, runtimeIndex
    {
      RuntimeSpec.State(runtimeIndex.Clients, arpAlive)
    }

    /** The index and the upstream manager are valid, each on its own. */
    ghost predicate Wired()
      reads this, index, index.subnetToUID, upstreamManager, upstreamManager.Repr
    {
      && index.Valid() && upstreamManager.Valid()
      && index !in upstreamManager.Repr && index.subnetToUID !in upstreamManager.Repr
    }

    /** The index and the upstream manager are valid and describe the same clients. */
    ghost predicate Valid()
      reads this, index, index.subnetToUID, upstreamManager, upstreamManager.Repr
    {
      Wired() && Inv(Persisted())
    }

    ghost predicate RuntimeValid()
      reads this, runtimeIndex, runtimeIndex.Repr
    {
      && runtimeIndex.Valid()
      && this !in runtimeIndex.Repr && index !in runtimeIndex.Repr && index.subnetToUID !in runtimeIndex.Repr
    }

    constructor (conf: Config, runtimeSourceDHCP: bool)
      ensures Valid() && Persisted() == NewStore
      ensures RuntimeValid() && RuntimeState() == RuntimeSpec.NewState
      ensures fresh(index) && fresh(index.subnetToUID) && fresh(upstreamManager.Repr) && fresh(runtimeIndex.Repr)
      ensures upstreamManager.Repr !! runtimeIndex.Repr
    {
      this.conf := conf;
      this.runtimeSourceDHCP := runtimeSourceDHCP;
      index := new ClientIndex.Index();
      upstreamManager := new UpstreamManagers.UpstreamManager();
      runtimeIndex := new RuntimeIndexes.RuntimeIndex();
      arpAlive := true;
    }

    /** Writes a new client into the index and the upstream manager. */
    method Put(p: Persistent)
      requires Wired() && p.uid != 0 && p.uid !in index.uidToClient && !Clashing(index.uidToClient, p)
      modifies index, index.subnetToUID, upstreamManager.Repr
      ensures Wired() && fresh(upstreamManager.Repr - old(upstreamManager.Repr))
      ensures index.uidToClient == old(index.uidToClient)[p.uid := p]
      ensures upstreamManager.Model() == UpstreamSpec.UpdateCustom(old(upstreamManager.Model()), p)
    {
      index.Add(p);
      upstreamManager.UpdateCustomUpstreamConfig(p);
    }

    /** Removes a stored client from the index and the upstream manager. */
    method Take(c: Persistent)
      requires Wired() && c.uid in index.uidToClient && index.uidToClient[c.uid] == c
      modifies index, index.subnetToUID, upstreamManager.Repr
      ensures Wired() && upstreamManager.Repr == old(upstreamManager.Repr)
      ensures index.uidToClient == old(index.uidToClient) - {c.uid}
      ensures upstreamManager.Model() == UpstreamSpec.Remove(old(upstreamManager.Model()), c.uid)
    {
      index.Remove(c);
      var _ := upstreamManager.Remove(c.uid);
    }

    /** Replaces a stored client by one with the same UID that clashes with no other. */
    method Replace(stored: Persistent, p: Persistent)
      requires Wired() && stored.uid in index.uidToClient && index.uidToClient[stored.uid] == stored
      requires p.uid == stored.uid && !Clashing(index.uidToClient, p)
      modifies index, index.subnetToUID, upstreamManager.Repr
      ensures Wired() && fresh(upstreamManager.Repr - old(upstreamManager.Repr))
      ensures index.uidToClient == old(index.uidToClient)[p.uid := p]
      ensures upstreamManager.Model() == UpstreamSpec.UpdateCustom(old(upstreamManager.Model()), p)
    {
      index.Remove(stored);
      assert !Clashing(index.uidToClient, p);
      index.Add(p);
      assert index.uidToClient == old(index.uidToClient)[p.uid := p];
      upstreamManager.UpdateCustomUpstreamConfig(p);
    }

    /** Whether p can be added, and what is then left of the caller's object, which may have been tidied. */
    method CheckAdd(p: Persistent) returns (r: Result<(), StorageError>, q: Persistent)
      requires index.Valid()
      ensures r.Ok? <==> CanAdd(conf, index.uidToClient, p)
      ensures r.Err? ==> AddFails(conf, index.uidToClient, p, r.error)
      ensures q == if Validate(conf, p).None? then Tidy(p) else p
      ensures r.Ok? ==> !Clashing(index.uidToClient, q)
    {
      var invalid := Validate(conf, p);
      if invalid.Some? {
        return Err(BadClient(invalid.value)), p;
      }
      q := Tidy(p);
      TidyHas(p);
      var other := index.ClashesUID(q);
      if other.Some? {
        return Err(DuplicateUID(other.value)), q;
      }
      var clash := index.Clashes(q);
      TidyClashes(index.uidToClient, p, clash);
      r := if clash.Some? then Err(Clash(clash.value)) else Ok(());
    }

    /** Stores p, or says why not and changes nothing; q is what the caller's object holds afterwards. */
    method Add(p: Persistent) returns (r: Result<(), StorageError>, q: Persistent)
      requires Valid()
      modifies index, index.subnetToUID, upstreamManager.Repr
      ensures Valid() && fresh(upstreamManager.Repr - old(upstreamManager.Repr))
      ensures Persisted() == Step(conf, old(Persisted()), StoreSpec.Add(p))
      ensures r.Ok? <==> CanAdd(conf, old(index.uidToClient), p)
      ensures r.Err? ==> AddFails(conf, index.uidToClient, p, r.error)
      ensures r.Err? ==> Persisted() == old(Persisted()) && index.GetMaps() == old(index.GetMaps())
      ensures q == if Validate(conf, p).None? then Tidy(p) else p
      ensures r.Ok? ==>
        q == p.(tags := SortStrings(p.tags)) && index.uidToClient == old(index.uidToClient)[p.uid := q]
    {
      StepKeepsInv(conf, Persisted(), StoreSpec.Add(p));
      r, q := CheckAdd(p);
      if r.Ok? {
        Put(q);
      }
    }

    /** The stored client that p would replace, if it may, and what is then left of the caller's object. */
    method CheckUpdate(name: string, p: Persistent) returns (r: Result<Persistent, StorageError>, q: Persistent)
      requires index.Valid()
      ensures r.Ok? <==> CanUpdate(conf, index.uidToClient, name, p)
      ensures r.Err? ==> UpdateFails(conf, index.uidToClient, name, p, r.error)
      ensures r.Ok? ==> OwnerOf(index.uidToClient, Name(name)) == Some(r.value.uid)
      ensures r.Ok? ==> r.value.uid in index.uidToClient && index.uidToClient[r.value.uid] == r.value
      ensures q == AfterUpdate(conf, index.uidToClient, name, p)
      ensures r.Ok? ==> q.uid == r.value.uid && !Clashing(index.uidToClient, q)
      ensures r.Ok? ==> r.value.name == name && q == p.(uid := r.value.uid, tags := SortStrings(p.tags))
    {
      var invalid := Validate(conf, p);
      if invalid.Some? {
        return Err(BadClient(invalid.value)), p;
      }
      q := Tidy(p);
      var stored := index.FindByName(name);
      if stored.None? {
        return Err(NotFound(name)), q;
      }
      q := q.(uid := stored.value.uid);
      var clash := index.Clashes(q);
      TidyHas(p.(uid := stored.value.uid));
      TidyClashes(index.uidToClient, p.(uid := stored.value.uid), clash);
      r := if clash.Some? then Err(Clash(clash.value)) else Ok(stored.value);
    }

    /**
     * Replaces the client stored under name by p, which takes over its UID, or changes nothing; q is
     * what the caller's object holds afterwards, which has that UID even if there is a clash.
     */
    method Update(name: string, p: Persistent) returns (r: Result<(), StorageError>, q: Persistent)
      requires Valid()
      modifies index, index.subnetToUID, upstreamManager.Repr
      ensures Valid() && fresh(upstreamManager.Repr - old(upstreamManager.Repr))
      ensures Persisted() == Step(conf, old(Persisted()), StoreSpec.Update(name, p))
      ensures r.Ok? <==> CanUpdate(conf, old(index.uidToClient), name, p)
      ensures r.Err? ==> UpdateFails(conf, index.uidToClient, name, p, r.error)
      ensures r.Err? ==> Persisted() == old(Persisted()) && index.GetMaps() == old(index.GetMaps())
      ensures q == AfterUpdate(conf, old(index.uidToClient), name, p)
      ensures r.Ok? ==>
        && q.uid in old(index.uidToClient) && old(index.uidToClient)[q.uid].name == name
        && q == p.(uid := q.uid, tags := SortStrings(p.tags))
        && index.uidToClient == old(index.uidToClient)[q.uid := q]
    {
      StepKeepsInv(conf, Persisted(), StoreSpec.Update(name, p));
      var stored;
      stored, q := CheckUpdate(name, p);
      match stored {
        case Err(e) => r := Err(e);
        case Ok(c) =>
          Replace(c, q);
          r := Ok(());
      }
    }

    method RemoveByName(name: string) returns (ok: bool)
      requires Valid()
      modifies index, index.subnetToUID, upstreamManager.Repr
      ensures Valid() && upstreamManager.Repr == old(upstreamManager.Repr)
      ensures Persisted() == Step(conf, old(Persisted()), StoreSpec.RemoveByName(name))
      ensures ok <==> exists u :: u in old(index.uidToClient) && old(index.uidToClient)[u].name == name
      ensures forall u :: u in old(index.uidToClient) && old(index.uidToClient)[u].name == name ==>
                index.uidToClient == old(index.uidToClient) - {u}
      ensures !ok ==> Persisted() == old(Persisted()) && index.GetMaps() == old(index.GetMaps())
    {
      StepKeepsInv(conf, Persisted(), StoreSpec.RemoveByName(name));
      StepClients(conf, Persisted(), StoreSpec.RemoveByName(name));
      NamedIs(index.uidToClient, name);
      var p := index.FindByName(name);
      if p.None? {
        return false;
      }
      Take(p.value);
      ok := true;
    }

    /** leased is the MAC address that the DHCP server has leased ip to, if any. */
    method FindByIP(ip: Addr, leased: Option<Mac>) returns (p: Option<Persistent>)
      requires index.Valid()
      ensures p == ClientIndex.Deref(index.uidToClient, LookupLeased(index.uidToClient, ip, leased))
    {
      p := index.FindByIP(ip);
      if p.Some? {
        return;
      }
      if leased.Some? {
        p := index.FindByMAC(leased.value);
      }
    }

    /** Searches by the parameter in position kind, which must have been given. */
    method Try(params: FindParams, kind: nat, leased: Option<Mac>) returns (p: Option<Persistent>)
      requires index.Valid() && kind < 4
      requires Given(params, kind)
      ensures var candidate := FindCandidates(index.uidToClient, params, leased)[kind];
              p == ClientIndex.Deref(index.uidToClient, candidate) && (p.Some? <==> candidate.Some?)
    {
      match kind {
        case 0 => p := index.FindByClientID(params.clientID);
        case 1 => p := FindByIP(params.remoteIP, leased);
        case 2 => p := index.FindByCIDR(params.subnet);
        case 3 => p := index.FindByMAC(params.mac.value);
      }
    }

    /** Tries the given parameters one by one until one finds a client. */
    method Find(params: FindParams, leased: Option<Mac>) returns (p: Option<Persistent>)
      requires index.Valid()
      ensures p == ClientIndex.Deref(index.uidToClient, FindSpec(index.uidToClient, params, leased))
    {
      var isClientID := params.clientID != "";
      var isRemoteIP := params.remoteIP != NoAddr;
      var isSubnet := params.subnet != NoPrefix;
      var isMAC := params.mac.Some?;
      ghost var candidates := FindCandidates(index.uidToClient, params, leased);
      NotGivenFindsNothing(index.uidToClient, params, leased);
      ghost var tried := 0;
      p := None;
      while isClientID || isRemoteIP || isSubnet || isMAC
        invariant tried <= 4 && p.None?
        invariant forall k :: 0 <= k < tried ==> candidates[k].None?
        invariant isClientID == (tried < 1 && Given(params, 0))
        invariant isRemoteIP == (tried < 2 && Given(params, 1))
        invariant isSubnet == (tried < 3 && Given(params, 2))
        invariant isMAC == (tried < 4 && Given(params, 3))
        decreases 4 - tried
      {
        var next;
        if isClientID {
          isClientID, next := false, 0;
        } else if isRemoteIP {
          isRemoteIP, next := false, 1;
        } else if isSubnet {
          isSubnet, next := false, 2;
        } else {
          isMAC, next := false, 3;
        }
        p := Try(params, next, leased);
        if p.Some? {
          FirstFoundAt(candidates, next);
          return;
        }
        tried := next + 1;
      }
      FirstFoundAt(candidates, 4);
    }

    /** The client with the given ClientID, else the one found by address. */
    method FindForQuery(id: string, ip: Addr, leased: Option<Mac>) returns (c: Option<Persistent>)
      requires index.Valid()
      ensures c == ClientIndex.Deref(index.uidToClient, QuerySpec(index.uidToClient, id, ip, leased))
      ensures c.Some? ==> QuerySpec(index.uidToClient, id, ip, leased) == Some(c.value.uid)
    {
      c := index.FindByClientID(id);
      if c.None? {
        c := FindByIP(ip, leased);
      }
    }

    method SelectForQuery(id: string, ip: Addr, leased: Option<Mac>) returns (uid: Option<UID>)
      requires index.Valid()
      ensures uid == QuerySpec(index.uidToClient, id, ip, leased)
    {
      var c := FindForQuery(id, ip, leased);
      uid := if c.Some? then Some(c.value.uid) else None;
    }

    method Serve(uid: UID) returns (prx: UpstreamManagers.ProxyConf?, panics: bool)
      requires Wired() && UpstreamSpec.Conserved(upstreamManager.Model())
      modifies upstreamManager.Repr
      ensures Wired() && fresh(upstreamManager.Repr - old(upstreamManager.Repr))
      ensures index.uidToClient == old(index.uidToClient)
      ensures upstreamManager.Model() == UpstreamSpec.Refresh(old(upstreamManager.Model()), uid)
      ensures panics <==> UpstreamSpec.Panics(old(upstreamManager.Model()), uid)
      ensures !panics ==>
        UpstreamManagers.Denotes(prx, UpstreamSpec.Answer(old(upstreamManager.Model()), uid), upstreamManager.All)
    {
      prx, panics := upstreamManager.CustomUpstreamConfig(uid);
    }

    /** The configuration for a query, unless its build panics. */
    method CustomUpstreamConfig(id: string, ip: Addr, leased: Option<Mac>)
      returns (prx: UpstreamManagers.ProxyConf?, panics: bool)
      requires Valid()
      modifies upstreamManager.Repr
      ensures Valid() && fresh(upstreamManager.Repr - old(upstreamManager.Repr))
      ensures Persisted() == Step(conf, old(Persisted()), Query(id, ip, leased))
      ensures panics <==> StepPanics(old(Persisted()), Query(id, ip, leased))
      ensures !panics ==>
        UpstreamManagers.Denotes(prx, QueryAnswer(old(Persisted()), id, ip, leased), upstreamManager.All)
    {
      StepKeepsInv(conf, Persisted(), Query(id, ip, leased));
      var uid := SelectForQuery(id, ip, leased);
      if uid.None? {
        return null, false;
      }
      prx, panics := Serve(uid.value);
    }

    method UpdateCommonUpstreamConfig(common: UpstreamSpec.CommonConf, now: UpstreamSpec.Time)
      requires Valid()
      modifies upstreamManager
      ensures Valid() && upstreamManager.Repr == old(upstreamManager.Repr)
      ensures Persisted() == Step(conf, old(Persisted()), SetCommon(common, now))
    {
      StepKeepsInv(conf, Persisted(), SetCommon(common, now));
      upstreamManager.UpdateCommonUpstreamConfig(common, now);
    }

    /** The last call: afterwards every configuration ever built has been closed exactly once. */
    method Shutdown()
      requires Valid()
      modifies upstreamManager`Closes, upstreamManager.All
      ensures upstreamManager.Model() == UpstreamSpec.CloseAll(old(upstreamManager.Model()))
      ensures forall h :: 0 <= h < |upstreamManager.All| ==> upstreamManager.All[h].closes == 1
    {
      UpstreamSpec.CloseAllClosesOnce(upstreamManager.Model());
      upstreamManager.Close();
      forall h | 0 <= h < |upstreamManager.All|
        ensures upstreamManager.All[h].closes == 1
      {
        assert UpstreamManagers.ConfIs(
            upstreamManager.All[h], h, upstreamManager.Sources[h], upstreamManager.Closes[h]);
      }
    }

    /** ok says whether the refresh of the ARP database succeeded, and neighbours is what it then lists. */
    method ReloadARP(ok: bool, neighbours: RuntimeSpec.Listing)
      requires RuntimeValid()
      modifies this, runtimeIndex.Repr
      ensures RuntimeValid() && fresh(runtimeIndex.Repr - old(runtimeIndex.Repr))
      ensures RuntimeState() ==
              RuntimeSpec.Step(runtimeSourceDHCP, old(RuntimeState()), RuntimeSpec.ReloadARP(ok, neighbours))
    {
      if !arpAlive {
        return;
      }
      if !ok {
        arpAlive := false;
        return;
      }
      if |neighbours| == 0 {
        return;
      }
      runtimeIndex.Reload(RuntimeSpec.ARP, neighbours);
    }

    /** entries pairs each address of the hosts files with its first name. */
    method AddFromHostsFile(entries: RuntimeSpec.Listing)
      requires RuntimeValid()
      modifies runtimeIndex.Repr
      ensures RuntimeValid() && fresh(runtimeIndex.Repr - old(runtimeIndex.Repr))
      ensures RuntimeState() ==
              RuntimeSpec.Step(runtimeSourceDHCP, old(RuntimeState()), RuntimeSpec.HostsUpdate(entries))
    {
      runtimeIndex.Reload(RuntimeSpec.HostsFile, entries);
    }

    method UpdateDHCP(leases: RuntimeSpec.Listing)
      requires RuntimeValid()
      modifies runtimeIndex.Repr
      ensures RuntimeValid() && fresh(runtimeIndex.Repr - old(runtimeIndex.Repr))
      ensures RuntimeState() == RuntimeSpec.Step(runtimeSourceDHCP, old(RuntimeState()), RuntimeSpec.UpdateDHCP(leases))
    {
      if !runtimeSourceDHCP {
        return;
      }
      runtimeIndex.Reload(RuntimeSpec.DHCP, leases);
    }

    /** Stores whois information unless the address is that of a persistent client. */
    method SetWHOISInfo(ip: Addr, info: RuntimeSpec.WhoisInfo)
      requires RuntimeValid() && index.Valid()
      modifies runtimeIndex.Repr
      ensures RuntimeValid() && fresh(runtimeIndex.Repr - old(runtimeIndex.Repr))
      ensures runtimeIndex.Clients ==
              if LookupIP(index.uidToClient, ip).Some? then old(runtimeIndex.Clients)
              else RuntimeSpec.SetWhois(old(runtimeIndex.Clients), ip, info)
    {
      var c := index.FindByIP(ip);
      if c.None? {
        runtimeIndex.SetWHOIS(ip, info);
      }
    }

    /** Stores what reverse DNS and whois say; whois information of a persistent client is ignored. */
    method UpdateAddress(ip: Addr, host: string, info: Option<RuntimeSpec.WhoisInfo>)
      requires RuntimeValid() && index.Valid()
      modifies runtimeIndex.Repr
      ensures RuntimeValid() && fresh(runtimeIndex.Repr - old(runtimeIndex.Repr))
      ensures RuntimeState() == RuntimeSpec.Step(runtimeSourceDHCP, old(RuntimeState()),
                                  RuntimeSpec.UpdateAddress(ip, host, info, LookupIP(index.uidToClient, ip).Some?))
    {
      if host != "" {
        runtimeIndex.SetInfo(ip, RuntimeSpec.RDNS, [host]);
      }
      if info.Some? {
        SetWHOISInfo(ip, info.value);
      }
    }

    /** What is known about ip, asking the DHCP server, which answers host, unless the hosts file knows. */
    method ClientRuntime(ip: Addr, host: string) returns (rc: Option<RuntimeSpec.Info>)
      requires RuntimeValid()
      modifies runtimeIndex.Repr
      ensures RuntimeValid() && fresh(runtimeIndex.Repr - old(runtimeIndex.Repr))
      ensures RuntimeState() ==
              RuntimeSpec.Step(runtimeSourceDHCP, old(RuntimeState()), RuntimeSpec.ClientRuntime(ip, host))
      ensures rc == if ip in RuntimeState().clients then Some(RuntimeState().clients[ip]) else None
    {
      rc := runtimeIndex.Client(ip);
      if !runtimeSourceDHCP {
        return;
      }
      if rc.Some? && rc.value.hostsFile.Some? {
        return;
      }
      if host == "" {
        return;
      }
      runtimeIndex.SetInfo(ip, RuntimeSpec.DHCP, [host]);
      rc := runtimeIndex.Client(ip);
    }
  }
}
