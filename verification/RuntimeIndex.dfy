/** Runtime clients as objects that are updated in place, and the index that holds them. */
module RuntimeIndexes {
  import opened Common
  import opened Netip
  import opened RuntimeSpec

  class Runtime {
    const ip: Addr
    var whois: Option<WhoisInfo>
    var arp: Option<seq<string>>
    var rdns: Option<seq<string>>
    var dhcp: Option<seq<string>>
    var hostsFile: Option<seq<string>>

    /** What the object knows; also what a clone of it holds. */
    function Value(): Info
      reads this
    {
      Info(whois, arp, rdns, dhcp, hostsFile)
    }

    constructor (ip: Addr)
      ensures this.ip == ip && Value() == NoInfo
    {
      this.ip := ip;
      whois, arp, rdns, dhcp, hostsFile := None, None, None, None, None;
    }

    method SetInfo(src: Source, hosts: seq<string>)
      modifies this
      ensures Value() == RuntimeSpec.SetInfo(old(Value()), src, hosts)
    {
      var h := hosts;
      if |h| == 1 && h[0] == "" {
        h := [];
      }
      match src {
        case ARP => arp := Some(h);
        case RDNS => rdns := Some(h);
        case DHCP => dhcp := Some(h);
        case HostsFile => hostsFile := Some(h);
        case _ =>
      }
    }

    method SetWHOIS(info: WhoisInfo)
      modifies this
      ensures Value() == old(Value()).(whois := Some(info))
    {
      whois := Some(info);
    }

    method Unset(src: Source)
      modifies this
      ensures Value() == RuntimeSpec.Unset(old(Value()), src)
    {
      match src {
        case WHOIS => whois := None;
        case ARP => arp := None;
        case RDNS => rdns := None;
        case DHCP => dhcp := None;
        case HostsFile => hostsFile := None;
        case Persistent =>
      }
    }
  }

  /** Every address has its own object, which holds the value. */
  ghost predicate Holds(index: map<Addr, Runtime>, clients: Runtimes)
    reads index.Values
  {
    && index.Keys == clients.Keys
    && forall ip :: ip in index ==> index[ip].ip == ip && index[ip].Value() == clients[ip]
  }

  /** The source cleared for all clients but the rest. */
  ghost function ClearRest(r: Runtimes, rest: set<Addr>, src: Source): Runtimes {
    map ip | ip in r :: if ip in rest then r[ip] else Unset(r[ip], src)
  }

  lemma ClearNext(r: Runtimes, rest: set<Addr>, ip: Addr, src: Source)
    requires ip in rest && ip in r
    ensures ClearRest(r, rest - {ip}, src) == ClearRest(r, rest, src)[ip := Unset(r[ip], src)]
  {
  }

  /** The empty clients removed, except among the rest. */
  ghost function KeepRest(r: Runtimes, rest: set<Addr>): Runtimes {
    map ip | ip in r && (ip in rest || !IsEmpty(r[ip])) :: r[ip]
  }

  lemma KeepNext(r: Runtimes, rest: set<Addr>, ip: Addr)
    requires ip in rest && ip in r
    ensures IsEmpty(r[ip]) ==> KeepRest(r, rest - {ip}) == KeepRest(r, rest) - {ip}
    ensures IsEmpty(r[ip]) ==> |KeepRest(r, rest - {ip})| == |KeepRest(r, rest)| - 1
    ensures !IsEmpty(r[ip]) ==> KeepRest(r, rest - {ip}) == KeepRest(r, rest)
  {
  }

  lemma KeepEnds(r: Runtimes)
    ensures KeepRest(r, r.Keys) == r
    ensures KeepRest(r, {}) == RemoveEmpty(r)
  {
  }

  class RuntimeIndex {
    var index: map<Addr, Runtime>
    // The clients as values.
    ghost var Clients: Runtimes
    ghost var Repr: set<object>

    ghost predicate Valid()
      reads this, Repr
      ensures Valid() ==> this in Repr
    {
      && this in Repr
      && (forall ip :: ip in index ==> index[ip] in Repr)
      && Holds(index, Clients)
    }

    constructor ()
      ensures Valid() && Clients == map[] && fresh(Repr)
    {
      index := map[];
      Clients := map[];
      Repr := {this};
    }

    method Client(ip: Addr) returns (rc: Option<Info>)
      requires Valid()
      ensures rc == if ip in Clients then Some(Clients[ip]) else None
    {
      rc := if ip in index then Some(index[ip].Value()) else None;
    }

    /** The object for ip, a new one if there is none. */
    method Ensure(ip: Addr) returns (rc: Runtime)
      requires Valid()
      modifies this
      ensures Valid() && fresh(Repr - old(Repr))
      ensures ip in index && rc == index[ip] && Clients == old(Clients)[ip := InfoAt(old(Clients), ip)]
    {
      if ip !in index {
        rc := new Runtime(ip);
        index := index[ip := rc];
        Repr := Repr + {rc};
        Clients := Clients[ip := NoInfo];
      }
      rc := index[ip];
    }

    method SetInfo(ip: Addr, src: Source, hosts: seq<string>)
      requires Valid()
      modifies Repr
      ensures Valid() && fresh(Repr - old(Repr))
      ensures Clients == SetIn(old(Clients), ip, src, hosts)
    {
      var rc := Ensure(ip);
      rc.SetInfo(src, hosts);
      Clients := SetIn(old(Clients), ip, src, hosts);
    }

    method SetWHOIS(ip: Addr, info: WhoisInfo)
      requires Valid()
      modifies Repr
      ensures Valid() && fresh(Repr - old(Repr))
      ensures Clients == SetWhois(old(Clients), ip, info)
    {
      var rc := Ensure(ip);
      rc.SetWHOIS(info);
      Clients := SetWhois(old(Clients), ip, info);
    }

    method UnsetAt(ip: Addr, src: Source)
      requires Valid() && ip in index
      modifies this`Clients, index[ip]
      ensures Valid() && Clients == old(Clients)[ip := Unset(old(Clients)[ip], src)]
    {
      index[ip].Unset(src);
      Clients := Clients[ip := Unset(Clients[ip], src)];
    }

    /** Unsets the source in every client, in any order. */
    method ClearSource(src: Source)
      requires Valid()
      modifies Repr
      ensures Valid() && Repr == old(Repr)
      ensures Clients == RuntimeSpec.ClearSource(old(Clients), src)
    {
      var rest := index.Keys;
      while rest != {}
        invariant rest <= index.Keys && index == old(index) && Repr == old(Repr)
        invariant Valid() && Clients == ClearRest(old(Clients), rest, src)
        decreases rest
      {
        var ip :| ip in rest;
        ClearNext(old(Clients), rest, ip, src);
        UnsetAt(ip, src);
        rest := rest - {ip};
      }
    }

    method DropIfEmpty(ip: Addr) returns (n: nat)
      requires Valid() && ip in index
      modifies this`index, this`Clients
      ensures Valid()
      ensures Clients == if IsEmpty(old(Clients)[ip]) then old(Clients) - {ip} else old(Clients)
      ensures n == if IsEmpty(old(Clients)[ip]) then 1 else 0
    {
      n := 0;
      if IsEmpty(index[ip].Value()) {
        index := index - {ip};
        Clients := Clients - {ip};
        n := 1;
      }
    }

    /** Deletes every client without information, in any order, and counts them. */
    method RemoveEmpty() returns (n: nat)
      requires Valid()
      modifies this`index, this`Clients
      ensures Valid()
      ensures Clients == RuntimeSpec.RemoveEmpty(old(Clients))
      ensures n == |old(Clients)| - |Clients|
    {
      n := 0;
      KeepEnds(Clients);
      var rest := index.Keys;
      while rest != {}
        invariant rest <= old(Clients).Keys && Valid() && Clients == KeepRest(old(Clients), rest)
        invariant n == |old(Clients)| - |Clients|
        decreases rest
      {
        var ip :| ip in rest;
        KeepNext(old(Clients), rest, ip);
        var dropped := DropIfEmpty(ip);
        n := n + dropped;
        rest := rest - {ip};
      }
    }

    /** clearSource, setInfo for every entry in turn, removeEmpty. */
    method Reload(src: Source, entries: Listing)
      requires Valid()
      modifies Repr
      ensures Valid() && fresh(Repr - old(Repr))
      ensures Clients == RuntimeSpec.Reload(old(Clients), src, entries)
    {
      ClearSource(src);
      ghost var cleared := Clients;
      for k := 0 to |entries|
        invariant Valid() && fresh(Repr - old(Repr))
        invariant Clients == SetAll(cleared, src, entries[..k])
      {
        assert entries[..k + 1][..k] == entries[..k];
        SetInfo(entries[k].0, src, [entries[k].1]);
      }
      assert entries[..|entries|] == entries;
      var _ := RemoveEmpty();
    }
  }
}
