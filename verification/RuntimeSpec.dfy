/** Runtime clients as values: what each of five sources says about an address, and how sources reload. */
module RuntimeSpec {
  import opened Common
  import opened Netip

  /** Where information comes from; a later source has priority over an earlier one. */
  datatype Source = WHOIS | ARP | RDNS | DHCP | HostsFile | Persistent

  datatype WhoisInfo = WhoisInfo(city: string, country: string, orgname: string)

  /** What is known about an address; Some([]) is information that is present but empty. */
  datatype Info = Info(
    whois: Option<WhoisInfo>,
    arp: Option<seq<string>>,
    rdns: Option<seq<string>>,
    dhcp: Option<seq<string>>,
    hostsFile: Option<seq<string>>)

  const NoInfo := Info(None, None, None, None, None)

  function Normalize(hosts: seq<string>): seq<string> {
    if |hosts| == 1 && hosts[0] == "" then [] else hosts
  }

  function SetInfo(i: Info, src: Source, hosts: seq<string>): Info {
    match src
    case ARP => i.(arp := Some(Normalize(hosts)))
    case RDNS => i.(rdns := Some(Normalize(hosts)))
    case DHCP => i.(dhcp := Some(Normalize(hosts)))
    case HostsFile => i.(hostsFile := Some(Normalize(hosts)))
    case _ => i
  }

  function Unset(i: Info, src: Source): Info {
    match src
    case WHOIS => i.(whois := None)
    case ARP => i.(arp := None)
    case RDNS => i.(rdns := None)
    case DHCP => i.(dhcp := None)
    case HostsFile => i.(hostsFile := None)
    case Persistent => i
  }

  predicate IsEmpty(i: Info) {
    i.whois.None? && i.arp.None? && i.rdns.None? && i.dhcp.None? && i.hostsFile.None?
  }

  /** The hosts that a source gives; whois information has none. */
  function Hosts(i: Info, src: Source): Option<seq<string>> {
    match src
    case ARP => i.arp
    case RDNS => i.rdns
    case DHCP => i.dhcp
    case HostsFile => i.hostsFile
    case WHOIS => if i.whois.Some? then Some([]) else None
    case Persistent => None
  }

  /** The source to show for a client, and its first host. */
  function Shown(i: Info): (Option<Source>, string) {
    var src :=
      if i.hostsFile.Some? then Some(HostsFile)
      else if i.dhcp.Some? then Some(DHCP)
      else if i.rdns.Some? then Some(RDNS)
      else if i.arp.Some? then Some(ARP)
      else if i.whois.Some? then Some(WHOIS)
      else None;
    if src.None? || Hosts(i, src.value).None? || Hosts(i, src.value).value == [] then (src, "")
    else (src, Hosts(i, src.value).value[0])
  }

  function Priority(src: Source): nat {
    match src
    case WHOIS => 1
    case ARP => 2
    case RDNS => 3
    case DHCP => 4
    case HostsFile => 5
    case Persistent => 6
  }

  /** The source shown is the one of highest priority that has information; none only for an empty client. */
  lemma ShownHasPriority(i: Info)
    ensures Priority(WHOIS) < Priority(ARP) < Priority(RDNS) < Priority(DHCP) < Priority(HostsFile)
    ensures Shown(i).0.None? <==> IsEmpty(i)
    ensures Shown(i).0.Some? ==> Hosts(i, Shown(i).0.value).Some?
    ensures Shown(i).0.Some? && Hosts(i, Shown(i).0.value).value != [] ==>
      Shown(i).1 == Hosts(i, Shown(i).0.value).value[0]
    ensures Shown(i).0.None? || Hosts(i, Shown(i).0.value).value == [] ==> Shown(i).1 == ""
    ensures forall src :: Hosts(i, src).Some? ==> Shown(i).0.Some? && Priority(src) <= Priority(Shown(i).0.value)
  {
  }

  type Runtimes = map<Addr, Info>

  function InfoAt(r: Runtimes, ip: Addr): Info {
    if ip in r then r[ip] else NoInfo
  }

  function SetIn(r: Runtimes, ip: Addr, src: Source, hosts: seq<string>): Runtimes {
    r[ip := SetInfo(InfoAt(r, ip), src, hosts)]
  }

  function ClearSource(r: Runtimes, src: Source): Runtimes {
    map ip | ip in r :: Unset(r[ip], src)
  }

  function RemoveEmpty(r: Runtimes): Runtimes {
    map ip | ip in r && !IsEmpty(r[ip]) :: r[ip]
  }

  /** Addresses with names, in the order that a source lists them. */
  type Listing = seq<(Addr, string)>

  function SetAll(r: Runtimes, src: Source, entries: Listing): Runtimes {
    if entries == [] then r
    else
      var last := entries[|entries| - 1];
      SetIn(SetAll(r, src, entries[..|entries| - 1]), last.0, src, [last.1])
  }

  function Reload(r: Runtimes, src: Source, entries: Listing): Runtimes {
    RemoveEmpty(SetAll(ClearSource(r, src), src, entries))
  }

  /** The name that the last entry for ip gives it. */
  function LastName(entries: Listing, ip: Addr): Option<string> {
    if entries == [] then None
    else if entries[|entries| - 1].0 == ip then Some(entries[|entries| - 1].1)
    else LastName(entries[..|entries| - 1], ip)
  }

  /** Entry i is about the address, and no later one is. */
  ghost predicate LastFor(entries: Listing, ip: Addr, i: int) {
    0 <= i < |entries| && entries[i].0 == ip && forall j :: i < j < |entries| ==> entries[j].0 != ip
  }

  /** The name of an address is that of the last entry about it. */
  lemma {:induction false} LastNameIs(entries: Listing, ip: Addr)
    ensures LastName(entries, ip).None? <==> forall i :: 0 <= i < |entries| ==> entries[i].0 != ip
    ensures forall i :: LastFor(entries, ip, i) ==> LastName(entries, ip) == Some(entries[i].1)
  {
    if entries != [] {
      var before := entries[..|entries| - 1];
      LastNameIs(before, ip);
      assert forall j :: 0 <= j < |before| ==> before[j] == entries[j];
      forall i | LastFor(entries, ip, i)
        ensures LastName(entries, ip) == Some(entries[i].1)
      {
        assert i < |before| ==> LastFor(before, ip, i);
      }
    }
  }

  /** Sources that give hosts. */
  predicate GivesHosts(src: Source) {
    src != WHOIS && src != Persistent
  }

  lemma {:induction false} SetAllAt(r: Runtimes, src: Source, entries: Listing, ip: Addr)
    requires GivesHosts(src)
    ensures var name := LastName(entries, ip);
            InfoAt(SetAll(r, src, entries), ip) ==
            if name.Some? then SetInfo(InfoAt(r, ip), src, [name.value]) else InfoAt(r, ip)
  {
    if entries != [] {
      SetAllAt(r, src, entries[..|entries| - 1], ip);
    }
  }

  /**
   * Reloading a source is exact: afterwards it says about an address what its last entry says, or
   * nothing, every other source says what it said before, and only clients with information remain.
   */
  lemma ReloadIsExact(r: Runtimes, src: Source, entries: Listing, ip: Addr)
    requires GivesHosts(src)
    ensures var before, after := InfoAt(r, ip), InfoAt(Reload(r, src, entries), ip);
            var name := LastName(entries, ip);
            && Hosts(after, src) ==
               (if name.None? then None else if name.value == "" then Some([]) else Some([name.value]))
            && (forall other :: other != src ==> Hosts(after, other) == Hosts(before, other))
            && after.whois == before.whois
            && (ip in Reload(r, src, entries) <==> !IsEmpty(after))
  {
    SetAllAt(ClearSource(r, src), src, entries, ip);
  }

  /** Runtime clients, and whether the ARP database is still asked: it is dropped once a refresh fails. */
  datatype State = State(clients: Runtimes, arpAlive: bool)

  const NewState := State(map[], true)

  datatype Event =
    | ReloadARP(ok: bool, neighbours: Listing)
    | HostsUpdate(entries: Listing)
    | UpdateDHCP(leases: Listing)
    | UpdateAddress(ip: Addr, host: string, whois: Option<WhoisInfo>, isPersistent: bool)
    | ClientRuntime(ip: Addr, host: string)

  /** The whois information of an address that no persistent client has. */
  function SetWhois(r: Runtimes, ip: Addr, info: WhoisInfo): Runtimes {
    r[ip := InfoAt(r, ip).(whois := Some(info))]
  }

  function Step(dhcpOn: bool, s: State, e: Event): State {
    match e
    case ReloadARP(ok, ns) =>
      if !s.arpAlive then s
      else if !ok then s.(arpAlive := false)
      else if ns == [] then s
      else s.(clients := Reload(s.clients, ARP, ns))
    case HostsUpdate(entries) => s.(clients := Reload(s.clients, HostsFile, entries))
    case UpdateDHCP(leases) => if dhcpOn then s.(clients := Reload(s.clients, DHCP, leases)) else s
    case UpdateAddress(ip, host, whois, isPersistent) =>
      var named := if host != "" then SetIn(s.clients, ip, RDNS, [host]) else s.clients;
      s.(clients := if whois.Some? && !isPersistent then SetWhois(named, ip, whois.value) else named)
    case ClientRuntime(ip, host) =>
      if !dhcpOn || InfoAt(s.clients, ip).hostsFile.Some? || host == "" then s
      else s.(clients := SetIn(s.clients, ip, DHCP, [host]))
  }

  /** The fields behind the sources. */
  lemma HostsAre(i: Info)
    ensures Hosts(i, ARP) == i.arp && Hosts(i, RDNS) == i.rdns
    ensures Hosts(i, DHCP) == i.dhcp && Hosts(i, HostsFile) == i.hostsFile
    ensures (Hosts(i, WHOIS).Some? <==> i.whois.Some?) && Hosts(i, Persistent).None?
  {
  }

  /** Unsetting a source clears what it says and nothing else. */
  lemma UnsetClears(i: Info, src: Source, other: Source)
    ensures Hosts(Unset(i, src), src).None? && (other != src ==> Hosts(Unset(i, src), other) == Hosts(i, other))
    ensures Unset(i, src).whois == if src == WHOIS then None else i.whois
  {
  }

  /** One host from a source, where an empty name is no host. */
  function Named(name: string): Option<seq<string>> {
    Some(if name == "" then [] else [name])
  }

  /** What the last entry for the address says, if there is one. */
  function Listed(entries: Listing, ip: Addr): Option<seq<string>> {
    var name := LastName(entries, ip);
    if name.Some? then Named(name.value) else None
  }

  /** What each event leaves of what is known about an address, field by field, and of the ARP database. */
  lemma StepInfo(dhcpOn: bool, s: State, e: Event, ip: Addr)
    ensures var was, now := InfoAt(s.clients, ip), InfoAt(Step(dhcpOn, s, e).clients, ip);
            match e
            case ReloadARP(ok, ns) => now == if s.arpAlive && ok && ns != [] then was.(arp := Listed(ns, ip)) else was
            case HostsUpdate(entries) => now == was.(hostsFile := Listed(entries, ip))
            case UpdateDHCP(leases) => now == if dhcpOn then was.(dhcp := Listed(leases, ip)) else was
            case UpdateAddress(at, host, whois, isPersistent) =>
              && now.rdns == (if at == ip && host != "" then Some([host]) else was.rdns)
              && now.whois == (if at == ip && whois.Some? && !isPersistent then whois else was.whois)
              && now.arp == was.arp && now.dhcp == was.dhcp && now.hostsFile == was.hostsFile
            case ClientRuntime(at, host) =>
              now == if at == ip && dhcpOn && was.hostsFile.None? && host != "" then was.(dhcp := Some([host])) else was
    ensures Step(dhcpOn, s, e).arpAlive == (s.arpAlive && (e.ReloadARP? ==> e.ok))
  {
    match e
    case ReloadARP(ok, ns) => ReloadInfo(s.clients, ARP, ns, ip);
    case HostsUpdate(entries) => ReloadInfo(s.clients, HostsFile, entries, ip);
    case UpdateDHCP(leases) => ReloadInfo(s.clients, DHCP, leases, ip);
    case _ =>
  }

  lemma ReloadInfo(r: Runtimes, src: Source, entries: Listing, ip: Addr)
    requires GivesHosts(src)
    ensures var was, now := InfoAt(r, ip), InfoAt(Reload(r, src, entries), ip);
            match src
            case ARP => now == was.(arp := Listed(entries, ip))
            case RDNS => now == was.(rdns := Listed(entries, ip))
            case DHCP => now == was.(dhcp := Listed(entries, ip))
            case HostsFile => now == was.(hostsFile := Listed(entries, ip))
            case _ => true
  {
    SetAllAt(ClearSource(r, src), src, entries, ip);
  }

  function Run(dhcpOn: bool, s: State, events: seq<Event>): State
    decreases |events|
  {
    if events == [] then s else Run(dhcpOn, Step(dhcpOn, s, events[0]), events[1..])
  }

  ghost predicate NoneEmpty(r: Runtimes) {
    forall ip :: ip in r ==> !IsEmpty(r[ip])
  }

  /** No reachable state stores a client without information. */
  lemma {:induction false} NeverStoresEmpty(dhcpOn: bool, s: State, events: seq<Event>)
    requires NoneEmpty(s.clients)
    ensures NoneEmpty(Run(dhcpOn, s, events).clients)
    decreases |events|
  {
    if events != [] {
      NeverStoresEmpty(dhcpOn, Step(dhcpOn, s, events[0]), events[1..]);
    }
  }
}
