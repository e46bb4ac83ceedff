/** The client store as a state machine over clients and cached upstream configurations, and its runs. */
module StoreSpec {
  import opened Common
  import opened Netip
  import opened Clients
  import opened UpstreamSpec

  /** What the store is configured with: the upstream syntax it accepts and the tags it allows. */
  datatype Config = Config(parses: seq<string> -> bool, allowedTags: seq<string>)

  datatype Invalid = EmptyName | IDRequired | UIDRequired | InvalidUpstreams | InvalidTag(tag: string)

  function BadTag(conf: Config, tags: seq<string>): Option<Invalid> {
    if tags == [] then None
    else if tags[0] !in conf.allowedTags then Some(InvalidTag(tags[0]))
    else BadTag(conf, tags[1..])
  }

  /** The first complaint about a client on its own, if any. */
  function Validate(conf: Config, p: Persistent): Option<Invalid> {
    if p.name == "" then Some(EmptyName)
    else if |p.ips| + |p.subnets| + |p.macs| + |p.clientIDs| == 0 then Some(IDRequired)
    else if p.uid == 0 then Some(UIDRequired)
    else if !conf.parses(p.upstreams.servers) then Some(InvalidUpstreams)
    else BadTag(conf, p.tags)
  }

  /** The client once it is found valid: its tags are sorted in place. */
  function Tidy(p: Persistent): Persistent {
    p.(tags := SortStrings(p.tags))
  }

  /** The complaint about tags is about the first that is not allowed. */
  lemma {:induction false} BadTagIff(conf: Config, tags: seq<string>)
    ensures BadTag(conf, tags).None? <==> forall t :: t in tags ==> t in conf.allowedTags
    ensures BadTag(conf, tags).Some? ==>
      exists i: nat :: FirstBad(conf, tags, i) && BadTag(conf, tags).value == InvalidTag(tags[i])
  {
    if tags != [] {
      BadTagIff(conf, tags[1..]);
      assert forall t :: t in tags <==> t == tags[0] || t in tags[1..];
      if tags[0] !in conf.allowedTags {
        assert FirstBad(conf, tags, 0);
      } else if BadTag(conf, tags).Some? {
        var i: nat :| FirstBad(conf, tags[1..], i) && BadTag(conf, tags[1..]).value == InvalidTag(tags[1..][i]);
        forall j | 0 <= j < i + 1
          ensures tags[j] in conf.allowedTags
        {
          assert j > 0 ==> tags[1..][j - 1] == tags[j];
        }
        assert FirstBad(conf, tags, i + 1);
      }
    }
  }

  /** The tag at i is not allowed, and all before it are. */
  ghost predicate FirstBad(conf: Config, tags: seq<string>, i: nat) {
    i < |tags| && tags[i] !in conf.allowedTags && forall j :: 0 <= j < i ==> tags[j] in conf.allowedTags
  }

  /** Which clients are valid, and which complaint is made about another: the first in the order of the fields. */
  lemma ValidateIff(conf: Config, p: Persistent)
    ensures Validate(conf, p).None? <==>
      && p.name != "" && (p.ips != [] || p.subnets != [] || p.macs != [] || p.clientIDs != [])
      && p.uid != 0 && conf.parses(p.upstreams.servers) && forall t :: t in p.tags ==> t in conf.allowedTags
    ensures Validate(conf, p) == Some(EmptyName) <==> p.name == ""
    ensures Validate(conf, p) == Some(IDRequired) <==>
      p.name != "" && p.ips == [] && p.subnets == [] && p.macs == [] && p.clientIDs == []
    ensures Validate(conf, p) == Some(UIDRequired) <==>
      p.name != "" && (p.ips != [] || p.subnets != [] || p.macs != [] || p.clientIDs != []) && p.uid == 0
    ensures Validate(conf, p).Some? && Validate(conf, p).value.InvalidTag? ==> conf.parses(p.upstreams.servers)
    ensures Validate(conf, p) == Some(InvalidUpstreams) ==> !conf.parses(p.upstreams.servers)
  {
    BadTagIff(conf, p.tags);
  }

  datatype Store = Store(clients: ClientSet, mgr: Manager)

  const NewStore := Store(map[], NewManager)

  datatype Op =
    | Add(p: Persistent)
    | Update(name: string, p: Persistent)
    | RemoveByName(name: string)
    | SetCommon(common: CommonConf, now: Time)
    | Query(id: string, ip: Addr, leased: Option<Mac>)

  /** A client is stored exactly when it is valid, its UID is new, and it shares no identifier. */
  ghost predicate CanAdd(conf: Config, clients: ClientSet, p: Persistent) {
    Validate(conf, p).None? && p.uid !in clients && !Clashing(clients, p)
  }

  /** The client stored under name can become p, under its old UID. */
  ghost predicate CanUpdate(conf: Config, clients: ClientSet, name: string, p: Persistent) {
    && Validate(conf, p).None?
    && OwnerOf(clients, Name(name)).Some?
    && !Clashing(clients, p.(uid := OwnerOf(clients, Name(name)).value))
  }

  ghost function Step(conf: Config, s: Store, op: Op): Store {
    match op
    case Add(p) =>
      if CanAdd(conf, s.clients, p) then Store(s.clients[p.uid := Tidy(p)], UpdateCustom(s.mgr, p)) else s
    case Update(name, p) =>
      if CanUpdate(conf, s.clients, name, p) then
        var stored := Tidy(p).(uid := OwnerOf(s.clients, Name(name)).value);
        Store(s.clients[stored.uid := stored], UpdateCustom(s.mgr, stored))
      else s
    case RemoveByName(name) =>
      var o := OwnerOf(s.clients, Name(name));
      if o.Some? then Store(s.clients - {o.value}, Remove(s.mgr, o.value)) else s
    case SetCommon(common, now) => s.(mgr := UpdateCommon(s.mgr, common, now))
    case Query(id, ip, leased) =>
      var o := QuerySpec(s.clients, id, ip, leased);
      if o.Some? then s.(mgr := Refresh(s.mgr, o.value)) else s
  }

  /** The query would build a configuration from common settings that were never set. */
  ghost predicate StepPanics(s: Store, op: Op) {
    op.Query? &&
    var o := QuerySpec(s.clients, op.id, op.ip, op.leased);
    o.Some? && Panics(s.mgr, o.value)
  }

  ghost function Run(conf: Config, s: Store, ops: seq<Op>): Store
    decreases |ops|
  {
    if ops == [] then s else Run(conf, Step(conf, s, ops[0]), ops[1..])
  }

  /** No change of the common settings in the run reads the time at which an unchanged entry was built. */
  ghost predicate NeverClashes(conf: Config, s: Store, ops: seq<Op>)
    decreases |ops|
  {
    ops != [] ==>
      && (ops[0].SetCommon? ==> !exists u :: StampedAt(s.mgr, u, ops[0].now))
      && NeverClashes(conf, Step(conf, s, ops[0]), ops[1..])
  }

  /** Every change of the common settings in the run reads a later time than the one before. */
  ghost predicate ClockMoves(conf: Config, s: Store, ops: seq<Op>)
    decreases |ops|
  {
    ops != [] ==>
      (ops[0].SetCommon? ==> ops[0].now > s.mgr.stamp) && ClockMoves(conf, Step(conf, s, ops[0]), ops[1..])
  }

  /**
   * Clients share nothing, every client and only they have an entry with their fields, handles are
   * conserved, and nothing is built before the settings are given.
   */
  ghost predicate Inv(s: Store) {
    && Consistent(s.clients)
    && s.mgr.cached.Keys == s.clients.Keys
    && (forall u :: u in s.clients ==> s.mgr.cached[u].ups == s.clients[u].upstreams)
    && Conserved(s.mgr) && Settled(s.mgr) && BuiltAfterSettings(s.mgr)
  }

  /** Tidying a client changes none of its identifiers. */
  lemma TidyHas(p: Persistent)
    ensures forall i :: Has(Tidy(p), i) <==> Has(p, i)
  {
  }

  /** Storing a client that clashes with no other, new or in place of its old self. */
  lemma PutKeepsInv(s: Store, p: Persistent)
    requires Inv(s) && p.uid != 0 && !Clashing(s.clients, p)
    ensures !Clashing(s.clients, Tidy(p)) && UpdateCustom(s.mgr, Tidy(p)) == UpdateCustom(s.mgr, p)
    ensures Inv(Store(s.clients[p.uid := Tidy(p)], UpdateCustom(s.mgr, p)))
  {
    TidyHas(p);
    UpdateCustomKeeps(s.mgr, p);
    assert Consistent(s.clients[p.uid := Tidy(p)]);
  }

  lemma DropKeepsInv(s: Store, u: UID)
    requires Inv(s) && u in s.clients
    ensures Inv(Store(s.clients - {u}, Remove(s.mgr, u)))
  {
    RemoveKeeps(s.mgr, u);
  }

  lemma RefreshKeepsInv(s: Store, u: UID)
    requires Inv(s) && u in s.clients
    ensures Inv(s.(mgr := Refresh(s.mgr, u)))
  {
    RefreshKeeps(s.mgr, u);
  }

  lemma StepKeepsInv(conf: Config, s: Store, op: Op)
    requires Inv(s)
    ensures Inv(Step(conf, s, op))
  {
    match op
    case Add(p) =>
      if CanAdd(conf, s.clients, p) {
        PutKeepsInv(s, p);
      }
    case Update(name, p) =>
      if CanUpdate(conf, s.clients, name, p) {
        PutKeepsInv(s, p.(uid := OwnerOf(s.clients, Name(name)).value));
      }
    case RemoveByName(name) =>
      if OwnerOf(s.clients, Name(name)).Some? {
        DropKeepsInv(s, OwnerOf(s.clients, Name(name)).value);
      }
    case SetCommon(common, now) => UpdateCommonKeeps(s.mgr, common, now);
    case Query(id, ip, leased) =>
      if QuerySpec(s.clients, id, ip, leased).Some? {
        RefreshKeepsInv(s, QuerySpec(s.clients, id, ip, leased).value);
      }
  }

  /** In every reachable state the clients share nothing and every configuration is accounted for. */
  lemma {:induction false} RunKeepsInv(conf: Config, s: Store, ops: seq<Op>)
    requires Inv(s)
    ensures Inv(Run(conf, s, ops))
    decreases |ops|
  {
    if ops != [] {
      StepKeepsInv(conf, s, ops[0]);
      RunKeepsInv(conf, Step(conf, s, ops[0]), ops[1..]);
    }
  }

  lemma StepKeepsFresh(conf: Config, s: Store, op: Op)
    requires Inv(s) && Fresh(s.mgr)
    requires op.SetCommon? ==> !exists u :: StampedAt(s.mgr, u, op.now)
    ensures Fresh(Step(conf, s, op).mgr)
  {
    match op
    case Add(p) => UpdateCustomKeeps(s.mgr, p);
    case Update(name, p) =>
      if CanUpdate(conf, s.clients, name, p) {
        UpdateCustomKeeps(s.mgr, Tidy(p).(uid := OwnerOf(s.clients, Name(name)).value));
      }
    case RemoveByName(name) =>
      if OwnerOf(s.clients, Name(name)).Some? {
        RemoveKeeps(s.mgr, OwnerOf(s.clients, Name(name)).value);
      }
    case SetCommon(common, now) => NeverStaleIff(s.mgr, now);
    case Query(id, ip, leased) =>
      if QuerySpec(s.clients, id, ip, leased).Some? {
        RefreshKeeps(s.mgr, QuerySpec(s.clients, id, ip, leased).value);
      }
  }

  lemma {:induction false} RunKeepsFresh(conf: Config, s: Store, ops: seq<Op>)
    requires Inv(s) && NeverClashes(conf, s, ops) && Fresh(s.mgr)
    ensures Fresh(Run(conf, s, ops).mgr)
    decreases |ops|
  {
    if ops != [] {
      StepKeepsInv(conf, s, ops[0]);
      StepKeepsFresh(conf, s, ops[0]);
      RunKeepsFresh(conf, Step(conf, s, ops[0]), ops[1..]);
    }
  }

  lemma StepKeepsBounded(conf: Config, s: Store, op: Op)
    requires Inv(s) && Bounded(s.mgr) && (op.SetCommon? ==> op.now > s.mgr.stamp)
    ensures Bounded(Step(conf, s, op).mgr)
  {
    if op.Query? && QuerySpec(s.clients, op.id, op.ip, op.leased).Some? {
      RefreshKeeps(s.mgr, QuerySpec(s.clients, op.id, op.ip, op.leased).value);
    }
  }

  /** A clock that moves forward is enough. */
  lemma {:induction false} ForwardClockNeverClashes(conf: Config, s: Store, ops: seq<Op>)
    requires Inv(s) && ClockMoves(conf, s, ops) && Bounded(s.mgr)
    ensures NeverClashes(conf, s, ops)
    decreases |ops|
  {
    if ops != [] {
      if ops[0].SetCommon? {
        TickKeepsFresh(s.mgr, ops[0].common, ops[0].now);
      }
      StepKeepsInv(conf, s, ops[0]);
      StepKeepsBounded(conf, s, ops[0]);
      ForwardClockNeverClashes(conf, Step(conf, s, ops[0]), ops[1..]);
    }
  }

  /** What a step leaves of the clients, in terms of their fields. */
  lemma StepClients(conf: Config, s: Store, op: Op)
    requires Inv(s)
    ensures var after := Step(conf, s, op).clients;
            match op
            case Add(p) => after == if CanAdd(conf, s.clients, p) then s.clients[p.uid := Tidy(p)] else s.clients
            case Update(name, p) =>
              && (forall u :: u in s.clients && s.clients[u].name == name && CanUpdate(conf, s.clients, name, p) ==>
                   after == s.clients[u := p.(uid := u, tags := SortStrings(p.tags))])
              && (!CanUpdate(conf, s.clients, name, p) ==> after == s.clients)
            case RemoveByName(name) =>
              && (forall u :: u in s.clients && s.clients[u].name == name ==> after == s.clients - {u})
              && ((forall u :: u in s.clients ==> s.clients[u].name != name) ==> after == s.clients)
            case SetCommon(_, _) => after == s.clients
            case Query(_, _, _) => after == s.clients
  {
    match op
    case Update(name, p) => NamedIs(s.clients, name);
    case RemoveByName(name) => NamedIs(s.clients, name);
    case _ =>
  }

  lemma NamedIs(clients: ClientSet, name: string)
    requires Consistent(clients)
    ensures forall u :: u in clients && clients[u].name == name ==> OwnerOf(clients, Name(name)) == Some(u)
    ensures OwnerOf(clients, Name(name)).None? <==> forall u :: u in clients ==> clients[u].name != name
  {
    forall u | u in clients && clients[u].name == name
      ensures OwnerOf(clients, Name(name)) == Some(u)
    {
      assert Has(clients[u], Name(name));
      OwnerIs(clients, Name(name), u);
    }
  }

  /** Whom every identifier belongs to after an accepted update of client u. */
  lemma UpdateOwners(conf: Config, s: Store, name: string, p: Persistent, u: UID, i: Ident)
    requires Inv(s) && u in s.clients && s.clients[u].name == name && CanUpdate(conf, s.clients, name, p)
    ensures OwnerOf(Step(conf, s, Update(name, p)).clients, i) ==
      if Has(p, i) then Some(u) else if Has(s.clients[u], i) then None else OwnerOf(s.clients, i)
  {
    StepClients(conf, s, Update(name, p));
    NamedIs(s.clients, name);
    TidyHas(p.(uid := u));
    assert Has(p.(uid := u), i) == Has(p, i);
    PutOwners(s.clients, Tidy(p.(uid := u)), i);
  }

  /** Whom every identifier belongs to after an accepted addition. */
  lemma AddOwners(conf: Config, s: Store, p: Persistent, i: Ident)
    requires Inv(s) && CanAdd(conf, s.clients, p)
    ensures OwnerOf(Step(conf, s, Add(p)).clients, i) == if Has(p, i) then Some(p.uid) else OwnerOf(s.clients, i)
  {
    ValidateIff(conf, p);
    TidyHas(p);
    PutOwners(s.clients, Tidy(p), i);
  }

  /** Whom every identifier belongs to after client u is removed. */
  lemma RemoveOwners(conf: Config, s: Store, name: string, u: UID, i: Ident)
    requires Inv(s) && u in s.clients && s.clients[u].name == name
    ensures OwnerOf(Step(conf, s, RemoveByName(name)).clients, i) ==
      if Has(s.clients[u], i) then None else OwnerOf(s.clients, i)
  {
    StepClients(conf, s, RemoveByName(name));
    DropOwners(s.clients, u, i);
  }

  /** The common settings in force are those that the last change in the run gave. */
  lemma {:induction false} CommonIsLastSet(conf: Config, s: Store, ops: seq<Op>, i: nat)
    requires i < |ops| && ops[i].SetCommon? && forall j :: i < j < |ops| ==> !ops[j].SetCommon?
    ensures Run(conf, s, ops).mgr.common == Some(ops[i].common)
    decreases |ops|
  {
    var t := Step(conf, s, ops[0]);
    if i == 0 {
      CommonStays(conf, t, ops[1..]);
    } else {
      CommonIsLastSet(conf, t, ops[1..], i - 1);
    }
  }

  lemma {:induction false} CommonStays(conf: Config, s: Store, ops: seq<Op>)
    requires forall j :: 0 <= j < |ops| ==> !ops[j].SetCommon?
    ensures Run(conf, s, ops).mgr.common == s.mgr.common
    decreases |ops|
  {
    if ops != [] {
      CommonStays(conf, Step(conf, s, ops[0]), ops[1..]);
    }
  }

  /** The operation neither changes the common settings nor updates or removes client u. */
  ghost predicate Leaves(s: Store, op: Op, u: UID) {
    match op
    case Add(p) => p.uid != u
    case Update(name, _) => u in s.clients ==> s.clients[u].name != name
    case RemoveByName(name) => u in s.clients ==> s.clients[u].name != name
    case SetCommon(_, _) => false
    case Query(_, _, _) => true
  }

  ghost predicate AllLeave(conf: Config, s: Store, ops: seq<Op>, u: UID)
    decreases |ops|
  {
    ops != [] ==> Leaves(s, ops[0], u) && AllLeave(conf, Step(conf, s, ops[0]), ops[1..], u)
  }

  /** Client u has an entry that would be served as it is. */
  ghost predicate Served(s: Store, u: UID) {
    u in s.mgr.cached && !IsConfigChanged(s.mgr, s.mgr.cached[u])
  }

  lemma StepLeavesServed(conf: Config, s: Store, op: Op, u: UID)
    requires Inv(s) && Served(s, u) && Leaves(s, op, u)
    ensures Served(Step(conf, s, op), u) && Step(conf, s, op).mgr.cached[u] == s.mgr.cached[u]
  {
    match op
    case Update(name, p) => NamedIs(s.clients, name);
    case RemoveByName(name) => NamedIs(s.clients, name);
    case Query(id, ip, leased) =>
      var o := QuerySpec(s.clients, id, ip, leased);
      if o.Some? && o.value != u {
        RefreshLeavesOthers(s.mgr, o.value, u);
      }
    case _ =>
  }

  /**
   * A configuration is built no more often than needed: as long as neither the client nor the common
   * settings change, its queries get the handle that they got before, and build and close nothing.
   */
  lemma {:induction false} ServedAgain(conf: Config, s: Store, ops: seq<Op>, u: UID)
    requires Inv(s) && Served(s, u) && AllLeave(conf, s, ops, u)
    ensures var t := Run(conf, s, ops);
            Served(t, u) && Refresh(t.mgr, u) == t.mgr && Answer(t.mgr, u) == s.mgr.cached[u].conf
    decreases |ops|
  {
    if ops != [] {
      StepLeavesServed(conf, s, ops[0], u);
      StepKeepsInv(conf, s, ops[0]);
      ServedAgain(conf, Step(conf, s, ops[0]), ops[1..], u);
    }
  }

  /** The configuration that a query gets in state s. */
  ghost function QueryAnswer(s: Store, id: string, ip: Addr, leased: Option<Mac>): Option<nat> {
    var o := QuerySpec(s.clients, id, ip, leased);
    if o.Some? then Answer(s.mgr, o.value) else None
  }

  /**
   * After any run in which no settings change reads the time of an unchanged build, a query that
   * does not panic gets a configuration that is open, that no other client holds, and that is built
   * from the current fields of the client it selects and the current common settings; it gets none
   * exactly when there is nothing to build.
   */
  lemma QueryAnswerIsCurrent(conf: Config, ops: seq<Op>, id: string, ip: Addr, leased: Option<Mac>)
    requires NeverClashes(conf, NewStore, ops)
    requires !StepPanics(Run(conf, NewStore, ops), Query(id, ip, leased))
    ensures var s := Run(conf, NewStore, ops);
            var after := Step(conf, s, Query(id, ip, leased));
            var h := QueryAnswer(s, id, ip, leased);
            match QuerySpec(s.clients, id, ip, leased)
            case None => h.None?
            case Some(u) => Serves(after.mgr, h, u, Wanted(s.clients[u].upstreams, s.mgr.common))
  {
    RunKeepsInv(conf, NewStore, ops);
    RunKeepsFresh(conf, NewStore, ops);
    var s := Run(conf, NewStore, ops);
    var o := QuerySpec(s.clients, id, ip, leased);
    if o.Some? {
      AnswerIsCurrent(s.mgr, o.value);
    }
  }

  /**
   * What a query gets is built from: the selected client's lines that are neither empty nor comments,
   * in their order, its cache fields, and the common settings in force.  It gets nothing exactly when
   * there is no such line, or no client.
   */
  lemma QueryBuiltFrom(conf: Config, ops: seq<Op>, id: string, ip: Addr, leased: Option<Mac>)
    requires NeverClashes(conf, NewStore, ops)
    requires !StepPanics(Run(conf, NewStore, ops), Query(id, ip, leased))
    ensures var s := Run(conf, NewStore, ops);
            var m := Step(conf, s, Query(id, ip, leased)).mgr;
            var h := QueryAnswer(s, id, ip, leased);
            match QuerySpec(s.clients, id, ip, leased)
            case None => h.None?
            case Some(u) =>
              var ups := s.clients[u].upstreams;
              && (h.Some? <==> exists i :: 0 <= i < |ups.servers| && Counts(ups.servers[i]))
              && (h.Some? ==> h.value < |m.built| && s.mgr.common.Some?)
              && (h.Some? ==> BuiltFrom(m.built[h.value], ups, s.mgr.common.value))
  {
    QueryAnswerIsCurrent(conf, ops, id, ip, leased);
    var s := Run(conf, NewStore, ops);
    var o := QuerySpec(s.clients, id, ip, leased);
    if o.Some? {
      var ups := s.clients[o.value].upstreams;
      WantedIsBuiltFrom(ups, s.mgr.common);
      QueryPanicsIff(conf, ops, id, ip, leased);
      NothingBuiltBeforeSettings(conf, NewStore, ops);
      FilterKeepsNothingIff(ups.servers);
    }
  }

  /** After any run, the shutdown leaves every configuration ever built closed exactly once. */
  lemma ShutdownClosesEverythingOnce(conf: Config, ops: seq<Op>)
    ensures AllClosedOnce(CloseAll(Run(conf, NewStore, ops).mgr))
  {
    RunKeepsInv(conf, NewStore, ops);
    CloseAllClosesOnce(Run(conf, NewStore, ops).mgr);
  }

  ghost predicate SetsCommon(ops: seq<Op>) {
    exists op :: op in ops && op.SetCommon?
  }

  lemma SetsCommonNext(ops: seq<Op>)
    requires ops != []
    ensures SetsCommon(ops) <==> ops[0].SetCommon? || SetsCommon(ops[1..])
  {
  }

  /** The common settings are there once a step has set them, and nothing is built before. */
  lemma {:induction false} NothingBuiltBeforeSettings(conf: Config, s: Store, ops: seq<Op>)
    requires s.mgr.common.None? ==> s.mgr.built == []
    ensures var t := Run(conf, s, ops);
            && (t.mgr.common.None? ==> t.mgr.built == [])
            && (t.mgr.common.None? <==> s.mgr.common.None? && !SetsCommon(ops))
    decreases |ops|
  {
    if ops != [] {
      SetsCommonNext(ops);
      NothingBuiltBeforeSettings(conf, Step(conf, s, ops[0]), ops[1..]);
    }
  }

  /** A query panics exactly if the common settings were never set and the client it selects has upstreams. */
  lemma QueryPanicsIff(conf: Config, ops: seq<Op>, id: string, ip: Addr, leased: Option<Mac>)
    ensures var s := Run(conf, NewStore, ops);
            var o := QuerySpec(s.clients, id, ip, leased);
            StepPanics(s, Query(id, ip, leased)) <==>
            !SetsCommon(ops) && o.Some? && FilterOut(s.clients[o.value].upstreams.servers) != []
  {
    RunKeepsInv(conf, NewStore, ops);
    NothingBuiltBeforeSettings(conf, NewStore, ops);
  }

  /** The only client of a store is the one that its ClientID finds. */
  lemma FoundAlone(conf: Config, s: Store, p: Persistent, id: string)
    requires Inv(s) && s.clients == map[] && CanAdd(conf, map[], p) && p.clientIDs == [id]
    ensures var t := Step(conf, s, Add(p));
            && t.clients == map[p.uid := Tidy(p)] && t.mgr == UpdateCustom(s.mgr, p)
            && QuerySpec(t.clients, id, NoAddr, None) == Some(p.uid)
  {
  }

  /** The first query for a client with upstreams panics if the settings have not been given. */
  lemma PanicsWithoutSettings(conf: Config, p: Persistent, id: string)
    requires CanAdd(conf, map[], p) && p.clientIDs == [id] && p.upstreams.servers == ["1.1.1.1"]
    ensures StepPanics(Run(conf, NewStore, [Add(p)]), Query(id, NoAddr, None))
  {
  }

  /**
   * A clock that stands still is enough to serve a stale configuration: two changes of the common
   * settings at one reading, with a query between them.
   */
  lemma StaleAtEqualReadings(conf: Config, p: Persistent, c: CommonConf, d: CommonConf, now: Time, id: string)
    requires CanAdd(conf, map[], p) && p.clientIDs == [id] && p.upstreams.servers == ["1.1.1.1"]
    requires c != d
    ensures var query := Query(id, NoAddr, None);
            var ops := [SetCommon(c, now), Add(p), query, SetCommon(d, now)];
            var s := Run(conf, NewStore, ops);
            && !StepPanics(s, query) && QuerySpec(s.clients, id, NoAddr, None) == Some(p.uid)
            && Content(Step(conf, s, query).mgr, QueryAnswer(s, id, NoAddr, None)) == Wanted(p.upstreams, Some(c))
            && Wanted(p.upstreams, Some(c)) != Wanted(p.upstreams, s.mgr.common)
  {
    var query := Query(id, NoAddr, None);
    var s1 := Step(conf, NewStore, SetCommon(c, now));
    var s2 := Step(conf, s1, Add(p));
    FoundAlone(conf, s1, p, id);
    var s3 := Step(conf, s2, query);
    var s4 := Step(conf, s3, SetCommon(d, now));
    RunFour(conf, NewStore, SetCommon(c, now), Add(p), query, SetCommon(d, now));
    assert FilterOut(["1.1.1.1"]) == ["1.1.1.1"];
  }

  lemma RunFour(conf: Config, s: Store, a: Op, b: Op, c: Op, d: Op)
    ensures Run(conf, s, [a, b, c, d]) == Step(conf, Step(conf, Step(conf, Step(conf, s, a), b), c), d)
  {
    assert [a, b, c, d][1..] == [b, c, d] && [b, c, d][1..] == [c, d] && [c, d][1..] == [d] && [d][1..] == [];
    var t := Step(conf, Step(conf, s, a), b);
    var u := Step(conf, t, c);
    assert Run(conf, u, [d]) == Step(conf, u, d);
    assert Run(conf, t, [c, d]) == Run(conf, u, [d]);
  }
}
