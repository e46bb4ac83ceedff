/**
 * The cache of custom upstream configurations as values: what is cached for each client, when it
 * counts as out of date, and what became of every configuration ever built.
 */
module UpstreamSpec {
  import opened Common
  import opened Clients

  type Time = int

  /** Settings shared by the upstream configurations of all clients. */
  datatype CommonConf = CommonConf(bootstrap: string, timeout: int, preferIPv6: bool, ecsEnabled: bool, useHTTP3: bool)

  /** What a proxy configuration was built from. */
  datatype Built = Built(servers: seq<string>, cacheSize: u32, cacheEnabled: bool, common: CommonConf)

  predicate IsCommentOrEmpty(s: string) {
    |s| == 0 || s[0] == '#'
  }

  function FilterOut(servers: seq<string>): seq<string> {
    if servers == [] then []
    else (if IsCommentOrEmpty(servers[0]) then [] else [servers[0]]) + FilterOut(servers[1..])
  }

  /** What a client's fields and the common settings must give; None without upstreams. */
  function Wanted(ups: Upstreams, common: Option<CommonConf>): Option<Built> {
    if FilterOut(ups.servers) == [] || common.None? then None
    else Some(Built(FilterOut(ups.servers), ups.cacheSize, ups.cacheEnabled, common.value))
  }

  /** A line that names an upstream: not empty, and no comment. */
  predicate Counts(line: string) {
    line != "" && line[0] != '#'
  }

  /** kept is what stands in lines at the rising positions at, which are all those of lines that count. */
  ghost predicate Selects(lines: seq<string>, kept: seq<string>, at: seq<nat>) {
    && |at| == |kept|
    && (forall k :: 0 <= k < |at| ==> at[k] < |lines| && kept[k] == lines[at[k]] && Counts(lines[at[k]]))
    && (forall j, k :: 0 <= j < k < |at| ==> at[j] < at[k])
    && (forall i: nat :: i < |lines| && Counts(lines[i]) ==> i in at)
  }

  function Moved(at: seq<nat>): seq<nat> {
    seq(|at|, k requires 0 <= k < |at| => at[k] + 1)
  }

  lemma MovedHas(at: seq<nat>, i: nat)
    ensures i in Moved(at) <==> i > 0 && i - 1 in at
  {
    if i > 0 && i - 1 in at {
      var k :| 0 <= k < |at| && at[k] == i - 1;
      assert Moved(at)[k] == i;
    }
  }

  lemma SkipsHead(lines: seq<string>, kept: seq<string>, at: seq<nat>)
    requires lines != [] && !Counts(lines[0]) && Selects(lines[1..], kept, at)
    ensures Selects(lines, kept, Moved(at))
  {
    forall i: nat | i < |lines| && Counts(lines[i])
      ensures i in Moved(at)
    {
      assert lines[1..][i - 1] == lines[i];
      MovedHas(at, i);
    }
  }

  lemma KeepsHead(lines: seq<string>, kept: seq<string>, at: seq<nat>)
    requires lines != [] && Counts(lines[0]) && Selects(lines[1..], kept, at)
    ensures Selects(lines, [lines[0]] + kept, [0] + Moved(at))
  {
    var at', kept' := [0] + Moved(at), [lines[0]] + kept;
    forall k | 0 <= k < |at'|
      ensures at'[k] < |lines| && kept'[k] == lines[at'[k]] && Counts(lines[at'[k]])
      ensures forall j :: 0 <= j < k ==> at'[j] < at'[k]
    {
      if k > 0 {
        assert at'[k] == at[k - 1] + 1 && kept'[k] == kept[k - 1] == lines[1..][at[k - 1]];
        assert forall j :: 0 < j < k ==> at'[j] == at[j - 1] + 1;
      }
    }
    forall i: nat | i < |lines| && Counts(lines[i])
      ensures i in at'
    {
      if i == 0 {
        assert at'[0] == 0;
      } else {
        assert lines[1..][i - 1] == lines[i];
        MovedHas(at, i);
      }
    }
  }

  /** The filter keeps exactly the lines that count, in their order and as often as they occur. */
  lemma {:induction false} FilterSelects(lines: seq<string>) returns (at: seq<nat>)
    ensures Selects(lines, FilterOut(lines), at)
  {
    if lines == [] {
      return [];
    }
    var rest := FilterSelects(lines[1..]);
    if Counts(lines[0]) {
      KeepsHead(lines, FilterOut(lines[1..]), rest);
      at := [0] + Moved(rest);
    } else {
      SkipsHead(lines, FilterOut(lines[1..]), rest);
      assert FilterOut(lines) == FilterOut(lines[1..]);
      at := Moved(rest);
    }
  }

  lemma {:induction false} FilterKeepsNothingIff(lines: seq<string>)
    ensures FilterOut(lines) == [] <==> forall i :: 0 <= i < |lines| ==> !Counts(lines[i])
  {
    var at := FilterSelects(lines);
    forall i: nat | i < |lines| && Counts(lines[i])
      ensures FilterOut(lines) != []
    {
      assert i in at;
    }
    if FilterOut(lines) != [] {
      assert Counts(lines[at[0]]);
    }
  }

  /** The configuration has the upstreams that count, in order, and the cache fields and settings given. */
  ghost predicate BuiltFrom(b: Built, ups: Upstreams, common: CommonConf) {
    && (exists at :: Selects(ups.servers, b.servers, at))
    && b.cacheSize == ups.cacheSize && b.cacheEnabled == ups.cacheEnabled && b.common == common
  }

  /** What is wanted for a client, field by field. */
  lemma WantedIsBuiltFrom(ups: Upstreams, common: Option<CommonConf>)
    ensures Wanted(ups, common).Some? <==> common.Some? && exists i :: 0 <= i < |ups.servers| && Counts(ups.servers[i])
    ensures Wanted(ups, common).Some? ==> BuiltFrom(Wanted(ups, common).value, ups, common.value)
  {
    var _ := FilterSelects(ups.servers);
    FilterKeepsNothingIff(ups.servers);
  }

  /** One client's entry: the handle of its live configuration, its last build, and its copied fields. */
  datatype Cached = Cached(conf: Option<nat>, update: Time, ups: Upstreams, changed: bool)

  /** built[h] is what configuration h was built from, closes[h] how often it has been closed. */
  datatype Manager = Manager(
    common: Option<CommonConf>,
    stamp: Time,
    cached: map<UID, Cached>,
    built: seq<Built>,
    closes: seq<nat>)

  const NewManager := Manager(None, 0, map[], [], [])

  function Closed(closes: seq<nat>, conf: Option<nat>): (r: seq<nat>)
    ensures |r| == |closes|
  {
    if conf.Some? && conf.value < |closes| then closes[conf.value := closes[conf.value] + 1] else closes
  }

  function UpdateCommon(m: Manager, conf: CommonConf, now: Time): Manager {
    m.(common := Some(conf), stamp := now)
  }

  function UpdateCustom(m: Manager, c: Persistent): Manager {
    var was := if c.uid in m.cached then m.cached[c.uid] else Cached(None, m.stamp, c.upstreams, true);
    m.(cached := m.cached[c.uid := was.(ups := c.upstreams, changed := true)])
  }

  predicate IsConfigChanged(m: Manager, entry: Cached) {
    m.stamp != entry.update || entry.changed
  }

  /** Building for uid would read the common settings although they were never set. */
  predicate Panics(m: Manager, uid: UID) {
    uid in m.cached && IsConfigChanged(m, m.cached[uid]) && m.common.None? && FilterOut(m.cached[uid].ups.servers) != []
  }

  /** The configuration of uid closed, if it has one. */
  function CloseOf(m: Manager, uid: UID): Manager
    requires uid in m.cached
  {
    m.(closes := Closed(m.closes, m.cached[uid].conf))
  }

  /** One more configuration, open. */
  function Granted(m: Manager, b: Built): Manager {
    m.(built := m.built + [b], closes := m.closes + [0])
  }

  /** A new configuration for uid, or none if it has no upstreams, in place of the one it had. */
  function Rebuilt(m: Manager, uid: UID): Manager
    requires uid in m.cached
  {
    var entry := m.cached[uid].(update := m.stamp, changed := false);
    match Wanted(entry.ups, m.common)
    case None => m.(cached := m.cached[uid := entry.(conf := None)])
    case Some(b) => Granted(m, b).(cached := m.cached[uid := entry.(conf := Some(|m.built|))])
  }

  /** The entry of uid, rebuilt if it is out of date; a build that panics comes after the close. */
  function Refresh(m: Manager, uid: UID): Manager {
    if uid !in m.cached || !IsConfigChanged(m, m.cached[uid]) then m
    else if Panics(m, uid) then CloseOf(m, uid)
    else Rebuilt(CloseOf(m, uid), uid)
  }

  function Answer(m: Manager, uid: UID): Option<nat> {
    if uid in m.cached then Refresh(m, uid).cached[uid].conf else None
  }

  function Remove(m: Manager, uid: UID): Manager {
    if uid !in m.cached then m
    else CloseOf(m, uid).(cached := m.cached - {uid})
  }

  ghost predicate Live(m: Manager, h: nat) {
    exists u :: u in m.cached && m.cached[u].conf == Some(h)
  }

  /** The terminal close of every live configuration; the entries stay. */
  ghost function CloseAll(m: Manager): Manager {
    m.(closes := seq(|m.closes|, h requires 0 <= h < |m.closes| => m.closes[h] + if Live(m, h) then 1 else 0))
  }

  /**
   * Every configuration ever built is the live one of exactly one client and open, or has been
   * closed exactly once.
   */
  ghost predicate Conserved(m: Manager) {
    && |m.closes| == |m.built|
    && (forall u :: u in m.cached && m.cached[u].conf.Some? ==> m.cached[u].conf.value < |m.built|)
    && (forall u, v ::
          u in m.cached && v in m.cached && m.cached[u].conf.Some? && m.cached[u].conf == m.cached[v].conf ==> u == v)
    && (forall h :: 0 <= h < |m.closes| ==> m.closes[h] == if Live(m, h) then 0 else 1)
  }

  /** What the handle was built from. */
  function Content(m: Manager, conf: Option<nat>): Option<Built> {
    if conf.Some? && conf.value < |m.built| then Some(m.built[conf.value]) else None
  }

  /** An entry that would not be rebuilt holds what a rebuild would give. */
  ghost predicate Fresh(m: Manager) {
    forall u :: u in m.cached && !IsConfigChanged(m, m.cached[u]) ==>
      Content(m, m.cached[u].conf) == Wanted(m.cached[u].ups, m.common)
  }

  /** No entry was built after the latest common settings. */
  ghost predicate Bounded(m: Manager) {
    forall u :: u in m.cached ==> m.cached[u].update <= m.stamp
  }

  /** An entry that has not changed since its build has a configuration exactly when it has upstreams. */
  ghost predicate Settled(m: Manager) {
    forall u :: u in m.cached && !m.cached[u].changed ==>
      (m.cached[u].conf.Some? <==> FilterOut(m.cached[u].ups.servers) != [])
  }

  /** Nothing is built before the common settings are given. */
  predicate BuiltAfterSettings(m: Manager) {
    m.common.None? ==> m.built == []
  }

  /** So a build that panics changes nothing: there is no configuration to close. */
  lemma PanicChangesNothing(m: Manager, uid: UID)
    requires Conserved(m) && BuiltAfterSettings(m) && Panics(m, uid)
    ensures Refresh(m, uid) == m
  {
  }

  lemma UpdateCommonKeeps(m: Manager, conf: CommonConf, now: Time)
    requires Conserved(m)
    ensures Conserved(UpdateCommon(m, conf, now))
  {
  }

  lemma UpdateCustomKeeps(m: Manager, c: Persistent)
    requires Conserved(m)
    ensures Conserved(UpdateCustom(m, c))
    ensures Fresh(m) ==> Fresh(UpdateCustom(m, c))
    ensures Bounded(m) ==> Bounded(UpdateCustom(m, c))
    ensures Settled(m) ==> Settled(UpdateCustom(m, c))
  {
    var after := UpdateCustom(m, c);
    forall u, h: nat | u in m.cached && m.cached[u].conf == Some(h)
      ensures Live(after, h)
    {
      assert after.cached[u].conf == Some(h);
    }
    forall u, h: nat | u in after.cached && after.cached[u].conf == Some(h)
      ensures Live(m, h)
    {
      assert m.cached[u].conf == Some(h);
    }
  }

  /** Giving up the handle of uid, which is closed once, leaves every other handle as it was. */
  lemma DropKeeps(m: Manager, uid: UID, after: Manager)
    requires Conserved(m) && uid in m.cached
    requires after.built == m.built && after.closes == Closed(m.closes, m.cached[uid].conf)
    requires uid in after.cached ==> after.cached[uid].conf.None?
    requires forall u :: u != uid ==> (u in after.cached <==> u in m.cached)
    requires forall u :: u != uid && u in m.cached ==> after.cached[u].conf == m.cached[u].conf
    ensures Conserved(after)
  {
    forall h: nat | h < |m.closes|
      ensures after.closes[h] == if Live(after, h) then 0 else 1
    {
      if m.cached[uid].conf == Some(h) {
        assert Live(m, h);
      } else if u :| u in m.cached && m.cached[u].conf == Some(h) {
        assert after.cached[u].conf == Some(h);
      }
    }
  }

  lemma RemoveKeeps(m: Manager, uid: UID)
    requires Conserved(m)
    ensures Conserved(Remove(m, uid))
    ensures Fresh(m) ==> Fresh(Remove(m, uid))
    ensures Bounded(m) ==> Bounded(Remove(m, uid))
    ensures Settled(m) ==> Settled(Remove(m, uid))
  {
    if uid in m.cached {
      DropKeeps(m, uid, Remove(m, uid));
    }
  }

  /** Handing uid a new open configuration. */
  lemma GrantKeeps(m: Manager, uid: UID, entry: Cached, b: Built)
    requires Conserved(m) && uid in m.cached && m.cached[uid].conf.None? && entry.conf == Some(|m.built|)
    ensures Conserved(Granted(m, b).(cached := m.cached[uid := entry]))
  {
    var after := Granted(m, b).(cached := m.cached[uid := entry]);
    forall h: nat | h < |after.closes|
      ensures after.closes[h] == if Live(after, h) then 0 else 1
    {
      if h == |m.built| {
        assert after.cached[uid].conf == Some(h);
      } else if u :| u in m.cached && m.cached[u].conf == Some(h) {
        assert after.cached[u].conf == Some(h);
      }
    }
  }

  lemma RefreshConserves(m: Manager, uid: UID)
    requires Conserved(m) && BuiltAfterSettings(m)
    ensures Conserved(Refresh(m, uid)) && BuiltAfterSettings(Refresh(m, uid))
  {
    if Panics(m, uid) {
      PanicChangesNothing(m, uid);
    } else if uid in m.cached && IsConfigChanged(m, m.cached[uid]) {
      RebuiltConserves(m, uid);
    }
  }

  lemma RebuiltConserves(m: Manager, uid: UID)
    requires Conserved(m) && uid in m.cached
    ensures Conserved(Rebuilt(CloseOf(m, uid), uid))
  {
    var entry := m.cached[uid].(conf := None, update := m.stamp, changed := false);
    var dropped := CloseOf(m, uid).(cached := m.cached[uid := entry]);
    DropKeeps(m, uid, dropped);
    var wanted := Wanted(entry.ups, m.common);
    if wanted.Some? {
      GrantKeeps(dropped, uid, entry.(conf := Some(|m.built|)), wanted.value);
      assert Rebuilt(CloseOf(m, uid), uid).cached == dropped.cached[uid := entry.(conf := Some(|m.built|))];
    }
  }

  lemma RefreshKeepsFresh(m: Manager, uid: UID)
    requires Conserved(m) && Fresh(m)
    ensures Fresh(Refresh(m, uid))
  {
  }

  lemma RefreshKeeps(m: Manager, uid: UID)
    requires Conserved(m) && BuiltAfterSettings(m)
    ensures Conserved(Refresh(m, uid)) && BuiltAfterSettings(Refresh(m, uid))
    ensures Fresh(m) ==> Fresh(Refresh(m, uid))
    ensures Bounded(m) ==> Bounded(Refresh(m, uid))
    ensures Settled(m) ==> Settled(Refresh(m, uid))
  {
    RefreshConserves(m, uid);
    if Fresh(m) {
      RefreshKeepsFresh(m, uid);
    }
  }

  /** An answer that is not asked for anew costs nothing: the second query builds and closes nothing. */
  lemma RefreshTwice(m: Manager, uid: UID)
    requires uid in m.cached && !Panics(m, uid)
    ensures Refresh(Refresh(m, uid), uid) == Refresh(m, uid)
    ensures Answer(Refresh(m, uid), uid) == Answer(m, uid)
    ensures !IsConfigChanged(Refresh(m, uid), Refresh(m, uid).cached[uid])
  {
  }

  /** A query of one client leaves the entry of every other. */
  lemma RefreshLeavesOthers(m: Manager, uid: UID, other: UID)
    requires uid != other && other in m.cached
    ensures other in Refresh(m, uid).cached && Refresh(m, uid).cached[other] == m.cached[other]
    ensures Refresh(m, uid).stamp == m.stamp && Refresh(m, uid).common == m.common
  {
  }

  /** Handle h answers for uid: it is open, no other client holds it, and it was built from what is wanted. */
  ghost predicate Serves(m: Manager, h: Option<nat>, uid: UID, wanted: Option<Built>) {
    && Content(m, h) == wanted
    && (h.None? <==> wanted.None?)
    && (h.Some? ==> h.value < |m.closes| && m.closes[h.value] == 0)
    && forall u :: u in m.cached && h.Some? && m.cached[u].conf == h ==> u == uid
  }

  lemma AnswerIsCurrent(m: Manager, uid: UID)
    requires Conserved(m) && Fresh(m) && BuiltAfterSettings(m) && uid in m.cached && !Panics(m, uid)
    ensures Serves(Refresh(m, uid), Answer(m, uid), uid, Wanted(m.cached[uid].ups, m.common))
  {
  }

  ghost predicate AllClosedOnce(m: Manager) {
    |m.closes| == |m.built| && forall h :: 0 <= h < |m.closes| ==> m.closes[h] == 1
  }

  /** After the terminal close every configuration ever built has been closed exactly once. */
  lemma CloseAllClosesOnce(m: Manager)
    requires Conserved(m)
    ensures AllClosedOnce(CloseAll(m))
  {
  }

  /** Entry u was rebuilt at the reading now, has not changed since, and has upstreams. */
  ghost predicate StampedAt(m: Manager, u: UID, now: Time) {
    u in m.cached && !m.cached[u].changed && m.cached[u].update == now && FilterOut(m.cached[u].ups.servers) != []
  }

  /** A clock that moves forward meets no stamp and puts every entry out of date. */
  lemma TickKeepsFresh(m: Manager, conf: CommonConf, now: Time)
    requires Bounded(m) && now > m.stamp
    ensures Fresh(UpdateCommon(m, conf, now)) && Bounded(UpdateCommon(m, conf, now))
    ensures !exists u :: StampedAt(m, u, now)
  {
  }

  /**
   * When a change of the common settings is never missed: exactly when the new clock reading is not
   * the one at which some unchanged entry with upstreams was built.
   */
  lemma NeverStaleIff(m: Manager, now: Time)
    requires Conserved(m) && Settled(m)
    ensures (forall conf :: Fresh(UpdateCommon(m, conf, now))) <==> !exists u :: StampedAt(m, u, now)
  {
    if u :| StampedAt(m, u, now) {
      var was := m.built[m.cached[u].conf.value].common;
      var other := was.(timeout := was.timeout + 1);
      assert Wanted(m.cached[u].ups, Some(other)).value.common == other;
      assert !Fresh(UpdateCommon(m, other, now));
    } else {
      forall conf
        ensures Fresh(UpdateCommon(m, conf, now))
      {
        forall u | u in m.cached && !m.cached[u].changed && m.cached[u].update == now
          ensures Content(m, m.cached[u].conf) == Wanted(m.cached[u].ups, Some(conf))
        {
          assert !StampedAt(m, u, now);
        }
      }
    }
  }
}
