/** The manager of custom upstream configurations, with its entries and configurations as objects. */
module UpstreamManagers {
  import opened Common
  import opened Clients
  import opened UpstreamSpec

  /** A built proxy configuration, which owns upstream connections until it is closed. */
  class ProxyConf {
    const source: Built
    var closes: nat
    // The position among all configurations ever built.
    ghost const handle: nat

    constructor (source: Built, ghost handle: nat)
      ensures this.source == source && closes == 0 && this.handle == handle
    {
      this.source := source;
      this.handle := handle;
      closes := 0;
    }

    /** Closing may report an error, but it is a close all the same. */
    method Close() returns (err: bool)
      modifies this
      ensures closes == old(closes) + 1
    {
      closes := closes + 1;
      err := *;
    }
  }

  /** One client's entry, updated in place. */
  class CustomConf {
    var proxyConf: ProxyConf?
    var commonConfUpdate: Time
    var upstreams: Upstreams
    var isChanged: bool
    // The client that the entry belongs to.
    ghost const owner: UID

    constructor (update: Time, upstreams: Upstreams, ghost owner: UID)
      ensures proxyConf == null && commonConfUpdate == update && this.upstreams == upstreams && isChanged
      ensures this.owner == owner
    {
      this.owner := owner;
      proxyConf := null;
      commonConfUpdate := update;
      this.upstreams := upstreams;
      isChanged := true;
    }

    /** Copies the fields of the client and asks for a rebuild. */
    method Copy(upstreams: Upstreams)
      modifies this
      ensures proxyConf == old(proxyConf) && commonConfUpdate == old(commonConfUpdate)
      ensures this.upstreams == upstreams && isChanged
    {
      this.upstreams := upstreams;
      isChanged := true;
    }

    /** Stores what was built at the given time. */
    method Install(conf: ProxyConf?, update: Time)
      modifies this
      ensures proxyConf == conf && commonConfUpdate == update && upstreams == old(upstreams) && !isChanged
    {
      proxyConf := conf;
      commonConfUpdate := update;
      isChanged := false;
    }
  }

  /** conf is the object behind the handle h. */
  ghost predicate Denotes(conf: ProxyConf?, h: Option<nat>, all: seq<ProxyConf>) {
    match h
    case None => conf == null
    case Some(n) => n < |all| && conf == all[n]
  }

  ghost predicate EntryIs(e: CustomConf, uid: UID, entry: Cached, all: seq<ProxyConf>)
    reads e
  {
    && e.owner == uid && Denotes(e.proxyConf, entry.conf, all)
    && e.commonConfUpdate == entry.update && e.upstreams == entry.ups && e.isChanged == entry.changed
  }

  /** Every client has its own entry object, which holds the values. */
  ghost predicate Entries(entries: map<UID, CustomConf>, cached: map<UID, Cached>, all: seq<ProxyConf>)
    reads entries.Values
  {
    && cached.Keys == entries.Keys
    && forall u :: u in entries ==> EntryIs(entries[u], u, cached[u], all)
  }

  ghost predicate ConfIs(conf: ProxyConf, handle: nat, source: Built, closes: nat)
    reads conf
  {
    conf.handle == handle && conf.source == source && conf.closes == closes
  }

  ghost predicate Confs(all: seq<ProxyConf>, built: seq<Built>, closes: seq<nat>)
    reads all
  {
    && |all| == |built| == |closes|
    && forall h :: 0 <= h < |all| ==> ConfIs(all[h], h, built[h], closes[h])
  }

  class UpstreamManager {
    var uidToCustomConf: map<UID, CustomConf>
    var commonConf: Option<CommonConf>
    var confUpdate: Time
    // Every configuration ever built, by handle.
    ghost var All: seq<ProxyConf>
    // The entries as values, and what became of each configuration.
    ghost var Held: map<UID, Cached>
    ghost var Sources: seq<Built>
    ghost var Closes: seq<nat>
    ghost var Repr: set<object>

    /** The state as a value. */
    ghost function Model(): Manager
      reads this
    {
      Manager(commonConf, confUpdate, Held, Sources, Closes)
    }

    ghost predicate Valid()
      reads this, Repr
      ensures Valid() ==> this in Repr
    {
      && this in Repr
      && (forall u :: u in uidToCustomConf ==> uidToCustomConf[u] in Repr)
      && (forall h :: 0 <= h < |All| ==> All[h] in Repr)
      && Entries(uidToCustomConf, Held, All)
      && Confs(All, Sources, Closes)
    }

    constructor ()
      ensures Valid() && Model() == NewManager && fresh(Repr)
    {
      uidToCustomConf := map[];
      commonConf := None;
      confUpdate := 0;
      All := [];
      Held, Sources, Closes := map[], [], [];
      Repr := {this};
    }

    method UpdateCommonUpstreamConfig(conf: CommonConf, now: Time)
      requires Valid()
      modifies this
      ensures Valid() && Model() == UpdateCommon(old(Model()), conf, now)
      ensures Repr == old(Repr)
    {
      commonConf := Some(conf);
      confUpdate := now;
    }

    method UpdateCustomUpstreamConfig(c: Persistent)
      requires Valid()
      modifies Repr
      ensures Valid() && Model() == UpdateCustom(old(Model()), c)
      ensures fresh(Repr - old(Repr))
    {
      if c.uid !in uidToCustomConf {
        NewEntry(c);
      }
      CopyFields(c);
    }

    /** An entry for a client that has none, stamped as if it were up to date but marked as changed. */
    method NewEntry(c: Persistent)
      requires Valid() && c.uid !in uidToCustomConf
      modifies this`uidToCustomConf, this`Held, this`Repr
      ensures Valid() && fresh(Repr - old(Repr)) && c.uid in uidToCustomConf && fresh(uidToCustomConf[c.uid])
      ensures Held == old(Held)[c.uid := Cached(None, confUpdate, c.upstreams, true)]
    {
      var cliConf := new CustomConf(confUpdate, c.upstreams, c.uid);
      uidToCustomConf := uidToCustomConf[c.uid := cliConf];
      Repr := Repr + {cliConf};
      Held := Held[c.uid := Cached(None, confUpdate, c.upstreams, true)];
    }

    method CopyFields(c: Persistent)
      requires Valid() && c.uid in uidToCustomConf
      modifies this`Held, uidToCustomConf[c.uid]
      ensures Valid() && Held == old(Held)[c.uid := old(Held)[c.uid].(ups := c.upstreams, changed := true)]
    {
      uidToCustomConf[c.uid].Copy(c.upstreams);
      Held := Held[c.uid := Held[c.uid].(ups := c.upstreams, changed := true)];
    }

    /** A new configuration from the given fields and the common settings; null without upstreams. */
    method NewCustomUpstreamConfig(ups: Upstreams) returns (conf: ProxyConf?)
      requires Valid() && (FilterOut(ups.servers) == [] || commonConf.Some?)
      modifies this`All, this`Sources, this`Closes, this`Repr
      ensures Valid()
      ensures conf == null <==> Wanted(ups, commonConf).None?
      ensures conf == null ==> All == old(All) && Model() == old(Model()) && Repr == old(Repr)
      ensures conf != null ==> fresh(conf) && All == old(All) + [conf] && Repr == old(Repr) + {conf}
      ensures conf != null ==> Model() == Granted(old(Model()), Wanted(ups, commonConf).value)
      ensures conf != null ==> commonConf.Some? && BuiltFrom(conf.source, ups, commonConf.value)
    {
      var source := SourceOf(ups);
      if source.None? {
        return null;
      }
      conf := Grant(source.value);
    }

    /** A new open configuration, which no client holds yet. */
    method Grant(source: Built) returns (conf: ProxyConf)
      requires Valid()
      modifies this`All, this`Sources, this`Closes, this`Repr
      ensures Valid() && fresh(conf) && conf.source == source
      ensures All == old(All) + [conf] && Repr == old(Repr) + {conf}
      ensures Sources == old(Sources) + [source] && Closes == old(Closes) + [0]
    {
      conf := new ProxyConf(source, |All|);
      All := All + [conf];
      Repr := Repr + {conf};
      Sources, Closes := Sources + [source], Closes + [0];
    }

    /** What a configuration is built from; none without upstreams. */
    method SourceOf(ups: Upstreams) returns (source: Option<Built>)
      requires FilterOut(ups.servers) == [] || commonConf.Some?
      ensures source == Wanted(ups, commonConf)
      ensures source.Some? ==> commonConf.Some? && BuiltFrom(source.value, ups, commonConf.value)
    {
      WantedIsBuiltFrom(ups, commonConf);
      var servers := FilterOut(ups.servers);
      source := if |servers| == 0 then None
                else Some(Built(servers, ups.cacheSize, ups.cacheEnabled, commonConf.value));
    }

    /**
     * The configuration of the client, rebuilt if its fields or the common settings changed, unless
     * the build panics.
     */
    method CustomUpstreamConfig(uid: UID) returns (conf: ProxyConf?, panics: bool)
      requires Valid() && Conserved(Model())
      modifies Repr
      ensures Valid() && Model() == Refresh(old(Model()), uid)
      ensures panics <==> Panics(old(Model()), uid)
      ensures !panics ==> Denotes(conf, Answer(old(Model()), uid), All)
      ensures fresh(Repr - old(Repr))
    {
      if uid !in uidToCustomConf {
        return null, false;
      }
      var e := uidToCustomConf[uid];
      if confUpdate == e.commonConfUpdate && !e.isChanged {
        return e.proxyConf, false;
      }
      CloseEntry(uid);
      conf, panics := TryRebuild(uid);
    }

    /** Without common settings a build that would read them panics, and nothing is stored. */
    method TryRebuild(uid: UID) returns (conf: ProxyConf?, panics: bool)
      requires Valid() && uid in uidToCustomConf
      modifies this`All, this`Held, this`Sources, this`Closes, this`Repr, uidToCustomConf[uid]
      ensures Valid() && panics == (commonConf.None? && FilterOut(old(Held)[uid].ups.servers) != [])
      ensures panics ==> Model() == old(Model()) && Repr == old(Repr)
      ensures !panics ==> Model() == Rebuilt(old(Model()), uid) && Denotes(conf, Model().cached[uid].conf, All)
      ensures fresh(Repr - old(Repr))
    {
      if commonConf.None? && FilterOut(uidToCustomConf[uid].upstreams.servers) != [] {
        return null, true;
      }
      conf := Rebuild(uid);
      panics := false;
    }

    /** Stores what has just been built for uid. */
    method SetConf(uid: UID, conf: ProxyConf?, ghost h: Option<nat>)
      requires Valid() && uid in uidToCustomConf && Denotes(conf, h, All)
      modifies this`Held, uidToCustomConf[uid]
      ensures Valid()
      ensures Held == old(Held)[uid := old(Held)[uid].(conf := h, update := confUpdate, changed := false)]
    {
      uidToCustomConf[uid].Install(conf, confUpdate);
      Held := Held[uid := Held[uid].(conf := h, update := confUpdate, changed := false)];
    }

    /** Builds a configuration for uid, which must have closed the one it had. */
    method Rebuild(uid: UID) returns (conf: ProxyConf?)
      requires Valid() && uid in uidToCustomConf
      requires FilterOut(uidToCustomConf[uid].upstreams.servers) == [] || commonConf.Some?
      modifies this`All, this`Held, this`Sources, this`Closes, this`Repr, uidToCustomConf[uid]
      ensures Valid() && Model() == Rebuilt(old(Model()), uid)
      ensures Denotes(conf, Model().cached[uid].conf, All)
      ensures fresh(Repr - old(Repr))
      ensures All == if conf != null then old(All) + [conf] else old(All)
    {
      var e := uidToCustomConf[uid];
      conf := NewCustomUpstreamConfig(e.upstreams);
      SetConf(uid, conf, if conf == null then None else Some(|old(All)|));
    }

    /** Closes the configuration of uid, if it has one; the entry itself stays. */
    method CloseEntry(uid: UID)
      requires Valid() && uid in uidToCustomConf
      modifies this`Closes, All
      ensures Valid() && Model() == CloseOf(old(Model()), uid)
    {
      var e := uidToCustomConf[uid];
      if e.proxyConf != null {
        var _ := e.proxyConf.Close();
      }
      Closes := Closed(Closes, Held[uid].conf);
    }

    method Remove(uid: UID) returns (ok: bool)
      requires Valid()
      modifies this, All
      ensures Valid() && Model() == UpstreamSpec.Remove(old(Model()), uid)
      ensures Repr == old(Repr)
    {
      if uid !in uidToCustomConf {
        return false;
      }
      CloseEntry(uid);
      uidToCustomConf := uidToCustomConf - {uid};
      Held := Held - {uid};
      ok := *;
    }

    /** Closes the configuration of every entry, in any order. */
    method Close()
      requires Valid() && Conserved(Model())
      modifies this`Closes, All
      ensures Valid() && Model() == CloseAll(old(Model()))
    {
      var rest := uidToCustomConf.Keys;
      ghost var done := {};
      CloseEverybody(Model());
      while rest != {}
        invariant done !! rest && done + rest == uidToCustomConf.Keys
        invariant Valid() && Model() == CloseSome(old(Model()), done)
        decreases rest
      {
        var uid :| uid in rest;
        CloseOne(old(Model()), done, uid);
        CloseEntry(uid);
        rest := rest - {uid};
        done := done + {uid};
      }
      assert done == old(Model()).cached.Keys;
    }
  }

  /** The configurations of the given clients closed. */
  ghost function CloseSome(m: Manager, done: set<UID>): Manager {
    m.(closes := seq(|m.closes|, h requires 0 <= h < |m.closes| =>
      m.closes[h] + if exists u :: u in done && u in m.cached && m.cached[u].conf == Some(h) then 1 else 0))
  }

  lemma CloseOne(m: Manager, done: set<UID>, uid: UID)
    requires Conserved(m) && uid in m.cached && uid !in done
    ensures var s := CloseSome(m, done);
            CloseSome(m, done + {uid}) == CloseOf(s, uid)
  {
  }

  lemma CloseEverybody(m: Manager)
    ensures CloseSome(m, m.cached.Keys) == CloseAll(m)
    ensures CloseSome(m, {}) == m
  {
  }
}
