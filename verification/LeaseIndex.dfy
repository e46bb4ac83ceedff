/** The global lease index with its database. */
module LeaseIndexes {
  import opened Common
  import opened Netip
  import opened LeaseSpec
  import opened LeaseDb
  import opened NetInterfaces

  /** The database file; a write may fail, and then leaves the old contents. */
  class JSONDatabase {
    var file: seq<JsonLease>

    constructor (file: seq<JsonLease>)
      ensures this.file == file
    {
      this.file := file;
    }

    method Load() returns (leases: seq<Lease>, ok: bool)
      ensures leases == Decoded(file).0 && (ok <==> Decoded(file).1 == 0)
    {
      var bad;
      leases, bad := DecodeLeases(file);
      ok := bad == 0;
    }

    method Store(leases: seq<Lease>) returns (ok: bool)
      modifies this
      ensures ok ==> SortedByName(file) && multiset(file) == multiset(ToJSONs(leases))
      ensures !ok ==> file == old(file)
    {
      var dl := EncodeLeases(leases);
      ok := *;
      if ok {
        file := dl;
      }
    }
  }

  lemma EntriesNext(byAddr: map<Addr, Lease>, done: set<Addr>, a: Addr)
    requires (forall x :: x in byAddr ==> byAddr[x].ip == x) && done <= byAddr.Keys && a in byAddr && a !in done
    ensures var before := set x | x in done :: ToJSONLease(byAddr[x]);
            var after := set x | x in done + {a} :: ToJSONLease(byAddr[x]);
            multiset(after) == multiset(before) + multiset{ToJSONLease(byAddr[a])}
  {
  }

  class LeaseIndex {
    const database: JSONDatabase
    var byAddr: map<Addr, Lease>
    var byName: map<string, Lease>

    ghost predicate Valid()
      reads this
    {
      forall a :: a in byAddr ==> byAddr[a].ip == a
    }

    constructor (database: JSONDatabase)
      ensures Valid() && byAddr == map[] && byName == map[] && this.database == database
    {
      this.database := database;
      byAddr, byName := map[], map[];
    }

    /** Adds l here and to the interface, unless one of its keys is taken; the database is not written. */
    method Add(l: Lease, iface: NetInterface) returns (err: Option<LeaseError>)
      requires Valid() && iface.Valid()
      modifies this, iface, iface.leasedOffsets
      ensures Valid() && iface.Valid()
      ensures err == if l.ip in old(byAddr) then Some(AddrExists)
                     else if Lower(l.hostname) in old(byName) then Some(NameExists)
                     else if l.mac in old(iface.leases) then Some(MACExists) else None
      ensures err.Some? ==> byAddr == old(byAddr) && byName == old(byName) && iface.leases == old(iface.leases) &&
                            iface.leasedOffsets.Bits == old(iface.leasedOffsets.Bits)
      ensures err.None? ==> byAddr == old(byAddr)[l.ip := l] && byName == old(byName)[Lower(l.hostname) := l] &&
                            iface.leases == Put(old(iface.leases), l) &&
                            iface.leasedOffsets.Bits ==
                            old(iface.leasedOffsets.Bits) + {OffsetOf(iface.addrSpace, l.ip)}
    {
      var loweredName := Lower(l.hostname);
      if l.ip in byAddr {
        return Some(AddrExists);
      } else if loweredName in byName {
        return Some(NameExists);
      }
      var ok := iface.AddLease(l);
      if !ok {
        return Some(MACExists);
      }
      byAddr := byAddr[l.ip := l];
      byName := byName[loweredName := l];
      err := None;
    }

    /** Deletes the entries under the keys of l here and in the interface, and writes the database. */
    method Remove(l: Lease, iface: NetInterface) returns (err: Option<LeaseError>, stored: bool)
      requires Valid() && iface.Valid()
      modifies this, iface, iface.leasedOffsets, database
      ensures Valid() && iface.Valid()
      ensures err == if l.ip !in old(byAddr) then Some(NoLeaseForAddr)
                     else if Lower(l.hostname) !in old(byName) then Some(NoLeaseForName)
                     else if l.mac !in old(iface.leases) then Some(NoLeaseForMAC) else None
      ensures err.Some? ==> byAddr == old(byAddr) && byName == old(byName) && iface.leases == old(iface.leases) &&
                            iface.leasedOffsets.Bits == old(iface.leasedOffsets.Bits)
      ensures err.None? ==> byAddr == old(byAddr) - {l.ip} && byName == old(byName) - {Lower(l.hostname)} &&
                            iface.leases == old(iface.leases) - {l.mac} &&
                            iface.leasedOffsets.Bits ==
                            old(iface.leasedOffsets.Bits) - {OffsetOf(iface.addrSpace, l.ip)}
      ensures Wrote(stored, byAddr, old(database.file), database.file) && (stored ==> err.None?)
    {
      var loweredName := Lower(l.hostname);
      stored := false;
      if l.ip !in byAddr {
        return Some(NoLeaseForAddr), false;
      } else if loweredName !in byName {
        return Some(NoLeaseForName), false;
      }
      var ok := iface.RemoveLease(l);
      if !ok {
        return Some(NoLeaseForMAC), false;
      }
      byAddr := byAddr - {l.ip};
      byName := byName - {loweredName};
      stored := DbStore();
      err := None;
    }

    /** Puts l in place of the lease of its hardware address, and writes the database. */
    method Update(l: Lease, iface: NetInterface) returns (err: Option<LeaseError>, stored: bool)
      requires Valid() && iface.Valid()
      modifies this, iface, database
      ensures Valid() && iface.Valid()
      ensures err == if l.ip in old(byAddr) && old(byAddr)[l.ip].mac != l.mac then Some(AddrExists)
                     else if Lower(l.hostname) in old(byName) && old(byName)[Lower(l.hostname)].mac != l.mac then
                       Some(NameExists)
                     else if l.mac !in old(iface.leases) then Some(NoLeaseForMAC) else None
      ensures err.Some? ==> byAddr == old(byAddr) && byName == old(byName) && iface.leases == old(iface.leases)
      ensures err.None? ==>
        var prev := old(iface.leases)[l.mac];
        byAddr == (old(byAddr) - {prev.ip})[l.ip := l] &&
        byName == (old(byName) - {Lower(prev.hostname)})[Lower(l.hostname) := l] &&
        iface.leases == Put(old(iface.leases), l)
      ensures Wrote(stored, byAddr, old(database.file), database.file) && (stored ==> err.None?)
    {
      var loweredName := Lower(l.hostname);
      stored := false;
      if l.ip in byAddr && byAddr[l.ip].mac != l.mac {
        return Some(AddrExists), false;
      }
      if loweredName in byName && byName[loweredName].mac != l.mac {
        return Some(NameExists), false;
      }
      var prev := iface.UpdateLease(l);
      if prev.None? {
        return Some(NoLeaseForMAC), false;
      }
      byAddr := byAddr - {prev.value.ip};
      byName := byName - {Lower(prev.value.hostname)};
      byAddr := byAddr[l.ip := l];
      byName := byName[loweredName := l];
      stored := DbStore();
      err := None;
    }

    /** Forgets all leases and writes the database; the interfaces are not touched. */
    method Clear() returns (stored: bool)
      modifies this, database
      ensures Valid() && byAddr == map[] && byName == map[]
      ensures Wrote(stored, byAddr, old(database.file), database.file)
    {
      byAddr, byName := map[], map[];
      stored := DbStore();
    }

    /** The leases in whatever order the map gives them. */
    method ListLeases() returns (leases: seq<Lease>)
      requires Valid()
      ensures multiset(ToJSONs(leases)) == multiset(Entries(byAddr))
    {
      leases := [];
      var rest := byAddr.Keys;
      ghost var done := {};
      while rest != {}
        invariant done !! rest && done + rest == byAddr.Keys
        invariant multiset(ToJSONs(leases)) == multiset(set a | a in done :: ToJSONLease(byAddr[a]))
        decreases rest
      {
        var a :| a in rest;
        EntriesNext(byAddr, done, a);
        assert ToJSONs(leases + [byAddr[a]]) == ToJSONs(leases) + [ToJSONLease(byAddr[a])];
        leases := leases + [byAddr[a]];
        rest, done := rest - {a}, done + {a};
      }
      assert done == byAddr.Keys;
      assert (set a | a in done :: ToJSONLease(byAddr[a])) == Entries(byAddr);
    }

    method DbStore() returns (ok: bool)
      requires Valid()
      modifies database
      ensures Wrote(ok, byAddr, old(database.file), database.file)
    {
      var leases := ListLeases();
      ok := database.Store(leases);
    }
  }
}
