/** The DHCP server: its interfaces share one lease index. */
module DHCPServers {
  import opened Common
  import opened Netip
  import opened IPRanges
  import opened LeaseSpec
  import opened LeaseSteps
  import opened LeaseUpdate
  import opened LeaseDb
  import opened NetInterfaces
  import opened LeaseIndexes
  import FreeAddress

  lemma IfaceForIs(ranges: Ranges, ip: Addr, k: nat)
    requires k < |ranges| && InRange(ranges[k], ip) && forall j :: 0 <= j < k ==> !InRange(ranges[j], ip)
    ensures IfaceFor(ranges, ip) == Some(k)
  {
  }

  lemma NoIfaceFor(ranges: Ranges, ip: Addr)
    requires forall j :: 0 <= j < |ranges| ==> !InRange(ranges[j], ip)
    ensures IfaceFor(ranges, ip) == None
  {
  }

  /** The objects of interface number i hold the values. */
  ghost predicate IfaceIs(iface: NetInterface, i: nat, leases: map<Mac, Lease>, offsets: set<nat>)
    reads iface, iface.leasedOffsets
  {
    iface.Valid() && iface.id == i && iface.leases == leases && iface.leasedOffsets.Bits == offsets
  }

  ghost function RangesOf(ifaces: seq<NetInterface>): Ranges {
    seq(|ifaces|, i requires 0 <= i < |ifaces| => ifaces[i].addrSpace)
  }

  ghost function Objects(ifaces: seq<NetInterface>): set<object> {
    (set i | 0 <= i < |ifaces| :: ifaces[i]) + set i | 0 <= i < |ifaces| :: ifaces[i].leasedOffsets
  }

  ghost predicate IfacesAre(ifaces: seq<NetInterface>, leases: seq<map<Mac, Lease>>, offsets: seq<set<nat>>)
    reads Objects(ifaces)
  {
    && |ifaces| == |leases| == |offsets|
    && forall i :: 0 <= i < |ifaces| ==> IfaceIs(ifaces[i], i, leases[i], offsets[i])
  }

  /** Why a request failed; a failed write of the database comes after the change in memory. */
  datatype ServerError = BadLease(reason: LeaseError) | NotStored

  class DHCPServer {
    const interfaces4: seq<NetInterface>
    const interfaces6: seq<NetInterface>
    const leases: LeaseIndex
    // The leases and the leased offsets of every interface as values.
    ghost var Leases: seq<map<Mac, Lease>>
    ghost var Offsets: seq<set<nat>>

    /** All interfaces, those of IPv4 first. */
    ghost function All(): seq<NetInterface> {
      interfaces4 + interfaces6
    }

    ghost function GetRanges(): Ranges {
      RangesOf(All())
    }

    ghost function Model(): State
      reads this, leases
    {
      State(leases.byAddr, leases.byName, Leases, Offsets)
    }

    ghost predicate Valid()
      reads this, leases, Objects(All())
    {
      && leases.Valid() && IfacesAre(All(), Leases, Offsets)
      && (forall i :: 0 <= i < |interfaces4| ==> interfaces4[i].addrSpace.start.V4?)
      && (forall i :: 0 <= i < |interfaces6| ==> !interfaces6[i].addrSpace.start.V4?)
    }

    /** A server whose interfaces, numbered in order, have no leases yet. */
    constructor (interfaces4: seq<NetInterface>, interfaces6: seq<NetInterface>, database: JSONDatabase)
      requires forall i :: 0 <= i < |interfaces4 + interfaces6| ==>
                 IfaceIs((interfaces4 + interfaces6)[i], i, map[], {})
      requires forall i :: 0 <= i < |interfaces4| ==> interfaces4[i].addrSpace.start.V4?
      requires forall i :: 0 <= i < |interfaces6| ==> !interfaces6[i].addrSpace.start.V4?
      ensures Valid() && Model() == EmptyState(|All()|) && leases.database == database && fresh(leases)
      ensures this.interfaces4 == interfaces4 && this.interfaces6 == interfaces6
    {
      this.interfaces4 := interfaces4;
      this.interfaces6 := interfaces6;
      leases := new LeaseIndex(database);
      Leases := seq(|interfaces4 + interfaces6|, _ => map[]);
      Offsets := seq(|interfaces4 + interfaces6|, _ => {});
    }

    /** The first interface of the address's family whose range contains it, by its number among all. */
    method IfaceForAddr(addr: Addr) returns (i: Option<nat>)
      requires Valid()
      ensures i == IfaceFor(GetRanges(), addr)
      ensures i.Some? ==> i.value < |All()|
    {
      var ifaces := if addr.V4? then interfaces4 else interfaces6;
      ghost var base := if addr.V4? then 0 else |interfaces4|;
      for k := 0 to |ifaces|
        invariant forall j :: 0 <= j < k ==> !InRange(ifaces[j].addrSpace, addr)
      {
        if InRange(ifaces[k].addrSpace, addr) {
          assert All()[if addr.V4? then k else |interfaces4| + k] == ifaces[k];
          IfaceForIs(GetRanges(), addr, if addr.V4? then k else |interfaces4| + k);
          return Some(if addr.V4? then k else |interfaces4| + k);
        }
      }
      NoIfaceFor(GetRanges(), addr);
      i := None;
    }

    /** The interface with the given number. */
    function Iface(i: nat): NetInterface
      requires i < |interfaces4| + |interfaces6|
    {
      if i < |interfaces4| then interfaces4[i] else interfaces6[i - |interfaces4|]
    }

    /** Records what an operation on interface i has done to its objects. */
    ghost method Record(i: nat)
      requires i < |All()| == |Leases| == |Offsets|
      requires forall j :: 0 <= j < |All()| && j != i ==> IfaceIs(All()[j], j, Leases[j], Offsets[j])
      requires All()[i].Valid() && All()[i].id == i
      modifies this`Leases, this`Offsets
      ensures IfacesAre(All(), Leases, Offsets)
      ensures Leases == old(Leases)[i := All()[i].leases] && Offsets == old(Offsets)[i := All()[i].leasedOffsets.Bits]
    {
      Leases := Leases[i := All()[i].leases];
      Offsets := Offsets[i := All()[i].leasedOffsets.Bits];
    }

    /** Adds to the index and the interface only. */
    method AddToIndex(l: Lease) returns (err: Option<LeaseError>)
      requires Valid()
      modifies this`Leases, this`Offsets, leases, Objects(All())
      ensures Valid()
      ensures (Model(), err) == LeaseSpec.AddLease(GetRanges(), old(Model()), l)
    {
      var i := IfaceForAddr(l.ip);
      if i.None? {
        return Some(NoInterface);
      }
      var iface := Iface(i.value);
      assert iface == All()[i.value] && IfaceIs(iface, i.value, Leases[i.value], Offsets[i.value]);
      err := leases.Add(l, iface);
      Record(i.value);
      if err.Some? {
        assert Leases == old(Leases) && Offsets == old(Offsets);
      }
    }

    method AddLease(l: Lease) returns (err: Option<ServerError>)
      requires Valid()
      modifies this`Leases, this`Offsets, leases, Objects(All()), leases.database
      ensures Valid() && Model() == Step(GetRanges(), old(Model()), Add(l))
      ensures Model() == LeaseSpec.AddLease(GetRanges(), old(Model()), l).0
      ensures Wrote(err.None?, leases.byAddr, old(leases.database.file), leases.database.file)
      ensures match LeaseSpec.AddLease(GetRanges(), old(Model()), l).1
              case Some(reason) => err == Some(BadLease(reason))
              case None => err.None? || err == Some(NotStored)
    {
      var reason := AddToIndex(l);
      if reason.Some? {
        return Some(BadLease(reason.value));
      }
      var stored := leases.DbStore();
      err := if stored then None else Some(NotStored);
    }

    method RemoveLease(l: Lease) returns (err: Option<ServerError>)
      requires Valid()
      modifies this`Leases, this`Offsets, leases, Objects(All()), leases.database
      ensures Valid() && Model() == Step(GetRanges(), old(Model()), Remove(l))
      ensures Model() == LeaseSteps.RemoveLease(GetRanges(), old(Model()), l).0
      ensures Wrote(err.None?, leases.byAddr, old(leases.database.file), leases.database.file)
      ensures match LeaseSteps.RemoveLease(GetRanges(), old(Model()), l).1
              case Some(reason) => err == Some(BadLease(reason))
              case None => err.None? || err == Some(NotStored)
    {
      var i := IfaceForAddr(l.ip);
      if i.None? {
        return Some(BadLease(NoInterface));
      }
      var iface := Iface(i.value);
      assert iface == All()[i.value] && IfaceIs(iface, i.value, Leases[i.value], Offsets[i.value]);
      var reason, stored := leases.Remove(l, iface);
      Record(i.value);
      if reason.Some? {
        assert Leases == old(Leases) && Offsets == old(Offsets);
        return Some(BadLease(reason.value));
      }
      err := if stored then None else Some(NotStored);
    }

    /** Removes whatever lease has the address. */
    method RemoveLeaseByAddr(addr: Addr) returns (err: Option<ServerError>)
      requires Valid()
      modifies this`Leases, this`Offsets, leases, Objects(All()), leases.database
      ensures Valid() && Model() == Step(GetRanges(), old(Model()), RemoveAddr(addr))
      ensures Model() == RemoveByAddr(GetRanges(), old(Model()), addr).0
      ensures Wrote(err.None?, leases.byAddr, old(leases.database.file), leases.database.file)
      ensures match RemoveByAddr(GetRanges(), old(Model()), addr).1
              case Some(reason) => err == Some(BadLease(reason))
              case None => err.None? || err == Some(NotStored)
    {
      var i := IfaceForAddr(addr);
      if i.None? {
        return Some(BadLease(NoInterface));
      }
      if addr !in leases.byAddr {
        return Some(BadLease(NoLeaseForAddr));
      }
      err := RemoveLease(leases.byAddr[addr]);
    }

    method UpdateStaticLease(l: Lease) returns (err: Option<ServerError>)
      requires Valid()
      modifies this`Leases, this`Offsets, leases, Objects(All()), leases.database
      ensures Valid() && Model() == Step(GetRanges(), old(Model()), Update(l))
      ensures Model() == UpdateLease(GetRanges(), old(Model()), l).0 && Offsets == old(Offsets)
      ensures Wrote(err.None?, leases.byAddr, old(leases.database.file), leases.database.file)
      ensures match UpdateLease(GetRanges(), old(Model()), l).1
              case Some(reason) => err == Some(BadLease(reason))
              case None => err.None? || err == Some(NotStored)
    {
      var i := IfaceForAddr(l.ip);
      if i.None? {
        return Some(BadLease(NoInterface));
      }
      var iface := Iface(i.value);
      assert iface == All()[i.value] && IfaceIs(iface, i.value, Leases[i.value], Offsets[i.value]);
      var reason, stored := leases.Update(l, iface);
      Record(i.value);
      assert Offsets == old(Offsets);
      if reason.Some? {
        assert Leases == old(Leases);
        return Some(BadLease(reason.value));
      }
      err := if stored then None else Some(NotStored);
    }

    /** Forgets the leases of every interface and of the index. */
    method Reset() returns (err: Option<ServerError>)
      requires Valid()
      modifies this`Leases, this`Offsets, leases, Objects(All()), leases.database
      ensures Valid() && Model() == Step(GetRanges(), old(Model()), ResetAll)
      ensures leases.byAddr == map[] && leases.byName == map[]
      ensures |Leases| == |All()| && forall i :: 0 <= i < |Leases| ==> Leases[i] == map[]
      ensures forall i :: 0 <= i < |All()| ==> All()[i].leases == map[]
      ensures Offsets == old(Offsets)
      ensures err.None? || err == Some(NotStored)
      ensures Wrote(err.None?, leases.byAddr, old(leases.database.file), leases.database.file)
    {
      for i := 0 to |interfaces4| + |interfaces6|
        invariant IfacesAre(All(), Leases, Offsets) && Offsets == old(Offsets)
        invariant forall j :: 0 <= j < i ==> Leases[j] == map[]
        invariant leases.database.file == old(leases.database.file)
      {
        assert Iface(i) == All()[i] && IfaceIs(All()[i], i, Leases[i], Offsets[i]);
        Iface(i).Reset();
        Record(i);
        assert Offsets == old(Offsets);
      }
      assert Leases == seq(|old(Leases)|, _ => map[]);
      var stored := leases.Clear();
      assert forall i :: 0 <= i < |All()| ==> IfaceIs(All()[i], i, Leases[i], Offsets[i]);
      err := if stored then None else Some(NotStored);
    }

    lemma LoadNext(ranges: Ranges, was: State, stored: seq<Lease>, k: nat)
      requires Shaped(ranges, was) && k < |stored|
      ensures LoadLeases(ranges, was, stored[..k + 1]) ==
              LeaseSpec.AddLease(ranges, LoadLeases(ranges, was, stored[..k]), stored[k]).0
    {
      assert stored[..k + 1][..k] == stored[..k];
    }

    /** Adds the leases one by one, skipping those that cannot be added. */
    method IndexLeases(stored: seq<Lease>)
      requires Valid()
      modifies this`Leases, this`Offsets, leases, Objects(All())
      ensures Valid()
      ensures Model() == LoadLeases(GetRanges(), old(Model()), stored)
    {
      ghost var was := Model();
      for k := 0 to |stored|
        invariant Valid() && Model() == LoadLeases(GetRanges(), was, stored[..k])
      {
        LoadNext(GetRanges(), was, stored, k);
        var _ := AddToIndex(stored[k]);
      }
      assert stored[..|stored|] == stored;
    }

    /** Loads the database into the index and the interfaces, unless some entry does not parse. */
    method DbLoad() returns (ok: bool)
      requires Valid()
      modifies this`Leases, this`Offsets, leases, Objects(All())
      ensures Valid()
      ensures ok <==> Decoded(leases.database.file).1 == 0
      ensures ok ==> Model() == LoadLeases(GetRanges(), old(Model()), Decoded(leases.database.file).0)
      ensures !ok ==> Model() == old(Model())
    {
      var stored;
      stored, ok := leases.database.Load();
      if ok {
        IndexLeases(stored);
      }
    }

    /**
     * The search for a free address on interface i, in terms of the leases of the whole server: the
     * lowest visited address that nobody holds, or none, or a panic, when all that are visited are
     * held.  An interface with the zero range never has one to give.
     */
    method NextIP(i: nat) returns (f: Found)
      requires Valid() && i < |All()| && ValidRanges(GetRanges()) && Consistent(GetRanges(), Model())
      ensures Accepted(GetRanges()[i]) ==> FreeAddress.SearchEnds(GetRanges(), Model(), i, f)
      ensures GetRanges()[i] == NoRange ==> f == Nothing || f == At(NoAddr)
    {
      var iface := Iface(i);
      assert iface == All()[i] && IfaceIs(iface, i, Leases[i], Offsets[i]);
      assert iface.addrSpace == GetRanges()[i];
      f := iface.NextIP();
      if iface.addrSpace != NoRange {
        ghost var k :| FreeAddress.Lowest(iface.addrSpace, iface.leasedOffsets.Bits, f, k);
        FreeAddress.NextIPFindsLowest(GetRanges(), Model(), i, f, k);
        assert FreeAddress.Ends(GetRanges(), Model(), i, f, k);
      }
    }
  }

  /**
   * New: a server over its interfaces, which have no leases yet, and what the database holds.  Where
   * the file is a store of agreeing structures over the same ranges, they are all back, up to what a
   * stored lease keeps.
   */
  method NewServer(interfaces4: seq<NetInterface>, interfaces6: seq<NetInterface>, database: JSONDatabase)
    returns (srv: DHCPServer, ok: bool)
    requires forall i :: 0 <= i < |interfaces4 + interfaces6| ==> IfaceIs((interfaces4 + interfaces6)[i], i, map[], {})
    requires forall i :: 0 <= i < |interfaces4| ==> interfaces4[i].addrSpace.start.V4?
    requires forall i :: 0 <= i < |interfaces6| ==> !interfaces6[i].addrSpace.start.V4?
    modifies Objects(interfaces4 + interfaces6)
    ensures srv.Valid() && srv.All() == interfaces4 + interfaces6 && srv.leases.database == database
    ensures ok <==> Decoded(database.file).1 == 0
    ensures ok ==> Consistent(srv.GetRanges(), srv.Model())
    ensures forall was: State ::
              Consistent(RangesOf(interfaces4 + interfaces6), was) && Stored(was.byAddr, database.file) ==>
              ok && srv.Model() == KeptState(was)
  {
    srv := new DHCPServer(interfaces4, interfaces6, database);
    ok := srv.DbLoad();
    ghost var ranges := RangesOf(interfaces4 + interfaces6);
    LoadIsConsistent(ranges, Decoded(database.file).0);
    forall was: State | Consistent(ranges, was) && Stored(was.byAddr, database.file)
      ensures ok && srv.Model() == KeptState(was)
    {
      StoreLoadRoundTrip(ranges, was, database.file);
    }
  }
}
