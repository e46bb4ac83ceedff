/** An interface of the DHCP server: its leases by hardware address and its leased offsets. */
module NetInterfaces {
  import opened Common
  import opened Netip
  import opened IPRanges
  import opened LeaseSpec
  import BitSets
  import FreeAddress

  class NetInterface {
    const addrSpace: IPRange
    const leasedOffsets: BitSets.BitSet
    var leases: map<Mac, Lease>
    // The number of the interface among all of the server.
    ghost const id: nat

    ghost predicate Valid()
      reads this, leasedOffsets
    {
      leasedOffsets.Valid() && leasedOffsets.owner == id
    }

    constructor (addrSpace: IPRange, ghost id: nat)
      ensures Valid() && leases == map[] && leasedOffsets.Bits == {}
      ensures this.addrSpace == addrSpace && this.id == id && fresh(leasedOffsets)
    {
      this.addrSpace := addrSpace;
      this.id := id;
      leasedOffsets := new BitSets.BitSet(id);
      leases := map[];
    }

    /** Forgets the leases; the offsets stay leased. */
    method Reset()
      modifies this
      ensures leases == map[]
    {
      leases := map[];
    }

    method AddLease(l: Lease) returns (ok: bool)
      requires Valid()
      modifies this, leasedOffsets
      ensures Valid() && ok == (l.mac !in old(leases))
      ensures leases == if ok then Put(old(leases), l) else old(leases)
      ensures leasedOffsets.Bits == old(leasedOffsets.Bits) + if ok then {OffsetOf(addrSpace, l.ip)} else {}
    {
      if l.mac in leases {
        return false;
      }
      leases := Put(leases, l);
      var (off, _) := Offset(addrSpace, l.ip);
      leasedOffsets.Set(off, true);
      ok := true;
    }

    method UpdateLease(l: Lease) returns (prev: Option<Lease>)
      modifies this
      ensures prev == if l.mac in old(leases) then Some(old(leases)[l.mac]) else None
      ensures leases == if prev.Some? then Put(old(leases), l) else old(leases)
    {
      if l.mac !in leases {
        return None;
      }
      prev := Some(leases[l.mac]);
      leases := Put(leases, l);
    }

    method RemoveLease(l: Lease) returns (ok: bool)
      requires Valid()
      modifies this, leasedOffsets
      ensures Valid() && ok == (l.mac in old(leases))
      ensures leases == if ok then old(leases) - {l.mac} else old(leases)
      ensures leasedOffsets.Bits == old(leasedOffsets.Bits) - if ok then {OffsetOf(addrSpace, l.ip)} else {}
    {
      if l.mac !in leases {
        return false;
      }
      leases := leases - {l.mac};
      var (off, _) := Offset(addrSpace, l.ip);
      leasedOffsets.Set(off, false);
      ok := true;
    }

    /**
     * The first address of the range, in order, whose offset is not leased; the zero range has
     * nothing but the zero address, which stands for none.
     */
    method NextIP() returns (f: Found)
      requires Valid() && (addrSpace == NoRange || Accepted(addrSpace))
      ensures addrSpace == NoRange ==> f == if 0 in leasedOffsets.Bits then Nothing else At(NoAddr)
      ensures Accepted(addrSpace) ==> exists k :: FreeAddress.Lowest(addrSpace, leasedOffsets.Bits, f, k)
    {
      var words := leasedOffsets.words;
      var taken := (n: nat) => BitSets.IsSetIn(words, n);
      var r := addrSpace;
      var p := ip => FreeAddress.Probe(r, taken, ip);
      f := Find(r, p);
      if r != NoRange {
        ghost var k :| WalkEnds(r, p, f, k);
        FreeAddress.WalkIsLowest(r, leasedOffsets.Bits, taken, p, f, k);
      }
    }
  }
}
