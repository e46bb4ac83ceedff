# AdGuard Home: clients, DHCP leases and sessions

A Dafny model of three stateful parts of AdGuard Home, each of which keeps several structures that
have to agree with each other, and proofs that they do.

**The client store** (`Storage.dfy` and the files it imports). Five identifier maps, one of them a
map with a sorted key slice, describe one set of persistent clients. A client is found by exact
identifier or by longest prefix. A second map caches the upstream configuration built for each client;
it is invalidated lazily, by a flag and a time stamp, and every configuration built must be closed
once. A third index merges what five sources say about runtime clients. `Clients.dfy`,
`UpstreamSpec.dfy`, `StoreSpec.dfy` and `RuntimeSpec.dfy` hold the specifications: a linear search,
a cache with handles for configurations, and the store as a state machine with its runs.
`SortedMap.dfy`, `ClientIndex.dfy`, `UpstreamManager.dfy`, `RuntimeIndex.dfy` and `Storage.dfy` hold
the classes, whose methods refine those steps.

**The DHCP lease core** (`DHCPServer.dfy` and the files it imports). Leases are kept by address, by
lower-cased name and, for each interface, by hardware address, and each interface has a sparse bit
set of leased offsets into its address range. `LeaseSpec.dfy`, `LeaseSteps.dfy` and
`LeaseUpdate.dfy` say for each operation exactly when the four structures go on to agree,
`LeaseWitnesses.dfy` has states on which they do not,
`FreeAddress.dfy` what the search for a free address finds, `LeaseDb.dfy` what a stored file gives
back, and `LeaseHistory.dfy` what a restart gives back after a run in which writes may fail. `BitSet.dfy`, `IPRange.dfy`, `NetInterface.dfy`, `LeaseIndex.dfy` and `DHCPServer.dfy`
hold the structures themselves. `IANAOptions.dfy` is the codec of the IA_NA option (sections 21.4 and
21.6 of RFC 9915), and `Options4.dfy` the resolution of DHCPv4 options (section 4.3.1 of RFC 2131).

**The session store** (`SessionStorage.dfy` over `Sessions.dfy` and `BigEndian.dfy`). Web sessions
are a map in memory written through to a bucket of a transactional database, with a binary record and
a restart that loads what is still valid. `SessionInterleavings.dfy` takes the issue of a session apart
into its two writes, with other calls in between.

Each mutex makes a method one atomic step; the one method that writes outside of its mutex is taken
apart. Clocks, random tokens, the DHCP server and ARP database as
the client store sees them, the user database, and the outcome of every write and transaction are
parameters or arbitrary choices. A `ghost` field of a class is its state as a value; `Model()`,
`Persisted()` or `RuntimeState()` collects it, and `Valid()` ties it to the real fields.

Some laws that the design or its documentation suggests do not hold of the code as it is. For each of
them there is an exact condition, and an input on which it fails:

- Two changes of the common upstream settings at one clock reading, with a query between them, leave
  a stale configuration in use (`UpstreamSpec.NeverStaleIff`; `StoreSpec.StaleAtEqualReadings`).
- A query for a client with upstreams panics until the common settings have been given once
  (`StoreSpec.QueryPanicsIff`; `StoreSpec.PanicsWithoutSettings`).
- Offsets into an IPv6 range ignore the zone of an address, so two leases can share one bit, and
  removing either clears it (`IPRanges.SameOffsetIff`, `LeaseSteps.RemoveByAddrKeepsIff`;
  `IPRanges.ZonesShareOffset`, `LeaseWitnesses.RemovalOfTwin`).
- `RemoveLease` is documented to fail unless some lease equals the given one
  (`internal/dhcpsvc/dhcpsvc.go:70-72`), but it looks only for the three keys
  (`LeaseSteps.RemovedAsDocumentedIff`; `LeaseWitnesses.RemovalOfUnequal`). They may even belong to
  different leases, and then the structures part (`LeaseSteps.RemoveKeepsIff`;
  `LeaseWitnesses.RemovalByMixedKeys`).
- `Reset` leaves the leased offsets as they are (`LeaseSteps.ResetKeepsIff`;
  `LeaseWitnesses.ResetLeavesOffset`).
- `UpdateStaticLease` does not move the leased offset (`LeaseUpdate.UpdateKeepsIff`;
  `LeaseWitnesses.UpdateThatMoves`). It is documented to fail if a value matches another lease
  (`internal/dhcpsvc/dhcpsvc.go:65-68`), but it takes the name of a lease with the same hardware address
  on another interface (`LeaseUpdate.AcceptsAsDocumentedIff`; `LeaseWitnesses.UpdateThatTakesName`).
- The search for a free address panics when it finds none in a range that ends at the last address of
  its family (`FreeAddress.NextIPFindsLowest`; `LeaseWitnesses.FullLastRangePanics`), and it never
  visits the last address of an IPv6 range whose start has a zone, since the end has none
  (`FreeAddress.VisitsAllIff`; `LeaseWitnesses.ZonedStartMissesLast`).
- The IA_NA encoder announces 24 bytes for every nested address, which only an IPv6 address without a
  zone takes (`IANAOptions.RoundTripIff`; `IANAOptions.NestedV4Overruns`).
- The session record cuts the expiry to 32 bits of seconds and the length of the login to 16
  (`Sessions.RecordIsExactIff`; `Sessions.RecordLimits`), so that a restart can lengthen a session
  that ended before the epoch (`Sessions.StoredNeverLaterIff`; `Sessions.BeforeEpochRevives`).
- A session that has expired can authenticate again, after a restart brings it back or when its
  deletion fails and the clock goes back (`Sessions.NeverIff`, `Sessions.LookupEndsIff`;
  `Sessions.BeforeEpochRevives`, `Sessions.FailedDeletionKeeps`).
- A session is written to the bucket before the mutex is taken to put it into the map, so a deletion
  in between leaves it in the map only (`SessionInterleavings.PartKeepsIff`;
  `SessionInterleavings.DeletedWhileIssued`).

`dafny verify dfyconfig.toml` checks the whole project.

## Model

| member | source | states |
|---|---|---|
| `StoreSpec.QueryAnswerIsCurrent` | internal/client/storage.go:730-756 | After any run of Add, Update, RemoveByName, common-settings changes and queries, panicking ones included, in which no settings change reads the time at which an unchanged entry with upstreams was built, the handle that a query gets if it does not panic is open, is held by no other client, and was built from the present upstream fields of the client that the lookup selects and the present common settings; it gets none exactly when there is nothing to build |
| `StoreSpec.QueryBuiltFrom` | internal/client/upstreammanager.go:209-241 | After such a run, field by field: what a query gets is built from exactly the lines of the selected client that are neither empty nor begin with #, in their order and as often, from its cache size and switch, and from the common settings in force; it gets nothing exactly if there is no client or no such line |
| `StoreSpec.CommonIsLastSet` | internal/client/upstreammanager.go:95-98 | The common settings in force are those of the last change in the run |
| `StoreSpec.ServedAgain` | internal/client/upstreammanager.go:134-136 | As long as neither the client nor the common settings change, whatever else the run does, the queries of the client get the handle they got before, and build and close nothing |
| `UpstreamSpec.RefreshTwice` | internal/client/upstreammanager.go:134-156 | A second query right after the first gets the same handle and changes nothing |
| `UpstreamSpec.FilterSelects` | internal/aghnet/upstream.go:22-24 | By position: the filter keeps exactly the lines that are neither empty nor begin with #, in rising order |
| `UpstreamSpec.WantedIsBuiltFrom` | internal/client/upstreammanager.go:209-241 | What is wanted for a client exists exactly if there are settings and a line that counts, and then has the lines that count, the cache fields and the settings |
| `UpstreamManagers.UpstreamManager.SourceOf` | internal/client/upstreammanager.go:214-239 | The configuration built has the lines that count in order, the cache fields of the client and the common settings |
| `StoreSpec.StepClients` | internal/client/storage.go:410-666 | What each operation leaves of the stored clients, in fields: an accepted addition stores the client with sorted tags, an accepted update replaces the one of that name under its UID, a removal takes just the one of that name, and nothing else touches them |
| `StoreSpec.UpdateOwners` | internal/client/storage.go:660-661 | After an accepted update every identifier of the new client belongs to the old UID, those that only the old one had to nobody, and all others to whom they did |
| `StoreSpec.AddOwners` | internal/client/storage.go:434 | After an accepted addition every identifier of the client belongs to it and all others to whom they did |
| `StoreSpec.RemoveOwners` | internal/client/storage.go:620 | After a removal the identifiers of the client belong to nobody and all others to whom they did |
| `StoreSpec.ValidateIff` | internal/client/persistent.go:136-169 | Which clients are valid, in fields, and which complaint is made about the others |
| `StoreSpec.BadTagIff` | internal/client/persistent.go:158-163 | The tags pass exactly if all are allowed; otherwise the first that is not is named |
| `StoreSpec.ForwardClockNeverClashes` | internal/client/upstreammanager.go:95-98 | A clock that moves forward at every settings change is enough for that, whatever else the run does |
| `StoreSpec.PanicsWithoutSettings` | internal/client/upstreammanager.go:209-227 | A concrete run: one client with upstreams is added, and the first query for it panics |
| `StoreSpec.QueryPanicsIff` | internal/client/upstreammanager.go:209-227 | After any run a query panics, for want of common settings, if and only if no step has ever given them and the client that the query selects has upstreams |
| `StoreSpec.NothingBuiltBeforeSettings` | internal/client/upstreammanager.go:122-156 | The common settings are there exactly once a step has given them, and before that no configuration is ever built |
| `StoreSpec.StaleAtEqualReadings` | internal/client/upstreammanager.go:95-162 | A concrete four-step run in which two settings changes at one clock reading leave a query with a configuration built from the superseded settings |
| `StoreSpec.RunKeepsInv` | internal/client/storage.go:410-446 | In every reachable state no two clients share an identifier, the clients with a cache entry are exactly the stored clients, each entry has its client's fields, and every configuration ever built is accounted for |
| `StoreSpec.StepKeepsInv` | internal/client/storage.go:611-666 | One step of the store, successful, refused or panicking, keeps all parts of that invariant together |
| `StoreSpec.RunKeepsFresh` | internal/client/upstreammanager.go:95-162 | Along a run whose settings changes meet no stamp of an unchanged build, readings that go back included, no entry that would be served without a rebuild is out of date |
| `StoreSpec.StepKeepsFresh` | internal/client/upstreammanager.go:95-119 | A step makes no served entry stale, if a settings change, where it is one, reads a time at which no unchanged entry with upstreams was built |
| `StoreSpec.ShutdownClosesEverythingOnce` | internal/client/storage.go:216-220 | After any run the shutdown leaves every configuration ever built closed exactly once: no leak and no double close |
| `UpstreamSpec.NeverStaleIff` | internal/client/upstreammanager.go:160-162 | Whatever the new common settings are, none of the served entries is stale after the change if and only if the new clock reading is not the one at which some unchanged entry with upstreams was built |
| `UpstreamSpec.PanicChangesNothing` | internal/client/upstreammanager.go:138-153 | A build that panics for want of the common settings has closed nothing, since nothing is ever built before they are given |
| `UpstreamSpec.AnswerIsCurrent` | internal/client/upstreammanager.go:122-156 | The configuration handed out is open, belongs to that client only, and is what its fields and the common settings ask for |
| `UpstreamSpec.RefreshConserves` | internal/client/upstreammanager.go:138-153 | A rebuild closes the old configuration once and grants one new handle, and every other configuration keeps its owner or its single close |
| `UpstreamSpec.UpdateCustomKeeps` | internal/client/upstreammanager.go:104-119 | Copying a client's fields into its entry, new or old, loses no handle, shares none, and cannot make the cache serve a stale entry |
| `UpstreamSpec.UpdateCommonKeeps` | internal/client/upstreammanager.go:95-98 | A change of the common settings leaves every handle with its owner, unclosed |
| `UpstreamSpec.RemoveKeeps` | internal/client/upstreammanager.go:176-190 | Removing a client closes its configuration once and leaves the others owned, open and current |
| `UpstreamSpec.RefreshKeeps` | internal/client/upstreammanager.go:122-156 | A query, panicking or not, keeps conservation, freshness, and that an unchanged entry has a configuration exactly when it has upstreams |
| `UpstreamSpec.TickKeepsFresh` | internal/client/upstreammanager.go:95-98 | A settings change at a later reading meets no stamp and puts every entry out of date, so none can be served stale |
| `UpstreamSpec.CloseAllClosesOnce` | internal/client/upstreammanager.go:193-204 | From a conserved state the terminal close brings every configuration to exactly one close |
| `UpstreamManagers.UpstreamManager.CustomUpstreamConfig` | internal/client/upstreammanager.go:122-156 | The entry objects and the configuration objects end up as the specification of a refresh says, and the object returned is the one behind the handle it answers with; it panics exactly where the specification does |
| `UpstreamManagers.UpstreamManager.UpdateCustomUpstreamConfig` | internal/client/upstreammanager.go:104-119 | The client's entry object, created if need be, gets its fields and is marked for a rebuild; no other entry changes |
| `UpstreamManagers.UpstreamManager.UpdateCommonUpstreamConfig` | internal/client/upstreammanager.go:95-98 | Only the common settings and their time stamp change |
| `UpstreamManagers.UpstreamManager.TryRebuild` | internal/client/upstreammanager.go:146-155 | Either the entry is rebuilt as the specification says, or the common settings are missing and nothing changes |
| `UpstreamManagers.UpstreamManager.NewCustomUpstreamConfig` | internal/client/upstreammanager.go:209-241 | Null exactly when no upstream but comments and empty lines is given; otherwise one new open configuration |
| `UpstreamManagers.UpstreamManager.Remove` | internal/client/upstreammanager.go:176-190 | The entry is gone and its configuration, if any, closed once more; everything else is as before |
| `UpstreamManagers.UpstreamManager.Close` | internal/client/upstreammanager.go:193-204 | In whatever order the map is walked, each live configuration object is closed once and no other is touched |
| `Storages.Storage.CheckAdd` | internal/client/storage.go:413-432 | Accepts exactly the clients that can be added, and otherwise names the first complaint: the client itself, its UID, or a real clash of the first kind there is |
| `Storages.Storage.CheckUpdate` | internal/client/storage.go:635-658 | Accepts exactly the updates that can be made, with the client stored under the name, and otherwise names the first complaint; says what the caller's object holds afterwards |
| `Storages.Storage.Add` | internal/client/storage.go:410-446 | Succeeds exactly when the client is valid, its UID is new and it shares no identifier with a stored client; otherwise the error is the first of these complaints, and every map of the index and the cache is unchanged; the tags of a valid client are sorted in any case |
| `Storages.Storage.Update` | internal/client/storage.go:632-666 | Succeeds exactly when the client is valid, the name is stored and no third client shares an identifier, and keeps the stored UID; otherwise the error is the first complaint, with a clash of the first kind there is, and nothing changes but the caller's object, which takes the stored UID even then |
| `Storages.Storage.RemoveByName` | internal/client/storage.go:611-628 | Removes just the stored client of that name from the index and the cache, and answers whether there was one; otherwise nothing changes |
| `Storages.Storage.Find` | internal/client/storage.go:529-560 | The loop that clears one flag a round ends, and gives the first client that a linear search by ClientID, address (then leased MAC), subnet and MAC finds |
| `Clients.FindSelects` | internal/client/storage.go:529-560 | In terms of what the clients list: the search finds a client exactly if a given parameter does and none that is preferred to it, in the order ClientID, address, subnet, MAC, finds anybody |
| `Clients.QuerySelects` | internal/client/storage.go:737-745 | A query belongs to the client that lists its ClientID, and only if none does to the one found by address |
| `Clients.LookupLeasedIff` | internal/client/storage.go:564-576 | The leased MAC counts only if the address finds nobody |
| `Storages.FirstFoundAt` | internal/client/storage.go:538-559 | The answer of such a search is the candidate before which all candidates are empty, or none if all are |
| `Storages.Storage.FindByIP` | internal/client/storage.go:564-576 | The longest-prefix owner of the address, else the owner of the MAC that the DHCP server has leased it to |
| `Storages.Storage.CustomUpstreamConfig` | internal/client/storage.go:730-747 | The store takes the query step from every valid state, panics exactly where that step does, and otherwise returns the object behind the handle of the step |
| `Storages.Storage.UpdateCommonUpstreamConfig` | internal/client/storage.go:751-756 | The store takes the settings step and stays valid, at any clock reading |
| `Storages.Storage.Shutdown` | internal/client/storage.go:216-220 | Afterwards each configuration object ever built has been closed exactly once |
| `Storages.Storage.ReloadARP` | internal/client/storage.go:248-281 | A failed refresh drops the database for good, an empty one changes nothing, any other reloads the ARP source exactly |
| `Storages.Storage.AddFromHostsFile` | internal/client/storage.go:308-334 | Reloads the hosts-file source exactly, also from an empty file |
| `Storages.Storage.UpdateDHCP` | internal/client/storage.go:359-383 | Reloads the DHCP source exactly if that source is switched on |
| `Storages.Storage.SetWHOISInfo` | internal/client/storage.go:386-407 | Stores whois information exactly if no persistent client is found for the address |
| `StoreSpec.TidyHas` | internal/client/persistent.go:165-166 | Sorting the tags of a client changes none of its identifiers |
| `Common.SortStringsSorts` | internal/client/persistent.go:165-166 | The tags come out sorted, each as often as before |
| `Storages.Storage.UpdateAddress` | internal/client/storage.go:340-356 | Stores the reverse-DNS name, and the whois information unless the address belongs to a persistent client |
| `Storages.Storage.ClientRuntime` | internal/client/storage.go:687-712 | Asks the DHCP server only if the hosts file says nothing, and returns what is stored afterwards |
| `Clients.ConsistentIff` | internal/client/index.go:33-51 | Consistent clients are those, stored under their own non-empty UIDs, of which no two share a name, a ClientID, an address, a subnet or a MAC |
| `Clients.ClashingIff` | internal/client/index.go:107-137 | A client clashes exactly if another stored one shares one of these with it |
| `Clients.PutOwners` | internal/client/index.go:67-92 | Whom every identifier belongs to once a client is put in, new or in place of its old self |
| `Clients.DropOwners` | internal/client/index.go:331-352 | Whom every identifier belongs to once a client is gone |
| `ClientIndex.LookupFinds` | internal/client/index.go:253-276 | In terms of what the clients list: the lister of the address, else one of a containing subnet that is longest and of the lowest address among those as long; nobody exactly if no subnet contains the address |
| `ClientIndex.ReportOrder` | internal/client/index.go:107-137 | Clashes of names are reported before those of ClientIDs, addresses, subnets and MACs, in this order |
| `ClientIndex.ClientsDetermineMaps` | internal/client/index.go:33-51 | Two indexes that agree with the same clients are equal in every map: no history of additions and removals can leave or lose an entry |
| `ClientIndex.AgreeIsConsistent` | internal/client/index.go:33-51 | When the maps agree with the clients no identifier is shared, and what the maps say of any identifier is what a linear search of the clients finds |
| `ClientIndex.AddKeepsAgreement` | internal/client/index.go:67-92 | Writing all identifiers of a client that clashes with nobody keeps the maps and the clients in agreement |
| `ClientIndex.RemoveKeepsAgreement` | internal/client/index.go:331-352 | Deleting all identifiers of a stored client keeps them in agreement |
| `ClientIndex.FirstCoveringIsLookup` | internal/client/index.go:259-275 | The first containing prefix in subnet order gives the same client as the specification of longest-prefix match |
| `ClientIndex.Index.Add` | internal/client/index.go:67-92 | All six structures describe the old clients and the new one, and no identifier but the new client's changes hands |
| `ClientIndex.Index.Remove` | internal/client/index.go:331-352 | All six structures describe the remaining clients, and no identifier but the removed client's is given up |
| `ClientIndex.Index.FindByIP` | internal/client/index.go:253-276 | Refines longest-prefix match over the set of clients, stated also in terms of the addresses and subnets that they list |
| `ClientIndex.Index.FindByCIDR` | internal/client/index.go:281-296 | Finds the owner of exactly that prefix by a walk over the ordered prefixes |
| `ClientIndex.Index.FindByClientID` | internal/client/index.go:233-240 | Finds the only client that lists the ClientID, and none exactly when no client does |
| `ClientIndex.Index.FindByName` | internal/client/index.go:243-250 | Finds the only client of that name, and none exactly when there is none |
| `ClientIndex.Index.FindByMAC` | internal/client/index.go:299-307 | Finds the only client that lists the MAC, and none exactly when no client does |
| `ClientIndex.Index.Clashes` | internal/client/index.go:107-137 | No clash is reported exactly when no other stored client shares an identifier; a reported one is real and of the first kind, in the order name, ClientID, IP, subnet, MAC, that has one |
| `ClientIndex.Index.ClashesName` | internal/client/index.go:141-152 | Reports a real clash of names with another client, or nothing only if there is none |
| `ClientIndex.Index.ClashesClientID` | internal/client/index.go:112-119 | Reports a real clash of ClientIDs with another client, or nothing only if there is none |
| `ClientIndex.Index.ClashesIP` | internal/client/index.go:156-165 | Reports a real clash of addresses with another client, or nothing only if there is none |
| `ClientIndex.Index.ClashesSubnet` | internal/client/index.go:169-191 | Reports a real clash of subnets with another client, or nothing only if there is none |
| `ClientIndex.Index.ClashesMAC` | internal/client/index.go:195-205 | Reports a real clash of MACs with another client, or nothing only if there is none |
| `Clients.LookupIsLongestPrefix` | internal/client/index.go:253-276 | The owner of the exact address if there is one; else a client listing a containing prefix that is at least as long as, and inside, every containing prefix of any client; none exactly when neither exists |
| `Clients.BestIsUnique` | internal/client/persistent.go:196-212 | At most one stored prefix can be the best for an address |
| `Clients.BestExists` | internal/client/index.go:259-269 | If any stored prefix contains the address, one of them is the best |
| `Clients.BestIsMostSpecific` | internal/client/index.go:259-269 | The best prefix in subnet order is a longest one, and every other containing prefix contains all of it |
| `Netip.ContainsIff` | internal/client/index.go:262 | A prefix contains exactly the addresses of its family, without a zone, that lie in one block with its own address, where blocks of one size cut the family into 2^bits parts; a prefix of impossible length contains none |
| `Netip.EndsOf24` | internal/client/index.go:262 | 10.0.1.0/24 contains both its ends and neither of their outer neighbours |
| `Netip.Pow2Values` | internal/client/index.go:262 | The powers of two behind prefix lengths 0, 8, 16, 24, 32 and 128 |
| `Netip.SubnetOrderIff` | internal/client/persistent.go:196-212 | Longer prefixes come first, and those of one length in the order of their addresses |
| `Netip.LessIff` | internal/client/persistent.go:204 | IPv4 comes before IPv6, within a family the number decides, and then the zone |
| `Common.CompareStringsIsLexicographic` | internal/dhcpsvc/jsondatabase.go:62-64 | One string comes before another exactly if it has the smaller character at their first difference or ends there |
| `Netip.SubnetCompareIsOrder` | internal/client/persistent.go:196-212 | The hand-written comparator is a strict total order, transitive, and zero exactly on equal prefixes |
| `Netip.LongerIsInside` | internal/client/index.go:262-266 | Of two prefixes that contain one address the longer contains only addresses of the shorter |
| `SortedMaps.SortedMap.Set` | internal/aghalg/sortedmap.go:31-40 | The map gains the entry, and the key slice stays strictly sorted, without duplicates, and equal to the key set |
| `SortedMaps.SortedMap.Del` | internal/aghalg/sortedmap.go:56-68 | The map loses the key, absent or not, and the key slice still lists the keys in order |
| `SortedMaps.SortedMap.Clear` | internal/aghalg/sortedmap.go:71-78 | Keys and values are emptied together |
| `SortedMaps.SortedMap.Search` | internal/aghalg/sortedmap.go:34-39 | For any strict total order the binary search finds a key exactly when the map has it, and otherwise the only place that keeps the order |
| `SortedMaps.SortedMap.Range` | internal/aghalg/sortedmap.go:82-92 | Visits the entries one by one in key order up to the first refusal, each once |
| `SortedMaps.SortedMap.First` | internal/client/index.go:259-269 | The least wanted entry of the map in key order, found by stopping the walk; none only if no entry is wanted |
| `SortedMaps.LastWriteDecides` | internal/aghalg/sortedmap.go:31-78 | After any sequence of Set, Del and Clear a key has a value exactly if the last of them that concerns it set that value |
| `SortedMaps.SortedMap.Get` | internal/aghalg/sortedmap.go:43-53 | Finds the value of the key, or that there is none |
| `SortedMaps.ListingIsUnique` | internal/aghalg/sortedmap.go:31-92 | The key slice depends on the set of keys alone: every history with the same keys leaves the same slice |
| `RuntimeSpec.ReloadIsExact` | internal/client/storage.go:248-281 | After a reload the source says of an address what its last entry says, or nothing; every other source is untouched; the address is stored exactly if some source has information |
| `RuntimeSpec.StepInfo` | internal/client/storage.go:248-407 | What every event leaves of what is known about an address, field by field, which pins which source each one reloads or sets, and when the ARP database is dropped |
| `RuntimeSpec.LastNameIs` | internal/client/storage.go:269-271 | The name that counts for an address is that of the last entry about it |
| `RuntimeSpec.UnsetClears` | internal/client/client.go:178-191 | Unsetting a source clears what it says and nothing else |
| `RuntimeSpec.HostsAre` | internal/client/client.go:149-165 | Each source has its own field |
| `RuntimeSpec.NeverStoresEmpty` | internal/client/runtimeindex.go:63-72 | No run of reloads, address updates and lookups ever stores a client without information |
| `RuntimeSpec.ShownHasPriority` | internal/client/client.go:124-146 | What is shown is the source of highest priority that has information, in the order WHOIS, ARP, rDNS, DHCP, hosts file, with its first host; nothing is shown only for an empty client |
| `RuntimeSpec.SetAllAt` | internal/client/storage.go:266-271 | Of several entries for one address the last one wins, and addresses not listed keep what they had |
| `RuntimeIndexes.RuntimeIndex.Reload` | internal/client/runtimeindex.go:42-72 | Clearing, setting and removing on shared objects amounts to the reload of the specification |
| `RuntimeIndexes.RuntimeIndex.ClearSource` | internal/client/runtimeindex.go:55-59 | The source is unset in every client object, whatever the order of the walk |
| `RuntimeIndexes.RuntimeIndex.RemoveEmpty` | internal/client/runtimeindex.go:63-72 | Exactly the empty clients go, although the map is deleted from while it is walked, and the count is how many went |
| `RuntimeIndexes.RuntimeIndex.SetInfo` | internal/client/runtimeindex.go:42-53 | Only the object of that address changes, a new one if there was none |
| `RuntimeIndexes.RuntimeIndex.SetWHOIS` | internal/client/storage.go:398-404 | Only the whois information of that address changes |
| `RuntimeIndexes.Runtime.SetInfo` | internal/client/client.go:149-165 | Only the named source changes; a single empty name is kept as present but empty |
| `RuntimeIndexes.Runtime.Unset` | internal/client/client.go:178-191 | Only the named source is cleared |
| `BitSets.BitAfterSet` | internal/dhcpsvc/bitset.go:33-49 | Setting or clearing a bit decides that bit and disturbs no other, in the same 64-bit word or in another |
| `BitSets.LastCallDecides` | internal/dhcpsvc/bitset.go:18-49 | After any run of set calls a bit is set exactly when the last call about it set it |
| `BitSets.WordSet` | internal/dhcpsvc/bitset.go:41-46 | In one word the shifted mask touches its own bit only, for all 64 by 64 pairs of bits |
| `BitSets.BitSet.Set` | internal/dhcpsvc/bitset.go:33-49 | The set of numbers gains or loses just that number |
| `BitSets.BitSet.IsSet` | internal/dhcpsvc/bitset.go:18-30 | Answers membership in the set of numbers |
| `IPRanges.AcceptedIff` | internal/dhcpsvc/iprange.go:30-53 | Which ranges are accepted, in numbers: of one family, the start before the end, fewer than 2^32 steps apart |
| `IPRanges.InRangeIff` | internal/dhcpsvc/iprange.go:56-60 | Which addresses an accepted range contains, in numbers and zones |
| `IPRanges.OffsetIsDifference` | internal/dhcpsvc/iprange.go:80-91 | In every range that is accepted the wrapping difference of the low 64-bit halves is the true 128-bit difference and below 2^32 |
| `IPRanges.SameOffsetIff` | internal/dhcpsvc/iprange.go:80-91 | Two addresses of a range have one offset if and only if they differ in nothing but the zone |
| `IPRanges.ZonesShareOffset` | internal/dhcpsvc/iprange.go:56-60 | Two different addresses of one accepted range that share an offset |
| `IPRanges.VisitedInRange` | internal/dhcpsvc/iprange.go:68-76 | The walk visits addresses of the range with offsets 0, 1, 2 and so on, and stops past the end, or runs off the address family only if the range ends at its last address |
| `IPRanges.Find` | internal/dhcpsvc/iprange.go:68-76 | The first accepted address of any range, the zero range included, having refused all before it; or none after refusing all it visits; or, where that is the last address of the family and the zero address is refused too, the walk is off the end |
| `LeaseSpec.AddsIff` | internal/dhcpsvc/leaseindex.go:77-95 | A lease is added exactly when an interface is responsible for it and no held lease has its address, its lower-cased name or, on that interface, its MAC; a refusal changes nothing |
| `LeaseSpec.AddErrorIs` | internal/dhcpsvc/leaseindex.go:77-95 | Which error an addition gives, in terms of the leases held: the first of no interface, address, name and MAC |
| `LeaseSpec.LowerIff` | internal/dhcpsvc/leaseindex.go:78 | Two ASCII names count as one exactly if they differ in nothing but the case of letters |
| `LeaseSpec.EarlierWins` | internal/dhcpsvc/leaseindex.go:191-223 | Of the leases in a loaded list that collide the first wins: one that is not held collides with a held one that stands before it |
| `LeaseSpec.AddKeeps` | internal/dhcpsvc/leaseindex.go:77-95 | Addition keeps address map, name map, interface leases and leased offsets in exact agreement, and adds that lease only, however names are folded to lower case outside of ASCII |
| `LeaseSpec.LoadIsConsistent` | internal/dhcpsvc/leaseindex.go:191-223 | Any list, with duplicates and foreign addresses, loads into agreeing structures that hold only leases of the list; one is left out only for want of an interface or because of a conflict |
| `LeaseSteps.RemoveKeepsIff` | internal/dhcpsvc/leaseindex.go:100-124 | An accepted removal keeps the structures in agreement if and only if the three keys given name one lease and no other lease of the interface has the address in another zone |
| `LeaseSteps.RemoveErrorIs` | internal/dhcpsvc/leaseindex.go:100-112 | Which error a removal gives, in terms of the leases held: the first of no interface, address, name and MAC |
| `LeaseSteps.RemovedAsDocumentedIff` | internal/dhcpsvc/dhcpsvc.go:70-72 | For every lease given, the removal does what is documented, that is, a held lease and only it goes and any other gives an error and no change, if and only if the lease is held and no other zone of its address is, or it is not held and one of its keys is free |
| `LeaseSteps.RemovesJustItIff` | internal/dhcpsvc/leaseindex.go:100-124 | An accepted removal leaves agreeing structures without that lease and with all others if and only if the lease at its address is the one given and no other zone of the address is leased |
| `LeaseWitnesses.RemovalOfUnequal` | internal/dhcpsvc/interface.go:111-127 | A concrete state in which the removal of a lease that is not held, being static where the held one is not, is accepted |
| `LeaseWitnesses.RemovalByMixedKeys` | internal/dhcpsvc/leaseindex.go:100-124 | A concrete state with two leases in which a removal with the address of one and the name of the other is accepted and breaks agreement |
| `LeaseWitnesses.RemovalOfTwin` | internal/dhcpsvc/server.go:412-444 | A concrete state with one address leased in two zones, in which removing one breaks agreement |
| `LeaseWitnesses.ResetLeavesOffset` | internal/dhcpsvc/server.go:285-306 | A concrete state whose reset leaves an offset leased to nobody |
| `LeaseWitnesses.UpdateThatMoves` | internal/dhcpsvc/server.go:347-375 | A concrete lease whose accepted move to a free address breaks agreement |
| `LeaseWitnesses.UpdateThatTakesName` | internal/dhcpsvc/leaseindex.go:143-157 | A concrete state in which an update is accepted against its documentation: it takes the name of a lease of the same MAC on another interface, and breaks agreement |
| `LeaseWitnesses.FullLastRangePanics` | internal/dhcpsvc/interface.go:157-169 | A concrete full range that ends at the last IPv4 address, over which every search panics |
| `LeaseWitnesses.ZonedStartMissesLast` | internal/dhcpsvc/iprange.go:68-76 | A concrete IPv6 range with a zoned start and a free last address, over which every search finds nothing |
| `LeaseSteps.RemoveByAddrKeepsIff` | internal/dhcpsvc/server.go:412-444 | Removal by address succeeds exactly if the address is leased, removes that lease only, and keeps agreement if and only if no other zone of the address is leased |
| `LeaseSteps.ResetKeepsIff` | internal/dhcpsvc/interface.go:75-77 | A reset, which forgets leases but not offsets, keeps agreement if and only if there was no lease |
| `LeaseSteps.AddAfterReset` | internal/dhcpsvc/server.go:285-306 | After a reset an addition succeeds exactly if an interface has the address, and the new lease is then the only one, while all old offsets are still marked |
| `LeaseSteps.TwinsShareOffset` | internal/dhcpsvc/iprange.go:80-91 | In an agreeing state the leases that share an offset are those with the same address in another zone |
| `LeaseUpdate.UpdateKeepsIff` | internal/dhcpsvc/leaseindex.go:131-160 | An accepted update keeps agreement if and only if its name is free or that of the lease replaced, and the address is the same but for the zone or both addresses are held by others too |
| `LeaseUpdate.UpdateIsRemoveAndAdd` | internal/dhcpsvc/leaseindex.go:148-157 | An accepted update under a name that is free or its own leaves the indexes with the old lease gone, the new one held, and all others as they were |
| `LeaseUpdate.AcceptsAsDocumentedIff` | internal/dhcpsvc/dhcpsvc.go:65-68 | An update is accepted exactly when, as documented, its MAC has a lease and no other value matches another one, if and only if it is not accepted on its keys or its name is free or that of the lease replaced |
| `LeaseUpdate.TakesAnothersIff` | internal/dhcpsvc/leaseindex.go:131-160 | An accepted update has the address or the name of a lease other than the one it replaces if and only if the name belongs to another |
| `LeaseUpdate.StepKeepsIff` | internal/dhcpsvc/server.go:285-444 | For each of the five operations, on any agreeing state: the next state agrees if and only if a condition that a caller can check before holds |
| `LeaseUpdate.RunKeepsIff` | internal/dhcpsvc/server.go:285-444 | Over any run of the five operations every state on the way agrees if and only if every step meets its condition on the keys where it is taken |
| `LeaseUpdate.ZoneFreeRunKeeps` | internal/dhcpsvc/server.go:309-444 | Where no address has a zone, every run of additions and removals by address stays in agreement |
| `FreeAddress.NextIPFindsLowest` | internal/dhcpsvc/interface.go:157-169 | The search gives the lowest address it visits that no lease holds; it gives none, or panics at the end of the address family, exactly when all are taken |
| `FreeAddress.NothingIffFull` | internal/dhcpsvc/interface.go:157-169 | Without zones on the interface, whatever the others hold, and away from the last address of the family, none is found exactly when the interface has as many leases as its range has addresses |
| `FreeAddress.VisitsAllIff` | internal/dhcpsvc/iprange.go:68-76 | The search visits every address of the range if and only if the zone of the start does not come after that of the end; otherwise it misses just the last |
| `DHCPServers.DHCPServer.NextIP` | internal/dhcpsvc/interface.go:157-169 | In an agreeing server the search on an interface gives the lowest visited address held by no lease of the server; or none, or a panic at the end of the family, when all it visits are held; an interface with the zero range never has one |
| `FreeAddress.Pigeonhole` | internal/dhcpsvc/interface.go:157-169 | Numbers below n fill all of 0 to n-1 exactly when there are n of them |
| `FreeAddress.CountLeases` | internal/dhcpsvc/interface.go:81-94 | Without zones there are as many leased offsets as leases, all within the range |
| `LeaseDb.StoreLoadRoundTrip` | internal/dhcpsvc/leaseindex.go:174-240 | Storing an agreeing state and loading the file into a fresh server with the same ranges rebuilds all four structures, up to whole-second expiries and no expiry on static leases, for any order of the file |
| `LeaseHistory.RestartGivesLastWritten` | internal/dhcpsvc/leaseindex.go:174-240 | After any run of safe requests, whichever of their database writes fail, a restart gives back the state after the last write that did not, up to what a stored lease keeps |
| `LeaseHistory.FileIsLastWritten` | internal/dhcpsvc/leaseindex.go:227-240 | After any run of requests, safe or not, the file holds the leases of the state after the last successful write |
| `LeaseHistory.LastWrittenAgrees` | internal/dhcpsvc/server.go:285-444 | Over a safe run that state agrees in all four structures |
| `LeaseDb.StoredFileIsUnique` | internal/dhcpsvc/jsondatabase.go:195-208 | The stored list of an agreeing state does not depend on the order in which the map is walked |
| `LeaseDb.FileIsDetermined` | internal/dhcpsvc/jsondatabase.go:204-208 | Two name-sorted lists of the same entries with distinct names are equal |
| `LeaseDb.HeldDetermineState` | internal/dhcpsvc/leaseindex.go:77-124 | The leases held determine both maps, the leases of each interface and the offsets |
| `LeaseDb.LoadKeepsAll` | internal/dhcpsvc/leaseindex.go:191-223 | Leases of known interfaces that do not collide are all loaded, in whatever order they come |
| `LeaseDb.StoredLeaseReadsBack` | internal/dhcpsvc/jsondatabase.go:67-108 | Address, name, MAC and kind read back as they were, the expiry to the second, and none for a static lease |
| `LeaseDb.SortedByNameIff` | internal/dhcpsvc/jsondatabase.go:62-64 | Sorted by name means that no name comes lexicographically before that of an entry above it |
| `LeaseDb.ParsesIff` | internal/dhcpsvc/jsondatabase.go:87-108 | Which entries parse, and to what, field by field |
| `LeaseDb.DecodedIff` | internal/dhcpsvc/jsondatabase.go:178-191 | The file decodes without error exactly if every entry parses, and then to the leases in order |
| `LeaseDb.EncodeLeases` | internal/dhcpsvc/jsondatabase.go:195-208 | The insertion loop with binary search gives a permutation of the leases sorted by name |
| `LeaseDb.DecodeLeases` | internal/dhcpsvc/jsondatabase.go:178-191 | The leases of the entries that parse, in order, and the number of those that do not |
| `NetInterfaces.NetInterface.AddLease` | internal/dhcpsvc/interface.go:81-94 | Refuses a known MAC without a change; else stores the lease and marks its offset, and nothing else |
| `NetInterfaces.NetInterface.UpdateLease` | internal/dhcpsvc/interface.go:99-109 | Replaces the lease of a known MAC and returns it; the offsets do not change |
| `NetInterfaces.NetInterface.RemoveLease` | internal/dhcpsvc/interface.go:114-127 | Deletes the lease of a known MAC and clears the offset of the address given, which need not be the address of that lease |
| `NetInterfaces.NetInterface.Reset` | internal/dhcpsvc/interface.go:75-77 | Forgets every lease |
| `NetInterfaces.NetInterface.NextIP` | internal/dhcpsvc/interface.go:157-169 | Stops at the first address whose offset is not marked, or ends or panics after all that it visits are; over the zero range there is never an address to give |
| `LeaseIndexes.LeaseIndex.Add` | internal/dhcpsvc/leaseindex.go:77-95 | Either all of the address map, name map, interface leases and offsets gain the lease, or the first taken key is named and none changes |
| `LeaseIndexes.LeaseIndex.Remove` | internal/dhcpsvc/leaseindex.go:100-124 | Either the keys given go from all four structures and the file follows, or the first missing key is named and none changes |
| `LeaseIndexes.LeaseIndex.Update` | internal/dhcpsvc/leaseindex.go:131-160 | The lease of the MAC gives way to the new one in both maps and the interface, and the file follows, or nothing changes |
| `LeaseIndexes.LeaseIndex.Clear` | internal/dhcpsvc/leaseindex.go:58-69 | Both maps are emptied, and the file if it can be written |
| `LeaseIndexes.LeaseIndex.DbStore` | internal/dhcpsvc/leaseindex.go:227-240 | A successful store leaves every indexed lease once in the file, sorted by name; a failed one leaves the file |
| `DHCPServers.DHCPServer.IfaceForAddr` | internal/dhcpsvc/server.go:450-466 | The first interface, of the family of the address, whose range has the address; none exactly if no range has it |
| `DHCPServers.DHCPServer.AddLease` | internal/dhcpsvc/server.go:309-342 | The objects take the addition step, the error is the one of that step, and the file is written exactly after success in memory |
| `DHCPServers.DHCPServer.RemoveLease` | internal/dhcpsvc/server.go:378-406 | The objects take the removal step by the three keys given; error and file as for the addition |
| `DHCPServers.DHCPServer.RemoveLeaseByAddr` | internal/dhcpsvc/server.go:412-444 | The objects take the step that removes what is leased at the address; error and file as for the addition |
| `DHCPServers.DHCPServer.UpdateStaticLease` | internal/dhcpsvc/server.go:347-375 | The objects take the update step, which leaves all offsets alone; error and file as for the addition |
| `DHCPServers.DHCPServer.Reset` | internal/dhcpsvc/server.go:285-306 | Afterwards both maps and the leases of every interface are empty, and the offsets of all interfaces are as before |
| `DHCPServers.NewServer` | internal/dhcpsvc/server.go:70-102 | A new server holds agreeing structures, unless the file does not parse; on a file stored from agreeing structures over the same ranges it has them all back, up to what a stored lease keeps |
| `DHCPServers.DHCPServer.IndexLeases` | internal/dhcpsvc/leaseindex.go:191-223 | The loop over stored leases amounts to adding each in turn and skipping the refused ones |
| `DHCPServers.DHCPServer.DbLoad` | internal/dhcpsvc/leaseindex.go:174-188 | Loads what the file decodes to, or fails and loads nothing if any entry does not parse |
| `IANAOptions.DecodeIff` | internal/dhcpsvc/options6.go:63-99 | Total on all byte strings: fails exactly when the header is short, a nested option overruns or an address option has fewer than 24 bytes, and otherwise gives the address options in order |
| `IANAOptions.RoundTripIff` | internal/dhcpsvc/options6.go:63-118 | For every 64-bit duration, and whatever the platform makes of those that do not convert exactly: decoding the encoded data gives the option back, with any number of addresses, if and only if the durations are whole seconds in 32 bits and the addresses IPv6 without zones |
| `IANAOptions.NestedV4Overruns` | internal/dhcpsvc/options6.go:197-210 | An option encoded with one nested IPv4 address does not decode: it overruns |
| `IANAOptions.OptionOfBytes` | internal/dhcpsvc/options6.go:63-99 | One whole option by its bytes and its value, which pins byte order, field order, option code and units |
| `IANAOptions.AddrOfParts` | internal/dhcpsvc/options6.go:176-193 | Of the data of an address option, however long, the first 16 bytes are the address and the next two words the preferred and the valid lifetime in seconds |
| `IANAOptions.HeaderOfWords` | internal/dhcpsvc/options6.go:70-72 | The first three words are the association, T1 and T2 |
| `IANAOptions.TrailersAreIgnored` | internal/dhcpsvc/options6.go:157-158 | Options nested inside address options change nothing: a whole option with any such trailers decodes to the same |
| `IANAOptions.AddrIgnoresTrailer` | internal/dhcpsvc/options6.go:184-190 | What follows the lifetimes in an address option changes nothing of the address read |
| `IANAOptions.OtherOptionsAreIgnored` | internal/dhcpsvc/options6.go:85-95 | Well-formed nested options of other codes change neither whether the data decodes, which a last option that overruns prevents in any case, nor to what, wherever they are inserted |
| `IANAOptions.UnmarshalBinary` | internal/dhcpsvc/options6.go:63-99 | The loop over the shrinking slice terminates and equals the recursive decoder, the index in its errors included |
| `IANAOptions.DecodePrinted` | internal/dhcpsvc/options6.go:75-96 | A printed list of options followed by any short or overrunning rest decodes to what the list means |
| `IANAOptions.EveryStringParses` | internal/dhcpsvc/options6.go:75-96 | Every byte string is a printed list of options followed by a rest that is short or overruns |
| `IANAOptions.MeaningIff` | internal/dhcpsvc/options6.go:80-93 | A list of options means addresses exactly when nothing overruns and no address option is short, and then those in order |
| `IANAOptions.Encode` | internal/dhcpsvc/options6.go:103-118 | The appending loop prints the header and then every nested address |
| `IANAOptions.StatusReadsAsEmpty` | internal/dhcpsvc/options6.go:285-304 | A refusal decodes to the same identity association with no times and no addresses |
| `IANAOptions.StatusReadsBack` | internal/dhcpsvc/options6.go:285-304 | The bytes of a refusal: the association, zero times, and a status code option with the status given |
| `IANAOptions.RequestedIsFirst` | internal/dhcpsvc/options6.go:121-129 | A decoded option requests an address exactly when it has an address option, and then the first |
| `IANAOptions.FromSeconds` | internal/dhcpsvc/options6.go:71-72 | No 32-bit number of seconds overflows a 64-bit duration, and the seconds can be read off it again |
| `Options4.Options` | internal/dhcpsvc/options4.go:237-259 | The implicit list is the defaults whose codes are not configured and the explicit list the last-wins reading of the configuration, both strictly sorted by code |
| `Options4.Configure` | internal/dhcpsvc/options4.go:243-253 | One configured option leaves the implicit list without its code and is the only one of its code in the explicit list |
| `Options4.LastForIs` | internal/dhcpsvc/options4.go:248-253 | The reading of a code is the option at the last position that has it |
| `Options4.ListsAreDisjoint` | internal/dhcpsvc/options4.go:231-235 | The two lists of an interface share no code |
| `Options4.AppendRequestedOptions` | internal/dhcpsvc/options4.go:270-310 | The in-place appends and deletions give the base without removed codes, then the requested implicit options in request order, then the explicit options with data in code order |
| `Options4.SurvivingInOrder` | internal/dhcpsvc/options4.go:300-306 | The options of the base that are not removed keep their order |
| `Options4.SurvivingOne` | internal/dhcpsvc/options4.go:300-306 | An option of the base is removed exactly if its code is configured without data |
| `Options4.RequestedInOrder` | internal/dhcpsvc/options4.go:278-290 | The requested options come in the order of the request |
| `Options4.RequestedOne` | internal/dhcpsvc/options4.go:280-289 | A requested code gives its implicit option, or nothing if there is none |
| `Options4.NonEmptyInOrder` | internal/dhcpsvc/options4.go:295-300 | The explicit options come in the order of their codes |
| `Options4.RequestListIff` | internal/dhcpsvc/options4.go:450-451 | A request list is an option 55 with data |
| `Options4.ResponseHas` | internal/dhcpsvc/options4.go:270-310 | In terms of the configuration alone: which options a response has and which not |
| `Options4.RequestedOptions` | internal/dhcpsvc/options4.go:448-464 | The nested loops give the codes of the first request list that is not empty, and none without one |
| `Options4.FirstListCounts` | internal/dhcpsvc/options4.go:449-460 | A request list counts exactly if every one before it is absent or empty |
| `Options4.SwitchesMean` | internal/dhcpsvc/options4.go:61-229 | Which of the default switches are on: router discovery and the keep-alive byte, and no other |
| `Options4.NumbersMean` | internal/dhcpsvc/options4.go:61-229 | The four-byte defaults as numbers of seconds and hops |
| `Options4.AddressesMean` | internal/dhcpsvc/options4.go:52-175 | Mask and gateway are the configured ones; the broadcast and all-routers addresses, the datagram size and the time to live have their recommended values |
| `Options4.PlateausMean` | internal/dhcpsvc/options4.go:99-116 | The MTU plateaus that the defaults list |
| `Options4.ImplicitSorted` | internal/dhcpsvc/options4.go:34-48 | The defaults are strictly sorted by code |
| `Sessions.RunAgrees` | internal/aghuser/sessionstorage.go:325-460 | Through any run of logins, lookups, logouts, failed transactions and restarts, the map in memory and the bucket have the same tokens, and each record is that of its session |
| `Sessions.RestartRestores` | internal/aghuser/sessionstorage.go:149-266 | A restart brings back exactly the sessions whose login fits and still exists and whose stored expiry is not before that time, each with the user's present ID |
| `Sessions.RestartAgrees` | internal/aghuser/sessionstorage.go:149-219 | What a restart loads and what it leaves in the bucket agree, whatever records were in the bucket |
| `Sessions.GoneStaysGone` | internal/aghuser/sessionstorage.go:379-425 | A token without a session has none after any run of lookups, deletions and restarts, until it is issued anew |
| `Sessions.NeverIff` | internal/aghuser/sessionstorage.go:149-266 | When a token is done with at a reading: no run, unless it issues the token for longer, lets it authenticate then, if and only if the reading is past the expiry of its session and past the stored expiry, or the login is too long for a restart to bring the session back |
| `Sessions.LookupEndsIff` | internal/aghuser/sessionstorage.go:380-400 | The lookup that finds a session expired puts an end to it at every reading, earlier ones included, if and only if its transaction is done |
| `Sessions.ExpiredStaysExpired` | internal/aghuser/sessionstorage.go:380-400 | Through failed deletions, clocks that go back, restarts and sessions issued for no longer, a token that is past the expiry of its session, in memory and as stored, does not authenticate |
| `Sessions.IssuedFor7` | internal/aghuser/sessionstorage.go:325-344 | A session that expires at second 7 can be issued, so the failing run below can be reached |
| `Sessions.StoredNeverLaterIff` | internal/aghuser/sessionstorage.go:297-314 | Storing and reading an expiry never makes it later if and only if it is not before the epoch |
| `Sessions.FailedDeletionKeeps` | internal/aghuser/sessionstorage.go:149-219 | A failing run: a session that expires at second 7 is brought back by a restart, found expired at 10 while its deletion fails, and authenticates again at 5 |
| `Sessions.BeforeEpochRevives` | internal/aghuser/sessionstorage.go:297-314 | A session that ended a nanosecond before the epoch is brought back by a restart at the epoch, to last 2^32-1 seconds |
| `Sessions.RecordLimits` | internal/aghuser/sessionstorage.go:283-319 | A login of 65536 bytes does not read back, and an expiry of 2^32 seconds reads back as the epoch |
| `SessionInterleavings.OverlapAgreesIff` | internal/aghuser/sessionstorage.go:325-344 | However the calls overlap while sessions are being issued, the map and the bucket agree after every part, up to what is pending, if and only if no token is deleted while it is being issued; once none is pending they then agree outright |
| `SessionInterleavings.PartKeepsIff` | internal/aghuser/sessionstorage.go:338-341 | A part of a call keeps the map and the bucket in agreement, up to what is pending, if and only if it does not delete a token that is being issued |
| `SessionInterleavings.PartsAreNew` | internal/aghuser/sessionstorage.go:325-344 | The write to the bucket and the write to the map, with nothing in between, are the step that issues a session |
| `SessionInterleavings.DeletedWhileIssued` | internal/aghuser/sessionstorage.go:412-425 | A concrete run: a token deleted between the two writes ends up in the map without a record |
| `Sessions.RecordIsExactIff` | internal/aghuser/sessionstorage.go:283-319 | The record keeps login and expiry to the second if and only if the login has at most 65535 bytes and the expiry fits 32 bits of seconds |
| `Sessions.RecordBytes` | internal/aghuser/sessionstorage.go:306-319 | One record by its bytes: four of the expiry and two of the length, high byte first, then the login |
| `Sessions.DecodeEncoded` | internal/aghuser/sessionstorage.go:283-319 | A record reads back exactly when the login length fits two bytes, and then as the login and the expiry cut to 32 bits of seconds |
| `Sessions.EncodeDecoded` | internal/aghuser/sessionstorage.go:283-319 | Every record that decodes is the record of what it decodes to |
| `Sessions.StoredExpiryIff` | internal/aghuser/sessionstorage.go:313-314 | The stored expiry is the expiry to the second if and only if it lies within 32 bits of seconds after the epoch |
| `Sessions.BboltEncode` | internal/aghuser/sessionstorage.go:306-319 | The buffer filled field by field holds the record |
| `SessionStorages.DefaultSessionStorage.New` | internal/aghuser/sessionstorage.go:325-344 | Memory and bucket gain the session together, or neither does |
| `SessionStorages.DefaultSessionStorage.FindByToken` | internal/aghuser/sessionstorage.go:380-400 | Returns the session of that token exactly if it is there and the reading is not after its expiry; an expired one is deleted from both, and only that deletion can fail |
| `SessionStorages.DefaultSessionStorage.DeleteByToken` | internal/aghuser/sessionstorage.go:404-425 | Memory and bucket lose the token together, or neither does; it fails without a bucket |
| `SessionStorages.DefaultSessionStorage.LoadSessions` | internal/aghuser/sessionstorage.go:149-192 | Memory and bucket become those of a restart, or the bucket is as before; it fails exactly if the transaction cannot begin, or cannot delete what is not kept |
| `SessionStorages.DefaultSessionStorage.ProcessSessions` | internal/aghuser/sessionstorage.go:196-266 | In any order of the walk: the sessions kept are loaded, and the tokens of all others are listed for deletion |
| `BigEndian.Literals` | internal/aghuser/sessionstorage.go:313-314 | The first byte of a number counts most |
| `BigEndian.FromToBE` | internal/aghuser/sessionstorage.go:313-315 | A number that fits its field reads back from its big-endian bytes |

## Left out

- UpstreamManagers.UpstreamManager.NewCustomUpstreamConfig: parsing of upstream lines is not modelled; a configuration is identified with the filtered lines, cache fields and common settings that it is built from; the panic on upstreams that validated and then do not parse is not modelled.
- Storages.Storage.Add: whether the upstream lines parse is a parameter; the settings that no map is keyed by (blocked services, safe search, logging flags) are not fields of the model, and a caller that later changes the object it has added is not modelled.
- Storages.Storage.CustomUpstreamConfig: what happens to a configuration after it is handed out, and queries after the shutdown, are not modelled; a panic leaves the state to later calls, as under a caller that recovers.
- Storages.Storage.ReloadARP: a store without any ARP database takes no such step; the model has one.
- Storages.Storage.UpdateDHCP: a store without a DHCP server takes no such step.
- Storages.Storage.constructor: the initial clients are additions and the first ARP reload is a reload, so they are steps after an empty start.
- SortedMaps.SortedMap.Range: the callback is a predicate; a callback that changes the map during the walk is not modelled, nor is a nil map.
- IPRanges.Find: a walk that goes on past the last address of its family, as it does for a predicate that refuses the zero address, is not followed any further; the one predicate used never lets it come to that.
- NetInterfaces.NetInterface.Reset: handlers that change a lease in place, `blockLease`, `allocateLease`, `reserveLease` and the reuse of expired leases are not modelled; leases are values, so a lease that the caller changes after adding it is not either.
- LeaseSpec.AddsIff: names are folded to lower case character by character, by a constant of which only the ASCII part is known.
- LeaseDb.StoreLoadRoundTrip: printing and parsing of addresses, hardware addresses, times and JSON are taken as inverse to each other, also for years that RFC 3339 cannot hold.
- LeaseDb.DecodeLeases: a missing file is an empty one, and a file that is not JSON is not modelled.
- LeaseIndexes.LeaseIndex.DbStore: a failed write is taken to leave the old file.
- IANAOptions.Encode: the option code around the data is not part of the model; a zone takes one byte a character; what 32 bits of seconds make of a duration that is not whole seconds in that range is a parameter.
- Options4.Options: the length field of an option is the length of its data, and the subnet mask and the gateway, which the defaults take from the configuration, are given as bytes.
- Options4.ImplicitSorted: the defaults are listed in sorted order, where the source sorts them.
- Sessions.RunAgrees: the two writes of a new session are one step here, and two in `SessionInterleavings`; a failed commit is taken to leave the database as it was.
- SessionInterleavings.OverlapAgreesIff: two sessions that are being issued at one time have different tokens.
- Sessions.RestartAgrees: the keys of the bucket are 16-byte tokens, as this code writes them; the source panics on a shorter key and cuts a longer one.
- Sessions.NeverIff: readings are those of the wall clock; under the system clock the process that issued a session compares it by the monotonic clock, which does not go back, until a restart.
- SessionStorages.DefaultSessionStorage.New: the token is a parameter, which may repeat; the source draws it at random.
- SessionStorages.DefaultSessionStorage.LoadSessions: a failed read of the user database, which panics, is not modelled; after a failed restart nothing but the database remains.
- `RangeByName`, `FindLoose`, `FindParams.Set`, `ClearUpstreamCache`, `RangeRuntime` and `ApplyClientFiltering`: walks and conversions over the same structures, left out as easier.
- Loggers, counters in log lines, contexts, goroutines, channels, and error texts.
- DHCP packets, sockets, network devices, router advertisements, address probing, and the DHCPv6 option lists.
- The older DHCP server in `internal/dhcpd`, configuration migration, DNS forwarding, filtering, statistics, the query log, TLS, the user interface and build scripts.
