# NodeFoundry: address pool, node life cycle and their supporting texts

This project models the parts of the NodeFoundry server that keep state, and proves what every run of them keeps.

- **The DHCP address pool** (`Pool`, `PoolRuns`, `IPManager`). The abstract state is a finite map from client to bound
  address and expiry. The class keeps the two tables of the code, lease objects by client and a reverse index from address
  text to client, and each of its methods is proved to do to the bindings what the abstract operation does. The scan for a
  free address is described by the values a wrapping 32-bit counter takes. Histories are arbitrary sequences of operations.
- **The server as a whole** (`Handlers`, `Lifecycle`, `StatusHistory`, `FieldHistory`, `AddressHistory`, `LeaseHistory`,
  `SettingsHistory`; `Scenarios` writes single runs out). DHCP, MQTT and HTTP handlers are
  programs of atomic steps: a database transaction or a locked pool operation, with the local computation that follows.
  A run is any sequence of arriving messages and single steps of any handler, under a clock that never goes back. The
  log holds every record written, the step that wrote it, and how long the log was when that handler last touched the bucket.
- **The imperative code** (`IPManager`, `Repository`, `Servers`, `Listing`, `Mac`, `DnsList`, `Preseed`). Classes and loops
  in the form of the source, each proved against the functions above. A handler's method, run undisturbed, does what its
  step program does; the theorems about interleavings are about the step programs.
- **Texts** (`Text`, `Mac`, `Ipv4`, `DnsList`, `Preseed`). MAC spellings, the status topic, dotted addresses, the list of name
  servers, and the query string that carries the network settings from the boot script to the preseed file.

## What the code does where its documentation says otherwise

- The life cycle is documented as one-way (line 245 of the repository's README and its node-state-management requirements).
  `Save` makes no transition check, so overlapping handlers of one node can take it back: `OverlapGoesBackwards` is such a run.
  `RunKeepsLifeCycleIff` says exactly which runs keep the life cycle, `SerialRunsKeepLifeCycle` that those do in which handlers
  of the same node do not overlap, and `NoStageSkipped` what holds in every run.
- For the same reason a write can erase what another handler has just stored: `OverlapLosesAddress` is such a run, and
  `WriteLosesNothingIff` says exactly which writes do.
- A range that ends at 255.255.255.255 is never reported as exhausted: `ip++` wraps, and the scan goes on below the range.
  `SelectionOrder`, `UnboundedRangeNeverRefuses`, `OutsideRangeIff` and `WrappedPoolLeavesItsRange` say what happens instead.
- The recorded netmask is hexadecimal text such as `ffffff00` (`internal/dhcp/server.go:169` prints a `net.IPMask`), not the
  dotted text shown in `docs/STATIC-NETWORK.md:118`: `MaskTextIsNotDotted`.
- A DHCPREQUEST does not extend the lease (`internal/dhcp/server.go:280-286`), although the node-discovery requirements
  promise it in their renewal scenario. `RequestAnsweredIff` says exactly when one is answered in a run, and
  `RenewalIsNotKept` is a run in which a client that renews in time is still refused a tick later.
- A status report whose transition is rejected still saves heartbeat, address and host name
  (`internal/mqtt/client.go:157-165`), although the mqtt-reporting requirements say that the database is then
  not updated. `RejectedReportIsHarmlessIff` gives the exact condition, `ReportEffect` the whole effect of every report, and
  `RejectedReportIsStored` is the scenario of those requirements.

## Assumptions

- A bucket transaction and a pool operation are atomic. The wall clock is an integer passed to each step; run theorems
  let it advance by any amount, zero included, and never back.
- `net.ParseMAC` followed by printing is a parameter of the pool. Where a theorem needs it, it is assumed to leave printed
  hardware addresses alone. The printers of addresses and the parser of query strings are written out.
- A call that never returns is the outcome `Hangs`, which the method returns as an error of its own; in runs of the server
  such a handler stays at its step. The code would also keep the pool locked from then on, so the runs here include all those
  of the code.
- Strings are sequences of characters where Go has bytes; on the hexadecimal, dotted and ASCII texts at issue they agree.
- Proofs use `hide` to keep definitions out of a proof that does not need them.

## Model

| member | source | states |
|---|---|---|
| `Pool.SelectionOrder` | internal/dhcp/ip_pool.go:88-113 | the choice of section 4.3.1 of RFC 2131 (current binding, else requested address if in the pool and free, else the least free address, else refusal) is followed for every range, except exactly when a client without a binding or an honourable request asks a full range that ends at 255.255.255.255 |
| `Pool.AnswerToRequest` | internal/dhcp/ip_pool.go:88-113 | the choice from the bytes of the request: an address that has an IPv4 form, is not 0.0.0.0, lies in the range and is free is granted to a client without a binding; with any other bytes the client is given the least free address, or refused |
| `Pool.RefusesExactlyWhenFull` | internal/dhcp/ip_pool.go:89-113 | below 255.255.255.255 a client is refused exactly when it has no lease and as many addresses are bound as the range holds; the call always returns |
| `Pool.UnboundedRangeNeverRefuses` | internal/dhcp/ip_pool.go:105-113 | a range ending at 255.255.255.255 never reports exhaustion; the call hangs exactly when the client has no lease and all 2^32 addresses are bound |
| `Pool.OutsideRangeIff` | internal/dhcp/ip_pool.go:105-113 | a new address lies outside the range exactly when the range ends at 255.255.255.255 and is full |
| `Pool.WrappedPoolLeavesItsRange` | internal/dhcp/ip_pool.go:105-113 | the one-address pool 255.255.255.255 gives its second client 0.0.0.0 |
| `Pool.VisitedModulo` | internal/dhcp/ip_pool.go:106 | the n-th value of the scan counter is start + n modulo 2^32 |
| `Pool.FullTurnHangs` | internal/dhcp/ip_pool.go:105-113 | a counter that has gone once round without a stop never stops |
| `Pool.ScanFindsLeastFree` | internal/dhcp/ip_pool.go:105-111 | for every range that has a free address the scan stops at the least one |
| `Pool.Pigeonhole` | internal/dhcp/ip_pool.go:105-113 | a partial injection into an interval has at most as many bindings as the interval has addresses, and exactly as many when every address is taken |
| `Pool.OperationsKeepInv` | internal/dhcp/ip_pool.go:81-156 | allocate, release and renew keep the bindings a partial injection into the range; a released address is free |
| `PoolRuns.ReachableInv` | internal/dhcp/ip_pool.go:81-186 | in every run no two clients hold the same address, and all addresses are in a range below 255.255.255.255 |
| `PoolRuns.NoDoubleAssignment` | internal/dhcp/ip_pool.go:81-141 | an address handed to one client is handed to another only after a release of it in between |
| `PoolRuns.KeepsAddress` | internal/dhcp/ip_pool.go:81-141 | a client keeps its address, expired or not, until that address is released |
| `PoolRuns.ExpiryIsLastTouch` | internal/dhcp/ip_pool.go:89-93 | a lease expires one lease time after the client's last AllocateIP or RenewLease |
| `PoolRuns.LookupWhileFresh` | internal/dhcp/ip_pool.go:158-175 | GetLease answers exactly while that time has not passed, with the bound address |
| `PoolRuns.RefusalInRuns` | internal/dhcp/ip_pool.go:89-113 | refusal exactly when full, at every point of every run |
| `PoolRuns.OfferIsHonoured` | internal/dhcp/ip_pool.go:81-175 | in a pool history, a lookup within the lease time of an allocation is given the allocated address, and so is a later allocation at any time |
| `LeaseHistory.RunIsPoolHistory` | internal/dhcp/server.go:271-287 | the bindings of every run of the server are those after a pool history that releases and renews nothing and whose clock never goes back |
| `LeaseHistory.RequestAnsweredIff` | internal/dhcp/server.go:280-286 | after every run a message other than DISCOVER is answered, with the bound address, exactly when its client is bound and the lease time since its last DISCOVER has not passed |
| `LeaseHistory.RenewalIsNotKept` | internal/dhcp/server.go:274-286 | for any hardware address: a run in which a REQUEST at the end of the lease time is answered and the next one, a tick later, is not |
| `LeaseHistory.OfferIsHonouredInRuns` | internal/dhcp/server.go:274-286 | in every interleaving a REQUEST within the lease time of an offer is given the offered address, and so is a later DISCOVER at any time |
| `LeaseHistory.AnswerIsTaken` | internal/dhcp/server.go:287 | the address given is the one the handler goes on with |
| `LeaseTables.IndexedIffTaken` | internal/dhcp/ip_pool.go:205-216 | the reverse index, keyed by text, holds exactly the taken addresses, each under its one holder |
| `LeaseTables.InverseMeansInjective` | internal/dhcp/ip_pool.go:177-186 | mutually inverse tables stand for a partial injection |
| `LeaseTables.InverseMeansSameSize` | internal/dhcp/ip_pool.go:19-23 | the two tables have the same size |
| `IPManagers.IPManager.ValidMeansInjective` | internal/dhcp/ip_pool.go:19-23 | the class invariant makes its bindings a partial injection and its tables equal in size |
| `IPManagers.IPManager.AllocateIP` | internal/dhcp/ip_pool.go:81-114 | keeps the tables inverse; new bindings and answer are those of the abstract operation, the call that never returns included; and, read from the bytes of the request: the current address renewed, else the requested one if it is in the range and free, else the least free one, else exhaustion |
| `IPManagers.IPManager.NextFree` | internal/dhcp/ip_pool.go:105-113 | the 32-bit scan loop returns what the scan describes, or that it goes round for ever |
| `IPManagers.IPManager.GrantIP` | internal/dhcp/ip_pool.go:177-186 | a free address is bound to a client without one, in both tables |
| `IPManagers.IPManager.ReleaseIP` | internal/dhcp/ip_pool.go:116-141 | removes exactly the holder of the address; error for no IPv4 address or a free one |
| `IPManagers.IPManager.RenewLease` | internal/dhcp/ip_pool.go:143-156 | moves the expiry of the client's lease and nothing else; error without a lease |
| `IPManagers.IPManager.GetLease` | internal/dhcp/ip_pool.go:158-175 | bound address, lease not found, or lease expired |
| `Ipv4.FromToInt` | internal/dhcp/ip_pool.go:218-228 | intToIP undoes ipToInt |
| `Ipv4.ToFromInt` | internal/dhcp/ip_pool.go:218-228 | ipToInt undoes intToIP |
| `Ipv4.ToIntOrders` | internal/dhcp/ip_pool.go:218-221 | numbers order addresses as their bytes do, the first byte first |
| `Ipv4.To4Iff` | internal/dhcp/ip_pool.go:97 | the two byte slices that are an IPv4 address, and no others |
| `Ipv4.DottedInjective` | internal/dhcp/ip_pool.go:184 | dotted text tells addresses apart |
| `Ipv4.DottedParts` | internal/dhcp/ip_pool.go:184 | dotted text is the decimal bytes in order, without leading zeros |
| `Ipv4.MaskDigits` | internal/dhcp/server.go:168-170 | the recorded netmask has two hexadecimal digits a byte, the high one first |
| `Ipv4.MaskTextIsNotDotted` | internal/dhcp/server.go:168-170 | the recorded netmask is eight hexadecimal digits, never the text of an address |
| `Lifecycle.RepositoryHistory` | internal/db/bolt_node_repository.go:50-121 | in every interleaving the bucket maps each normalised address to the last record written there; no record is removed, its creation time is fixed, its update time never goes back |
| `Lifecycle.StepCarries` | internal/dhcp/server.go:137-186 | what a handler carries after a step is a valid node from the bucket, from itself, or new and discovered |
| `Lifecycle.StepWrites` | internal/db/bolt_node_repository.go:55-88 | a step writes at most one record, under its normalised key, keeping the creation time |
| `StatusHistory.NoStageSkipped` | internal/mqtt/client.go:138-185 | in every interleaving a stored installed is preceded by a stored installing, and that by a stored discovered |
| `StatusHistory.UndisturbedWriteKeepsLifeCycle` | internal/dhcp/server.go:138-186 | every write is zero or one stage ahead of what its handler last saw; so it keeps the life cycle unless another write fell in between |
| `StatusHistory.RunKeepsLifeCycleIff` | internal/dhcp/server.go:138-186 | for every run: all writes keep the life cycle if and only if, between what its handler had seen and each write, the record's status changed at most as often as the write itself moves on |
| `StatusHistory.SerialRunsKeepLifeCycle` | internal/model/node.go:53-77 | when handlers of one node do not overlap, no write takes its status back or ahead by more than one stage |
| `StatusHistory.WriteKeepsLifeCycleIff` | internal/db/bolt_node_repository.go:50-89 | the same seen from one write: it keeps the life cycle exactly when it is an install, the record is new, or the check that Save omits would pass |
| `StatusHistory.OverlapGoesBackwards` | internal/dhcp/server.go:138-154 | for any hardware address: a run in which an overlapping DHCP handler takes an installing node back to discovered |
| `FieldHistory.WritesChangeOwnFields` | internal/dhcp/server.go:137-186 | in every interleaving a write is what its handler makes of the record it had seen: a refresh, the settings of the assigned address, what the report says, or an install; every other field is that of the record |
| `FieldHistory.RecordedNetwork` | internal/dhcp/server.go:164-183 | in every interleaving the record that follows an assigned address holds that address, the mask, the gateway and, read back, the name servers of the pool, each where the pool has it, and otherwise what the handler had seen |
| `FieldHistory.CheckedReportIsWritten` | internal/mqtt/client.go:148-185 | in every interleaving a report that came to its check is stored by the next steps of its handler, whether the check passes or not |
| `FieldHistory.WriteLosesNothingIff` | internal/db/bolt_node_repository.go:50-89 | for every write of every run: it keeps what other handlers stored if and only if the stored record and the one its handler had seen agree in the fields that the write does not decide by itself, a comparison Save does not make |
| `FieldHistory.OverlapLosesAddress` | internal/mqtt/client.go:138-185 | for any hardware address and any report without an address: a run in which the report's Save erases the address that the DHCP handler has just recorded |
| `FieldHistory.SerialRunsLoseNothing` | internal/mqtt/client.go:138-179 | when handlers of one node do not overlap, a write is the record stored just before it with only its handler's own fields changed, so no stored field is lost |
| `AddressHistory.RecordedAddress` | internal/dhcp/server.go:137-186 | in every interleaving a recorded address is empty, named by a report or registration for that node, or exactly the node's lease |
| `AddressHistory.RecordedAddressesDiffer` | internal/dhcp/server.go:164-186 | two nodes share a non-empty recorded address only if one of them had it from a report or registration |
| `AddressHistory.DhcpAndInstallsOnly` | internal/dhcp/server.go:137-186 | with DHCP messages and install requests alone, every recorded address is empty or exactly its own node's lease, and no two records hold the same non-empty address |
| `AddressHistory.BoundForGood` | internal/dhcp/server.go:272-287 | in every interleaving a bound client keeps its address for the rest of the run, and no other client holds it |
| `Nodes.CanTransitionIffNextStage` | internal/model/node.go:53-77 | from a valid status the allowed moves are to the same or the next stage |
| `Store.TransactionsKeepWellFormed` | internal/db/bolt_node_repository.go:50-224 | every transaction keeps records under their own normalised address, valid, and not updated before created |
| `Store.SaveThenFind` | internal/db/bolt_node_repository.go:50-121 | a saved node is found by every spelling of its address with its first creation time; other records are undisturbed |
| `Store.SaveErrorIff` | internal/db/bolt_node_repository.go:50-88 | Save refuses exactly nodes without a digit in their address or without a valid status |
| `Store.UpdateStatusThenFind` | internal/db/bolt_node_repository.go:171-205 | a status update changes status and update time of the one record, found by every spelling; the error says which check failed |
| `Store.DeleteThenFind` | internal/db/bolt_node_repository.go:208-224 | a deleted node is found by no spelling, every other node as before; only an unknown node is an error |
| `Store.UpdateStatusIff` | internal/db/bolt_node_repository.go:171-205 | UpdateStatus succeeds exactly for a known node and the same or the next stage |
| `Repositories.BoltNodeRepository.Save` | internal/db/bolt_node_repository.go:50-89 | the bucket, the caller's stamped node and the error in every case |
| `Repositories.BoltNodeRepository.FindByMAC` | internal/db/bolt_node_repository.go:92-121 | a fresh copy of the record for any spelling, or nothing |
| `Repositories.BoltNodeRepository.UpdateStatus` | internal/db/bolt_node_repository.go:171-205 | the transaction's result, or its error and no change |
| `Repositories.BoltNodeRepository.Delete` | internal/db/bolt_node_repository.go:208-224 | the record and no other is gone, or an error and no change |
| `Servers.DHCPServer.HandleDHCP` | internal/dhcp/server.go:98-215 | an undisturbed run does what its four steps do, or waits for ever where they do; its reply is that of the pool step, or silence when it never gets there; the bucket is the one `DhcpEffect` describes |
| `Servers.DhcpEffect` | internal/dhcp/server.go:98-200 | for every message: which ones are served, the record stored first (the known one refreshed, or a blank one), the network settings stored with the answered address, the bindings and the reply |
| `Servers.AnswerIff` | internal/dhcp/server.go:271-304 | the answer from message and bindings: without a pool always an echo of the requested or else the current address; a REQUEST exactly while its lease lasts; a DISCOVER by the order of choice, silence when the range is full |
| `Servers.DHCPServer.AssignAndRecord` | internal/dhcp/server.go:157-200 | the pool step and the second Save |
| `Servers.DHCPServer.BuildResponse` | internal/dhcp/server.go:271-304 | DISCOVER allocates, REQUEST looks the lease up, without a pool the request is echoed |
| `Servers.AnsweredIsHeld` | internal/dhcp/server.go:271-287 | an address in an answer is the one the client holds once the pool step is over |
| `Servers.DHCPServer.RecordNetwork` | internal/dhcp/server.go:167-183 | the network fields copied into the node, each only when the pool has it |
| `Servers.StatusClient.OnStatusMessage` | internal/mqtt/client.go:101-193 | an undisturbed run does what its three steps do, on both branches of the transition check; the bucket is the one `ReportEffect` describes |
| `Servers.ReportEffect` | internal/mqtt/client.go:101-193 | a report writes exactly when its topic is read, its payload parses, its status is valid and its node is known, transition allowed or not; heartbeat and update time always change, address and host name when named, the status only when allowed, and nothing else |
| `Servers.HeardIff` | internal/mqtt/client.go:110-147 | a report concerns a record exactly when its topic is node/spelling/status for a spelling of that key, its payload parses and its status is valid |
| `Servers.RejectedReportIsHarmlessIff` | internal/mqtt/client.go:129-166 | a rejected report of a known node leaves the database alone exactly when its status is not one of the three; it never changes the status |
| `Servers.RejectedReportIsStored` | internal/mqtt/client.go:148-166 | for any discovered node a report of installed is stored as a heartbeat |
| `Servers.ApiHandler.RegisterNode` | internal/api/handler.go:117-159 | an undisturbed run does what its two steps do, and leaves what `RegisterEffect` describes |
| `Servers.RegisterEffect` | internal/api/handler.go:117-159 | for every state and spelling: a spelling of twelve digits without a record gets a blank, discovered record with the given address; anything else changes nothing |
| `Servers.ApiHandler.Install` | internal/api/handler.go:162-198 | an undisturbed run does what its two steps do, and leaves what `InstallEffect` describes |
| `Servers.InstallEffect` | internal/api/handler.go:162-198 | for every state and spelling: a known, discovered node becomes installing; anything else changes nothing |
| `Listing.SortNodes` | internal/db/bolt_node_repository.go:227-237 | the in-place bubble sort puts the newest first and keeps the nodes of every creation time in their order |
| `Listing.StableSortUnique` | internal/db/bolt_node_repository.go:227-237 | newest first and stable determine the result |
| `Listing.List` | internal/db/bolt_node_repository.go:124-151 | every record of the bucket exactly once, strictly by creation time descending and address ascending |
| `Listing.ListUnique` | internal/db/bolt_node_repository.go:133-148 | there is one such list |
| `Listing.ForEach` | internal/db/bolt_node_repository.go:133-140 | the bucket's records in ascending order of their keys |
| `Listing.LessIff` | internal/db/bolt_node_repository.go:133-140 | that order is by the first character in which keys differ, a prefix before its extensions |
| `Listing.ListByStatus` | internal/db/bolt_node_repository.go:154-168 | exactly the bucket's records of one status, in the order of the list |
| `Listing.StatusesShareList` | internal/db/bolt_node_repository.go:154-168 | the lists of the three statuses share out the whole list |
| `Mac.Normalize` | internal/model/node.go:112-127 | the two passes compute filter-then-lower-case |
| `Mac.NormalizeOfChar` | internal/model/node.go:112-127 | digits and lower-case letters stay, A to F become a to f, any other character is dropped |
| `Mac.NormalizeConcat` | internal/model/node.go:112-127 | normalising distributes over concatenation |
| `Mac.NormalizeIdempotent` | internal/model/node.go:112-127 | normalising twice is normalising once |
| `Mac.NormalizeFixedPoint` | internal/model/node.go:112-127 | exactly lower-case hexadecimal text is left alone |
| `Mac.AgentAddress` | internal/agent/netif.go:11-51 | from the environment the agent accepts exactly the spellings the server accepts and holds the server's key; without one it takes the first usable interface, or fails |
| `Mac.UsableIff` | internal/agent/netif.go:27-47 | an interface is usable exactly when it is up, no loopback and has six bytes; its key is their hexadecimal text |
| `Mac.AgentIsValid` | internal/agent/netif.go:72-85 | twelve lower-case hexadecimal digits |
| `Mac.FormatMAC` | internal/agent/netif.go:88-102 | twelve characters become six pairs with colons between and no lower-case letter; normalising undoes formatting |
| `Mac.TopicRoundTrip` | internal/mqtt/client.go:110-117 | a topic built from a spelling is read back as its key exactly when the spelling has no slash |
| `Mac.StatusTopicText` | internal/agent/mqtt.go:104 | the topic of an address is node/address/status |
| `Mac.TopicAcceptedIff` | internal/mqtt/client.go:110-117 | the server reads exactly the topics built from a spelling without a slash |
| `Mac.AgentReportReachesItsRecord` | internal/agent/mqtt.go:104 | an agent's report reaches its own record's key and no other |
| `Mac.HardwareKeyInjective` | internal/dhcp/server.go:122-129 | record keys tell hardware addresses apart and are valid for exactly the six-byte ones |
| `Mac.HexText` | internal/dhcp/server.go:122-129 | a record key has two hexadecimal digits a byte, the high one first |
| `Mac.PrintedText` | internal/dhcp/server.go:122 | a printed hardware address has those digits with colons between bytes |
| `DnsList.ParseDNSList` | internal/server/config.go:97-109 | the non-empty trimmed pieces between commas (see `TrimIff` and `PaddedListIsParsed`) |
| `DnsList.TrimIff` | internal/server/config.go:104 | trimming is the one way to take a text apart into white space, a trimmed text and white space |
| `DnsList.IsSpaceIff` | internal/server/config.go:104 | the white space of unicode.IsSpace, character by character |
| `DnsList.PaddedListIsParsed` | internal/server/config.go:97-109 | a list whose entries are padded with white space in any way parses to the entries, in order and without the empty ones |
| `DnsList.JoinDNS` | internal/dhcp/server.go:174-183 | the handler's loop joins the addresses with commas |
| `DnsList.ParseUndoesJoinIff` | internal/server/config.go:97-109 | parsing undoes joining exactly for non-empty, trimmed entries without commas |
| `DnsList.ParseJoinParse` | internal/server/config.go:97-109 | parse, join, parse is parse, for every text |
| `DnsList.RecordedDnsIsReadBack` | internal/dhcp/server.go:174-183 | the recorded list parses to the pool's name servers |
| `Preseed.NetParams` | internal/ipxe/generator.go:70-84 | the query the install script carries: the address, then netmask, gateway and name servers of the record under their names, each if there is one |
| `Preseed.GenerateWithQuery` | internal/ipxe/preseed.go:38-130 | the preseed file for a known node: its host name, or node- and its address; the settings of the query if it names an address, else of the record if it has one |
| `Preseed.NetworkSection` | internal/ipxe/preseed.go:62-94 | the text of the network section, line by line |
| `Preseed.SectionSize` | internal/ipxe/preseed.go:62-94 | a setting that holds nothing has no line |
| `Preseed.SettingsFound` | internal/ipxe/preseed.go:48-94 | what an installer finds under each of the four keys, for every record and every query: the parameter or the field of that name |
| `Preseed.PrintedFieldsComeBack` | internal/ipxe/generator.go:70-84 | plain fields come back each under its own name, and the installer finds them, whatever record the node has by then |
| `Preseed.UnescapeOfEscape` | internal/ipxe/preseed.go:49-52 | a percent sign and two hexadecimal digits of either case stand for the character with that number |
| `Preseed.PairOf` | internal/ipxe/preseed.go:49-52 | a piece of a query is cut at its first equals sign and both sides are unescaped; without one its value is empty |
| `Preseed.QueryAgreesWithRecordIff` | internal/ipxe/preseed.go:48-60 | for every record: the printed query and no query lead to the same settings exactly when there is no address to print, the query as read names none, or every field is free of the characters % + ; & and # |
| `Preseed.NamesNoAddressIff` | internal/ipxe/preseed.go:55 | for fields without & and #, the query as read names no address exactly when the address holds a semicolon or a broken escape |
| `Preseed.ReadBackIsContained` | internal/ipxe/generator.go:70-84 | fields that all come back through the query hold neither & nor # |
| `Preseed.SectionIsReadBack` | internal/ipxe/preseed.go:62-94 | the text of the section gives back every setting it was made from, for values without line breaks |
| `Preseed.SectionDeterminesSettings` | internal/ipxe/preseed.go:62-94 | for values without line breaks, two sections are equal exactly when they were made from the same settings or both without an address; in the second case the other settings are not printed |
| `Preseed.AddressAloneNames` | internal/ipxe/preseed.go:55 | when the other fields hold no & or #, the address that the printed query names is the one a query of the record's address alone names |
| `SettingsHistory.QueryAgreesInRuns` | internal/ipxe/preseed.go:48-60 | in every interleaving the printed query of a record agrees with it under a condition on its address alone |
| `SettingsHistory.DhcpSettingsSurvive` | internal/ipxe/generator.go:70-84 | in every interleaving the settings that the DHCP handler is about to record come back unchanged through the query |

## Left out

- DHCP packet encoding, options, boot file choice, sockets; ProxyDHCP mode, which touches neither pool nor bucket.
- `NewIPManager`'s parsing of its arguments: the pool is built from IPv4 endpoints, a mask, an optional gateway and IPv4 name
  servers. An endpoint without an IPv4 form would make the code panic at the first scan.
- bbolt and JSON: a transaction is a function on a map, a stored record is a value, and reading it back gives that value.
- Lease times are unbounded integers; `time.Duration` overflow is not modelled.
- How the agent lists network interfaces (the list is a parameter), and every other agent function but those listed.
- Reply texts and status codes of the HTTP interface, its read-only routes, and actions of UpdateNode other than install,
  which change nothing.
- GenerateWithQuery: the fixed text of scripts and preseed files is a parameter; `GenerateByStatus` then only picks one of
  three scripts by status.
- The `Extra` field of a node (`internal/model/node.go:22`), which no modelled code reads or writes.
- Restarts: leases live in memory only (`internal/dhcp/ip_pool.go:19-23`), although `docs/STATIC-NETWORK.md:127-129` says that
  they are restored. Runs start from an empty pool.
- How the boot loader and the installer carry the query: it is taken to arrive as it was printed.
- FormatMAC: upper-casing is that of ASCII letters; the source calls it on normalised addresses only.
- SortNodes: sorts an array of record values; the source swaps pointers to freshly decoded nodes.
- NextFree: the scan loop of AllocateIP; it ends after one full turn of the counter and says that the code's loop would not.
- HandleDHCP: an undisturbed run; that the real handler is interleaved between the four steps is the subject of the run
  theorems, which are about the step programs.
