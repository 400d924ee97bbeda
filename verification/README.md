# Verified models of a DHCP appliance

A Dafny model of the firmware of a small DHCP/DNS appliance: the DHCP lease state
machine with its hold-down table, the allow-list of permitted computers, the file logs,
the reverse-DNS probe, the MD5 checksum, IPv6 text and the crash-safe file publish.
Code that works by changing objects is modelled as classes whose methods are proved
against functions on values; the theorems are about those functions, over every input
and every run. `dafny verify dfyconfig.toml` checks the whole project.

| file | models |
|---|---|
| `LeaseModel`, `LeaseServer` | one turn of the DHCP server, as a function and as the object |
| `HoldDown`, `HoldDownRuns` | the table of refused addresses, alone and inside whole server runs |
| `LeaseRuns`, `OfferRuns`, `PoolScan` | ownership, caps, draining, offers and the address scan |
| `AllowText`, `AllowList`, `AllowTable`, `AllowStorage`, `LockFreeLookup` | the allow-list: text, codec, hash table, storage, concurrent lookup |
| `LogFormat`, `LogRotation`, `LogRuns`, `ErrorLog` | log rotation and loss accounting |
| `DnsName`, `PtrProbe` | compressed names, the PTR query and its answer |
| `Md5`, `Md5Answers`, `Ip6Text`, `AtomicFile` | checksum and its known answer, address text, crash-safe publish |
| `Net`, `TextLines`, `HexDigits` | shared values, text splitting and hexadecimal digits |

## Modelling decisions

- One server turn sees one clock value in milliseconds and one answer of the network: what
  a probe of the requested address says, and which pool addresses answer. Both are
  arbitrary. A run may change its settings between any two turns.
- The pool loop may run forever (`ScanEndsExactlyWhen`). In the step function such a turn
  chooses nothing; the methods that reach the loop require that it ends, and no theorem
  about turns or runs needs that.
- An address is its four octets. `WireOrder` is the number a little-endian processor
  compares; `HostOrder` is the numeric order.
- Seconds, milliseconds, bit counts and the loss counter have the source's widths, with
  wrap-around written out; a theorem that needs a clock which has not wrapped says so.
  Diagnostic counters (refused entries, lines, archives, carried tails) are unbounded.
- A text character stands for a byte.

## Where the code and its comments differ

Each item names a concrete input and the exact condition, over all inputs.

- The offer reservation is meant to keep concurrent clients apart. Two clients are offered
  one address (`TwoClientsOfferedOneAddress`), also one that is confirmed to the other for
  an hour (`ConfirmedAddressIsOffered`). `TakenAddressOfferedExactlyWhen` says when that
  happens, `ReservationTakenOverExactlyWhen` when the entry then changes hands, and
  `OfferIsHonouredExactlyWhen` when the offer is acknowledged.
- The automatic cap is described as twice the pool. For a pool across two /24 networks it
  can be 8 (`AutoCapAcrossSubnets`, `AutoCapIsTwiceThePool`).
- The pool loop compares in wire order, so it covers exactly the pool only inside one /24
  whose end is below 255 (`PoolAcrossNetworksIsMissed`, `VisitsThePoolExactly`), and a pool
  that ends in 255.255.255.255 can keep it running forever (`ScanCanRunForever`,
  `ScanEndsExactlyWhen`).
- A name cut off by the end of the buffer is decoded, although the header comment promises
  an empty result (`UnterminatedNameIsAccepted`); behind a pointer it is also skipped
  (`UnterminatedPointerIsAccepted`). `DecodedIsRootedExactlyWhen` and
  `SkippedIsRootedExactlyWhen` say when a name was terminated.
- A failed publish is said to leave the volume untouched; after a refused rename the old
  file is gone (`RefusedRenameLosesTheOldFile`,
  `RefusedPublishChangesNothingExactlyWhen`), though a recovery still finds the new one
  (`RefusedPublishIsRecoverable`).
- The crash-safe publish does not protect the first save of a file (`FirstSaveCanTear`,
  `SafeExactlyWhenPresent`).
- A copy to the card that breaks off removes the whole range file, with any earlier
  generation in it (`BrokenCopyLosesALine`, `ArchiveSurvivesExactlyWhen`), and a live file
  that cannot be emptied after its archive repeats its lines
  (`RefusedRewriteRepeatsALine`, `NoLineLost`). The line counter is then wrong
  (`CountersStayRight`).
- The allow-list header promises that a lookup sees the whole old or the whole new table.
  Two rebuilds can fool it (`TwoRebuildsCanFoolALookup`); `LookupIsWholeExactlyWhen` says
  for which lists and addresses, `ListedIsFoundExactlyWhen` and `UnlistedIsNotFound` what
  that means for listed and unlisted ones.
- A confirmed lease is acknowledged to one client only up to its last minute
  (`LastMinuteIsLost`, `AcknowledgedToOneClient`, `EntryChangesHandsExactlyWhen`).
- The loss counter of the error log can return to zero with a notice due
  (`CounterGoesAround`, `EveryLossIsReportedOnce`).
- Emptying the stored allow-list answers true when the erase failed
  (`FailedEraseGoesUnnoticed`, `SurvivesStorage`).
- One cleaning of a name does not settle it (`OnePassIsNotEnough`,
  `OnePassIsEnoughExactlyWhen`).

## Model

| member | source | states |
|---|---|---|
| HoldDownRuns.RefusedAddressIsHeldDown | src/dhcp/DhcpServer.cpp:737-923 | over whole runs: after a client refuses an address it holds or nobody holds, for the next hour the lease table has no entry for it and no OFFER or ACK names it, while no enabled binding names it and at most 32 addresses are refused from then on |
| HoldDownRuns.HeldAddressStaysOut | src/dhcp/DhcpServer.cpp:752-923 | in one turn, whoever asks and however, an address whose refusal is in force and that has no entry gets none and is named in no answer |
| HoldDownRuns.HeldWhileInForce | src/dhcp/DhcpServer.cpp:1109-1152 | the same over any run from any state, for as long as the refusal stays in force |
| HoldDownRuns.DeclinedIsHistory | src/dhcp/DhcpServer.cpp:839-865 | the server's hold-down table is exactly the table of the refusals its policy accepted |
| HoldDown.AgreesExactlyWhenNeverCrowded | src/dhcp/DeclinedAddresses.h:47-82 | the table answers as the refusal history does after every refusal if and only if no hour refuses more than 32 distinct addresses |
| HoldDown.AgreesWithHistory | src/dhcp/DeclinedAddresses.h:75-106 | without a crowded hour, isDeclined is "refused less than an hour ago" and count is the number of such addresses |
| HoldDown.AgeIsModular | src/dhcp/DeclinedAddresses.h:75-82 | ages are differences in 64-bit arithmetic |
| HoldDown.DeclinedOnlyIfRefused | src/dhcp/DeclinedAddresses.h:75-82 | whatever happened, only an address refused within the hour is held down |
| HoldDown.HeldForTheHour | src/dhcp/DeclinedAddresses.h:47-73 | a refused address stays in the table for the hour unless more than 32 addresses are refused from then on |
| HoldDown.FullTableForgetsOldest | src/dhcp/DeclinedAddresses.h:65-73 | a full table of other addresses in force forgets exactly one entry, and none is older |
| HoldDown.RefuseWithRoom | src/dhcp/DeclinedAddresses.h:47-64 | with room, a refusal refreshes or adds its address and forgets nothing in force |
| HoldDown.DeclinedAddresses.Add | src/dhcp/DeclinedAddresses.h:47-73 | the in-place add is the table function, and its answer says whether there was room |
| HoldDown.DeclinedAddresses.Declined | src/dhcp/DeclinedAddresses.h:75-82 | the loop answers whether the address is held down |
| HoldDown.DeclinedAddresses.Expire | src/dhcp/DeclinedAddresses.h:85-93 | exactly the entries an hour old or more are dropped |
| HoldDown.DeclinedAddresses.CountInForce | src/dhcp/DeclinedAddresses.h:96-106 | the loop counts the entries in force |
| HoldDown.DeclinedAddresses.Clear | src/dhcp/DeclinedAddresses.h:109-112 | every entry becomes unused and nothing else changes |
| LeaseRuns.LeaseOwnership | src/dhcp/DhcpServer.cpp:752-865 | an entry with more than the offer hold left changes hands only by a REQUEST from a client bound to the address, and goes only by a RELEASE of it or its owner's DECLINE |
| LeaseRuns.ConfirmedLeaseIsKept | src/dhcp/DhcpServer.cpp:1279-1342 | over whole runs from any state, whatever settings change, a client keeps its address, never for less time, up to the last minute of its expiry, short of those events and of its own renewal under a lease time that ends earlier |
| LeaseRuns.FixedLeaseTimeKeepsLeases | src/dhcp/DhcpServer.cpp:1279-1342 | with one lease time throughout no renewal ends earlier, so only those events remain |
| LeaseRuns.DiscoverKeepsOwner | src/dhcp/DhcpServer.cpp:1296-1329 | a DISCOVER never removes or shortens an unexpired entry, and leaves one with more than the offer hold as it is |
| LeaseRuns.AckNeedsOwnership | src/dhcp/DhcpServer.cpp:752-823 | an ACK goes to the client that asked and gives it the entry for a whole lease time in 32-bit seconds; unless it is bound, the entry was its own, or absent and the address not held down |
| LeaseRuns.AcknowledgedExactlyWhen | src/dhcp/DhcpServer.cpp:752-823 | an allowed client's REQUEST to this server is acknowledged if and only if the address is one, not the server's, and has an entry or room for one, and a binding gives it to the client, or it lies in the range and its entry is the client's or, without an entry, it is not held down and the probe finds nobody or the client itself |
| LeaseRuns.AllowedExactlyWhen | src/dhcp/DhcpAllowedList.cpp:245-257 | who is served: everyone while the switch is off or the table has no storage, else the listed computers and the clients of enabled bindings |
| LeaseRuns.RequestIsAnswered | src/dhcp/DhcpServer.cpp:752-823 | a REQUEST naming another server is ignored; any other from an allowed client gets one ACK or NAK, and a NAK changes no entry |
| LeaseRuns.StepTouchesOneEntry | src/dhcp/DhcpServer.cpp:737-872 | apart from expired entries, a turn changes at most the entry of the one address its message is about |
| LeaseRuns.EntryOrigin | src/dhcp/DhcpServer.cpp:1279-1329 | an entry after a turn keeps its owner and expiry, or was just set for the allowed client that sent the message |
| LeaseRuns.ReleasedStaysFree | src/dhcp/DhcpServer.cpp:825-837 | over a run: after a RELEASE from any allowed client, owner or not, the address has no entry until a message is about it again |
| OfferRuns.RequestedChosenExactlyWhen | src/dhcp/DhcpServer.cpp:883-903 | a client is offered the address it asks for if and only if a binding gives it to the client, or it is not the server's, lies in the range, is not held down and does not answer; else what is selected for it |
| OfferRuns.OfferedExactlyWhen | src/dhcp/DhcpServer.cpp:883-923 | an allowed client's DISCOVER is answered by an OFFER of the chosen address if and only if there is one and it has an entry or there is room for one |
| OfferRuns.OfferWritesEntry | src/dhcp/DhcpServer.cpp:1296-1325 | what an offer leaves in the table: a longer entry stays, under the name given, if any; else the address is reserved for the client for 60 seconds |
| OfferRuns.TakenAddressOfferedExactlyWhen | src/dhcp/DhcpServer.cpp:878-923 | an address in another client's unexpired entry is offered if and only if the client asks for it and is bound to it, or it is in the range, not held down and not answering |
| OfferRuns.ReservationTakenOverExactlyWhen | src/dhcp/DhcpServer.cpp:878-923 | such an offer takes the entry over if and only if at most the offer hold is left of it |
| OfferRuns.TwoClientsOfferedOneAddress | src/dhcp/DhcpServer.cpp:883-923 | two clients asking for one address are both offered it |
| OfferRuns.ConfirmedAddressIsOffered | src/dhcp/DhcpServer.cpp:1296-1311 | an address confirmed to one client for an hour is offered to another |
| OfferRuns.OfferIsHonouredExactlyWhen | src/dhcp/DhcpServer.cpp:752-823 | over a run with any messages about other addresses in between: the exact condition under which a client that asks for its offered address while the offer holds is acknowledged |
| OfferRuns.EntryStays | src/dhcp/DhcpServer.cpp:737-872 | over a run, an entry no message is about stays as it is until it expires |
| OfferRuns.AcknowledgedToOneClient | src/dhcp/DhcpServer.cpp:752-823 | over a run: after an ACK and until the last minute of that lease, every ACK of the address goes to the same client, short of a RELEASE, its DECLINE, a binding for another client, or its own renewal under a lease time that ends earlier |
| OfferRuns.LastMinuteIsLost | src/dhcp/DhcpServer.cpp:1296-1319 | a run in which an address acknowledged to one client until 3600 s is acknowledged to another at 3570 s |
| OfferRuns.EntryChangesHandsExactlyWhen | src/dhcp/DhcpServer.cpp:737-923 | the exact condition under which an unexpired entry passes to another client in a turn |
| OfferRuns.NoOfferExactlyWhen | src/dhcp/DhcpServer.cpp:878-923 | for any pool, an allowed client's DISCOVER goes unanswered if and only if nothing can be chosen for it, also because the scan never ends, or what is chosen needs a new entry and the cap of unexpired entries is reached |
| OfferRuns.ExhaustedInOneNetwork | src/dhcp/DhcpServer.cpp:1128-1152 | in a pool inside one /24 the loop finds nothing if and only if no address of the pool is free |
| OfferRuns.NoneHasNoEntry | src/dhcp/DhcpServer.cpp:757-923 | no reachable table has an entry for the address 0.0.0.0 |
| OfferRuns.SelectIpPrefers | src/dhcp/DhcpServer.cpp:1109-1126 | a free bound address first, then the first in key order of the addresses the client already has, and only then the pool |
| OfferRuns.FirstBindingIsTaken | src/dhcp/DhcpServer.cpp:1112-1119 | of several bindings that would do, the first in the list is taken |
| OfferRuns.PoolChoiceIsLowestFree | src/dhcp/DhcpServer.cpp:1128-1152 | in a pool inside one /24 the scan picks the lowest address that is not the server's, has no entry, is not held down and does not answer, and gives up only when there is none |
| LeaseModel.ScanEndsExactlyWhen | src/dhcp/DhcpServer.cpp:1130-1151 | the loop ends if and only if the pool does not end in 255.255.255.255 or some address is free |
| LeaseModel.ScanCanRunForever | src/dhcp/DhcpServer.cpp:1130-1151 | with that end and every address answering, the loop runs on after any number of steps |
| OfferRuns.TurnRunsForeverExactlyWhen | src/dhcp/DhcpServer.cpp:878-1151 | a turn never ends if and only if an allowed client's DISCOVER asks for nothing it may be offered, the client has no free binding and no entry, the pool ends in 255.255.255.255 and no address is free |
| PoolScan.VisitsThePoolExactly | src/dhcp/DhcpServer.cpp:1128-1151 | the addresses the loop looks at are those of the pool, no more and no fewer, if and only if the pool lies in one /24 and its end is below 255; it looks at them in numeric order |
| PoolScan.PoolAcrossNetworksIsMissed | src/dhcp/DhcpServer.cpp:1130-1130 | a pool of 157 addresses across two networks of which the loop looks at none |
| PoolScan.VisitsAt | src/dhcp/DhcpServer.cpp:1130-1130 | the loop looks at consecutive addresses, none past the end in wire order |
| PoolScan.OrdersCompareOctets | src/dhcp/DhcpServer.cpp:1130-1158 | numeric order compares addresses from the first octet on, wire order from the last on |
| LeaseRuns.CapHolds | src/dhcp/DhcpServer.cpp:1260-1277 | with a fixed cap every reachable table has at most that many entries |
| LeaseRuns.RefusedOnlyWhenFull | src/dhcp/DhcpServer.cpp:1260-1277 | a new entry is refused exactly when that many unexpired entries are left after the purge, and no unexpired entry is lost |
| LeaseRuns.EffectiveCap | src/dhcp/DhcpServer.cpp:1233-1258 | the cap is always between 8 and 512 |
| LeaseRuns.ConfiguredCap | src/dhcp/DhcpServer.cpp:1247-1253 | a configured cap is itself between 8 and 512, and the nearer bound outside |
| LeaseRuns.AutoCapIsTwiceThePool | src/dhcp/DhcpServer.cpp:1238-1253 | for any two ends, exactly when the automatic cap is twice the pool up to the clamp, 32-bit arithmetic included; in a pool inside one /24 it always is |
| LeaseRuns.AutoCapAcrossSubnets | src/dhcp/DhcpServer.cpp:1239-1246 | a pool of 157 addresses across two networks gets a cap of 8 |
| LeaseRuns.RefusedClientsLeaveNoTrace | src/dhcp/DhcpServer.cpp:731-744 | over whole runs: with the messages of refused clients taken out, every state and every answer is the same |
| LeaseRuns.RefusedClientGainsNothing | src/dhcp/DhcpServer.cpp:1279-1342 | no turn gives a refused client an entry or more time |
| LeaseRuns.RefusedClientDrainsOut | src/dhcp/DhcpServer.cpp:1331-1342 | once the longest lifetime has passed, the next turn leaves a refused client without entries |
| LeaseRuns.RunExpiry | src/dhcp/DhcpServer.cpp:1279-1329 | no entry outlives the longest lifetime counted from the last turn |
| LeaseServer.DhcpServer.Turn | src/dhcp/DhcpServer.cpp:587-615 | the object's turn of the server loop is the step function: same table, hold-down, counter and answer |
| LeaseServer.DhcpServer.HandleMessage | src/dhcp/DhcpServer.cpp:731-872 | policy and dispatch, in place, as the step function says |
| LeaseServer.DhcpServer.SendOffer | src/dhcp/DhcpServer.cpp:878-923 | the offer decision and its reservation |
| LeaseServer.DhcpServer.AnswerRequest | src/dhcp/DhcpServer.cpp:752-823 | ACK and NAK decisions and the lease they add |
| LeaseServer.DhcpServer.ChooseIp | src/dhcp/DhcpServer.cpp:1109-1152 | the three stages of address selection; the pool loop must end only if it is reached |
| LeaseServer.DhcpServer.ScanPool | src/dhcp/DhcpServer.cpp:1128-1151 | whenever the wire-order loop ends it finds what the pool stage is defined to find |
| LeaseServer.DhcpServer.FindLease | src/dhcp/DhcpServer.cpp:1121-1126 | the client's entry that comes first in key order |
| LeaseServer.DhcpServer.FindBound | src/dhcp/DhcpServer.cpp:1112-1119 | the first enabled binding of the client whose address has no entry |
| LeaseServer.DhcpServer.ReserveOffer | src/dhcp/DhcpServer.cpp:1296-1329 | keeps a longer entry, else writes the short reservation if there is room |
| LeaseServer.DhcpServer.CanAddLeaseEntry | src/dhcp/DhcpServer.cpp:1260-1277 | room for an entry, purging a full table first |
| LeaseServer.DhcpServer.RemoveExpired | src/dhcp/DhcpServer.cpp:1331-1342 | exactly the entries whose expiry is later than now remain |
| AllowStorage.SavedListDecidesLookup | src/dhcp/DhcpAllowedList.cpp:89-241 | for any hash, the table rebuilt from a saved list finds an address exactly when one of the first 25 readable entries is enabled and names it |
| AllowStorage.SaveAndReload | src/web/RestApi.cpp:1258-1287 | save, load and rebuild through the loops: the save is refused only by a failing store, which then changes nothing, and after a save that took place the lookup answers as above |
| AllowStorage.PolicyFollowsTheTable | src/dhcp/DhcpAllowedList.cpp:245-257 | the server's policy is what the table and the enabled bindings answer |
| AllowStorage.Reload | src/dhcp/DhcpServer.cpp:527-556 | the table holds what the stored text lists |
| AllowList.ParseSerialize | src/dhcp/DhcpAllowedList.cpp:89-147 | loading a saved list gives its first 25 readable entries, address in one spelling, name settled, switch kept |
| AllowList.SecondSaveChangesNothing | src/dhcp/DhcpAllowedList.cpp:89-147 | saving and loading what was loaded changes nothing |
| AllowList.FitsTheBudget | src/dhcp/DhcpAllowedList.h:58-65 | a serialized list never exceeds 1024 bytes |
| AllowList.SurvivesStorage | src/core/Config.cpp:474-495 | the setter never refuses a serialized list for its size and changes nothing when it answers false; the reader then gets the list if the write or erase took place and lasted, else the list of before, and none from an unreadable cell |
| AllowList.FailedEraseGoesUnnoticed | src/core/Config.cpp:265-273 | a list that was to be emptied is still there after an accepted save whose erase failed |
| AllowList.LineRoundTrip | src/dhcp/DhcpAllowedList.cpp:97-145 | a written line reads back as its entry |
| AllowList.LineReads | src/dhcp/DhcpAllowedList.cpp:122-141 | for every readable address, name without a bar and flag text: a line without a third field is an enabled entry, one with it is disabled only by "0" |
| AllowList.DamagedLine | src/dhcp/DhcpAllowedList.cpp:124-142 | a line whose first field is no address is dropped, whatever follows |
| AllowList.ParseReadsLines | src/dhcp/DhcpAllowedList.cpp:113-147 | for any lines, loading their text gives the entries of the first 25 readable ones, in order |
| AllowList.OldListIsEnabled | src/dhcp/DhcpAllowedList.h:80-89 | a list of the older two-field lines is loaded with every entry enabled |
| AllowList.LongTextIsRefused | src/core/Config.cpp:483-495 | a text of more than 1024 bytes is refused and changes nothing |
| AllowList.WriteList | src/dhcp/DhcpAllowedList.cpp:89-106 | the loop writes the joined lines of the first 25 readable entries |
| AllowList.ReadList | src/dhcp/DhcpAllowedList.cpp:113-147 | the loop reads at most 25 entries, dropping damaged lines |
| AllowText.NameSettlesAfterTwo | src/dhcp/DhcpAllowedList.cpp:78-87 | a name cleaned twice is not changed by a third cleaning |
| AllowText.OnePassIsEnoughExactlyWhen | src/core/StorageText.h:30-45 | one cleaning settles a name if and only if the kept part of it does not start with a bar or end with a bar or a space |
| AllowText.OnePassIsNotEnough | src/core/StorageText.h:30-45 | a name of which one cleaning leaves a space that the next one trims |
| AllowText.StorageFieldText | src/core/StorageText.h:30-45 | the loops trim both ends and turn separators into spaces |
| AllowText.FieldTextReads | src/core/StorageText.h:30-45 | in a stored field the text is trimmed, each bar, line feed and carriage return is a space, and nothing else is changed |
| AllowText.NameIsShortened | src/dhcp/DhcpAllowedList.cpp:78-87 | a name keeps at most twenty characters of that |
| AllowText.TrimIsTrimmed | src/core/StorageText.h:32-35 | trimming leaves a part of the text with no space at either end |
| AllowText.TrimTakesSpacesOnly | src/core/StorageText.h:32-35 | a text is white space, the trimmed text, and white space |
| AllowText.MacRoundTrip | src/dhcp/DhcpAllowedList.cpp:43-67 | a printed address reads back as itself and holds no separator |
| AllowText.MacTextShows | src/dhcp/DhcpAllowedList.cpp:61-67 | a printed address shows its six octets in order, two hexadecimal digits each, with colons |
| AllowText.MacSeparatorsAreSkipped | src/dhcp/DhcpAllowedList.cpp:43-59 | colons, dashes, dots and white space may stand anywhere in an address and make no difference |
| AllowText.StrangeCharacterIsRefused | src/dhcp/DhcpAllowedList.cpp:43-59 | any other character that is no hexadecimal digit makes it unreadable |
| HexDigits.NibbleExactlyWhen | src/dhcp/DhcpAllowedList.cpp:33-39 | which characters are the digit of a value, small and capital |
| AllowText.ReadMac | src/dhcp/DhcpAllowedList.cpp:43-59 | the loop accepts exactly twelve hexadecimal digits among separators and spaces |
| AllowTable.AllowedList.Rebuild | src/dhcp/DhcpAllowedList.cpp:197-226 | the other half becomes active and is the table of the list; inserted plus skipped is the number of enabled entries; the old half is untouched |
| AllowTable.AllowedList.FillTable | src/dhcp/DhcpAllowedList.cpp:208-220 | the insertion loop, with its counts |
| AllowTable.AllowedList.Contains | src/dhcp/DhcpAllowedList.cpp:228-241 | the probe loop answers the lookup in the active half, and false without storage |
| AllowTable.AllowedList.IsClientAllowed | src/dhcp/DhcpAllowedList.cpp:245-257 | the policy, open while the switch is off or the table has no storage |
| AllowTable.AllowedList.FreeSlot | src/dhcp/DhcpAllowedList.cpp:172-182 | the first unused slot of the probe chain, or none for a duplicate or a full table |
| AllowTable.AllowedList.Init | src/dhcp/DhcpAllowedList.cpp:184-195 | both halves bound and cleared |
| AllowTable.LoadHolds | src/dhcp/DhcpAllowedList.cpp:197-226 | for any hash, the table of a list holds exactly its first 25 distinct readable enabled addresses, each found by probing |
| AllowTable.LookupAnswersMembership | src/dhcp/DhcpAllowedList.cpp:228-241 | for any hash, a lookup in a loaded table answers membership |
| AllowTable.InsertHolds | src/dhcp/DhcpAllowedList.cpp:172-220 | an insertion adds a new address, loses none, and recognises a duplicate |
| AllowTable.NotFull | src/dhcp/DhcpAllowedList.cpp:172-182 | a table with an unused slot never reports full |
| AllowTable.HashOf | src/dhcp/DhcpAllowedList.cpp:156-165 | the hash loop computes FNV-1a |
| AllowTable.HashOfFoobar | src/dhcp/DhcpAllowedList.cpp:156-165 | the published FNV-1a hash of "foobar" |
| AllowTable.HomeOfFoobar | src/dhcp/DhcpAllowedList.cpp:172-174 | an address starts at the low six bits of its hash |
| LockFreeLookup.LookupIsWholeExactlyWhen | src/dhcp/DhcpAllowedList.h:45-50 | for any lists, address, hash and content of the other half: every interleaving of a lookup with the rebuilds from the lists answers as one of the whole tables, if and only if there is at most one rebuild, or some but not all lists have the address, or none has it and it is not the zero address or no table that will be overwritten uses its first slot |
| LockFreeLookup.ListedIsFoundExactlyWhen | src/dhcp/DhcpAllowedList.cpp:197-241 | an address that every list has is found in every interleaving if and only if there is at most one rebuild |
| LockFreeLookup.UnlistedIsNotFound | src/dhcp/DhcpAllowedList.cpp:197-241 | an address in no list is never found, for any number of rebuilds; for the zero address, which a cleared slot holds, under the condition above |
| LockFreeLookup.OvertakenMisses | src/dhcp/DhcpAllowedList.cpp:204-241 | for any lists with two rebuilds to come, an interleaving in which the lookup answers no |
| LockFreeLookup.OvertakenFindsZero | src/dhcp/DhcpAllowedList.cpp:204-241 | for any lists with two rebuilds to come whose first table uses the first slot of the zero address, an interleaving in which that address is found |
| LockFreeLookup.LookupAnswersForOneList | src/dhcp/DhcpAllowedList.cpp:197-241 | beside any number of rebuilds from lists, a lookup whose half is not written while it probes answers membership in one of the lists; with one rebuild that always holds |
| LockFreeLookup.LookupAnswersAsItStarted | src/dhcp/DhcpAllowedList.cpp:228-241 | for every interleaving with any number of rebuilds, a lookup whose half is not written while it probes answers as the whole table that was active when it started |
| LockFreeLookup.LookupSeesAWholeTable | src/dhcp/DhcpAllowedList.cpp:197-241 | for every interleaving with at most one rebuild, a lookup answers as the whole old table or the whole new one |
| LockFreeLookup.ScriptLoads | src/dhcp/DhcpAllowedList.cpp:204-220 | the single writes of a rebuild, clearing and then address and flag of each entry, leave the table of the list whatever the half held |
| LockFreeLookup.TwoRebuildsCanFoolALookup | src/dhcp/DhcpAllowedList.h:45-50 | with two rebuilds from one list a lookup can miss an address of that list |
| LogRuns.RotationKeepsEveryLine | src/core/LogFileWriter.cpp:107-264 | with a card at every rotation, no ten refusals in a row and no copy broken off over an existing file: the live file and the range files hold exactly the texts of the history; its generations followed by the live file are all accepted lines in order if and only if every archive could empty the live file; then each range names the first and last stamped days of its generation |
| LogRuns.NoLineLost | src/core/LogFileWriter.cpp:163-264 | for every run: if it loses nothing, the files hold the accepted lines in order, each once, if and only if every archive could empty the live file; and if every archive could, if and only if nothing was lost |
| LogRuns.RoomIsOnlyFilled | src/core/LogFileWriter.cpp:181-183 | while the line and its newline leave the file below its cap, an append only appends: no archive attempt, no counter but the line counter |
| LogRuns.AppendRotatesExactlyWhen | src/core/LogFileWriter.cpp:181-190 | an append tries to archive or carries the tail if and only if the line does not fit and a real day is known |
| LogRuns.ResizeRotatesExactlyWhen | src/core/LogFileWriter.cpp:234-244 | a new cap does so if and only if the file is strictly over it and a real day is known |
| LogRuns.RotationBranches | src/core/LogFileWriter.cpp:192-232 | what a full log does: attempts, archives, failures in a row and carried tails in every case of card and copy |
| LogRuns.EntriesAreConserved | src/core/LogFileWriter.cpp:118-264 | for every run: entries in the files plus entries lost are entries accepted plus entries repeated, and something is lost or repeated exactly in the calls named |
| LogRuns.NoLineMissing | src/core/LogFileWriter.cpp:118-264 | a run that loses nothing holds every accepted line at least as often as it was accepted, also when archives could not empty the live file |
| LogRuns.RefusedRewriteRepeatsALine | src/core/LogFileWriter.cpp:163-170 | two appends after which a line is both archived and in the live file, and the line counter is wrong |
| LogRuns.BrokenCopyLosesALine | src/core/LogFileWriter.cpp:154-159 | three appends after which an archived line is gone |
| LogRuns.ArchivesNameTheirDays | src/core/LogFileWriter.cpp:107-214 | while no tail was carried and every archive could empty the live file, every archive is named by the days of its first and last stamped lines |
| LogRuns.NeverCarries | src/core/LogFileWriter.cpp:192-231 | with a card at every rotation and no ten refusals in a row no tail is carried, the attempt counter is the number of refusals in a row, and only a copy broken off over an existing file loses a line |
| LogRuns.LiveFileHoldsCurrent | src/core/LogFileWriter.cpp:163-264 | the live file is always exactly its entries, one per line, through archives, carried tails and refused rewrites |
| LogRuns.RangeFilesHoldGenerations | src/core/LogFileWriter.cpp:118-161 | each range file is the concatenation of its generations, through broken copies and refused rewrites |
| LogRuns.ArchiveSurvivesExactlyWhen | src/core/LogFileWriter.cpp:142-160 | a rotation keeps all archived text if and only if it is not a copy that broke off over an existing range file |
| LogRuns.RangesNameTheirDays | src/core/LogFileWriter.cpp:192-231 | with every line stamped, an archive's range runs from the day of one of its lines to the day of its last line, also after carried tails and refused rewrites |
| LogRuns.CountersStayRight | src/core/LogFileWriter.cpp:163-232 | the archive counter counts the copies that completed; the line counter is right if and only if the last archive not followed by a rewrite could empty the live file |
| LogRuns.LiveFileStaysSmall | src/core/LogFileWriter.cpp:181-232 | the live file stays below the cap plus nine lines, and ten more for each rewrite refused since the last one that succeeded, whatever mix of archives, refusals and missing cards |
| LogRuns.TraceFollowsTheWriter | src/core/LogFileWriter.cpp:234-264 | the traced log is what the writer's calls make of it |
| LogRotation.LogFileWriter.Append | src/core/LogFileWriter.cpp:246-264 | the object's append is the function the theorems are about |
| LogRotation.LogFileWriter.RotateIfNeeded | src/core/LogFileWriter.cpp:181-232 | archive, retry and carry branches, in place |
| LogRotation.LogFileWriter.SetMaxBytes | src/core/LogFileWriter.cpp:234-244 | a smaller cap rotates a file strictly over it |
| LogRotation.LogFileWriter.RewriteLive | src/core/LogFileWriter.cpp:163-179 | the fresh content and its line count |
| LogRotation.LogFileWriter.ArchiveToCard | src/core/LogFileWriter.cpp:118-161 | the loops over the folder chain and the chunks: a completed copy appends the whole live file to the range file, a broken one removes it, a refused one changes nothing |
| LogRotation.CopyEndsExactlyWhen | src/core/LogFileWriter.cpp:118-160 | a copy is refused if and only if a folder or a file is missing, and completes if and only if besides every chunk of 1024 bytes and the close succeed |
| LogRotation.LogFileWriter.RememberStamp | src/core/LogFileWriter.cpp:107-116 | the first and last real days |
| LogFormat.LogTail | src/core/LogFileFormat.h:232-250 | the backward loop finds the last lines of any text, with or without a final newline |
| LogFormat.TailKeepsLastLines | src/core/LogFileFormat.h:232-250 | of a file of whole lines the tail is exactly the last of them |
| LogFormat.TailClosesLastLine | src/core/LogFileFormat.h:232-250 | a last line without its newline counts as a line and is closed |
| LogFormat.RangeNameInjective | src/core/LogFileFormat.h:160-166 | two archives share a folder only when their first and last days agree |
| LogFormat.RangeNameReads | src/core/LogFileFormat.h:160-166 | the folder name reads back as the year, month and day of the first and the last day, with its dots and dash |
| ErrorLog.EveryLossIsReportedOnce | src/core/ErrorLogCore.cpp:102-152 | over any run of submits and drain turns, written notices, the counter and 2^32 for each time it went around are all failed pushes and refused appends; they are all losses if and only if it never went around, and then a notice is due exactly when the counter is positive |
| ErrorLog.CounterGoesAround | src/core/ErrorLogCore.cpp:110-114 | for a queue of any capacity: 2^32 pushes more than it holds leave the counter at zero with a notice due |
| ErrorLog.LinesArriveInOrder | src/core/ErrorLogCore.cpp:102-152 | entries leave the queue in the order they came, and the target holds those it accepted, in that order |
| ErrorLog.TurnWrites | src/core/ErrorLogCore.cpp:128-147 | one turn writes the notice before the line, each if the target takes it, and counts what it refuses |
| ErrorLog.DrainIsTurns | src/core/ErrorLogCore.cpp:117-152 | a drain is one turn per waiting entry |
| ErrorLog.ErrorLogCore.Drain | src/core/ErrorLogCore.cpp:117-152 | the loop empties the queue, turn by turn, and counts what it wrote |
| ErrorLog.ErrorLogCore.SubmitLine | src/core/ErrorLogCore.cpp:102-115 | a line is queued, or counted as lost |
| DnsName.DecodesToLabels | src/dhcp/DnsMessage.cpp:48-69 | a name spelled with at most 8 backward pointers decodes to its labels joined by dots, one with more to nothing |
| DnsName.SkipsTheName | src/dhcp/DnsMessage.cpp:26-46 | skipping lands just past the name where it starts |
| DnsName.DecodedWasSpelled | src/dhcp/DnsMessage.cpp:48-69 | whatever decodes to something is a spelled name with at most 8 pointers |
| DnsName.SkipStaysInside | src/dhcp/DnsMessage.cpp:26-46 | on any bytes a skip fails or moves forward inside the buffer |
| DnsName.DecodedIsRootedExactlyWhen | src/dhcp/DnsMessage.cpp:48-69 | whatever decodes to a name spells its labels, and was terminated by the root label if and only if the loop stopped inside the buffer |
| DnsName.RootedExactlyWhen | src/dhcp/DnsMessage.cpp:48-69 | the same for every spelled name with at most 8 pointers |
| DnsName.SkippedIsRootedExactlyWhen | src/dhcp/DnsMessage.cpp:26-46 | a name without pointers was terminated if and only if it can be skipped |
| DnsName.UnterminatedNameIsAccepted | src/dhcp/DnsMessage.h:81-86 | a name cut off by the buffer's end is decoded but not skipped |
| DnsName.UnterminatedPointerIsAccepted | src/dhcp/DnsMessage.h:75-86 | behind a pointer a name cut off by the buffer's end is decoded and skipped |
| DnsName.WrittenIsSpelled | src/dhcp/DnsMessage.cpp:48-69 | written labels followed by the root or a pointer are a spelled name |
| DnsName.TargetReads | src/dhcp/DnsMessage.cpp:33-40 | a pointer names the 14 bits behind its marker |
| DnsName.WrittenPointerContinues | src/dhcp/DnsMessage.cpp:48-69 | labels followed by the two bytes of a pointer decode to the labels and then the name at the offset the bytes name, and skipping ends behind them |
| DnsName.CharsAreBytes | src/dhcp/DnsMessage.cpp:65-67 | the characters of a decoded label are its bytes, in order |
| DnsName.ForwardPointerIsRefused | src/dhcp/DnsMessage.cpp:33-60 | a pointer that does not point backwards is refused by both loops, whatever labels stand before it |
| DnsName.DamagedLabelIsRefused | src/dhcp/DnsMessage.cpp:31-64 | so are a cut pointer, a length byte from 64 to 191, and a label that runs past the buffer |
| DnsName.ReadName | src/dhcp/DnsMessage.cpp:48-69 | the loop ends on any bytes, reads only inside the buffer, and computes the decoding |
| DnsName.SkipName | src/dhcp/DnsMessage.cpp:26-46 | the loop ends on any bytes, reads only inside the buffer, and computes the skip |
| PtrProbe.ResponseYieldsTarget | src/dhcp/PtrProbe.cpp:71-98 | a response with our id, the response bit, no error and the two counts in its header bytes, of questions, records of other types and a PTR record, yields the PTR target; without one, nothing |
| PtrProbe.TruncatedRecordYieldsNothing | src/dhcp/PtrProbe.cpp:87-94 | a response whose next record does not fit the buffer yields nothing |
| PtrProbe.TruncatedQuestionYieldsNothing | src/dhcp/PtrProbe.cpp:80-85 | a response whose questions do not fit yields nothing |
| PtrProbe.HeaderReads | src/dhcp/DnsMessage.cpp:8-24 | the header bytes give the two counts if and only if the id is the one asked for, the response bit is set and the error code is zero |
| PtrProbe.ShortMessageIsNothing | src/dhcp/DnsMessage.cpp:11-11 | a message shorter than a header answers nothing |
| PtrProbe.QueryNamesTheAddress | src/dhcp/PtrProbe.cpp:24-69 | the query has its id, the recursion bit and one question, which decodes to the reverse name of the address and of no other, followed by type PTR and class IN |
| PtrProbe.ReverseNameText | src/dhcp/PtrProbe.cpp:49-64 | the reverse name is the four octets from the last to the first, then in-addr.arpa |
| PtrProbe.ReverseNameInjective | src/dhcp/PtrProbe.cpp:24-69 | two addresses never share a reverse name |
| PtrProbe.BuildQuery | src/dhcp/PtrProbe.cpp:24-69 | no query for no address or broadcast, else the reverse-name question, always within the limit |
| PtrProbe.ParseResponse | src/dhcp/PtrProbe.cpp:71-98 | the walk over questions and records on any bytes |
| Md5.DigestOfChunks | src/core/Md5.cpp:121-183 | however a message is cut into updates, the text is the digest of the whole message |
| Md5.Stream.Update | src/core/Md5.cpp:121-149 | after an update the stream stands for everything fed so far |
| Md5.Stream.Hex | src/core/Md5.cpp:151-183 | the digest of everything fed, padded as sections 3.1 and 3.2 of RFC 1321 ask; the stream is not changed |
| Md5.ProcessBlock | src/core/Md5.cpp:86-119 | the loop that rotates its variables computes the 64 operations of section 3.4 of RFC 1321, where the operand roles rotate |
| Md5.WordIndexIsOrder | src/core/Md5.cpp:93-106 | the computed word index follows the listed order of message words |
| Md5.CodeFIsDefinition | src/core/Md5.cpp:95-107 | the four round expressions are the functions F, G, H and I |
| Md5.PadLength | src/core/Md5.cpp:164-165 | the padding length is the one that leaves 56 bytes modulo 64 |
| Md5Answers.DigestOfNothing | src/core/Md5.cpp:86-183 | the digest of the empty message is the one in section A.5 of RFC 1321 |
| Md5Answers.WordIsLowByteFirst | src/core/Md5.cpp:57-63 | a message word is its four bytes, least significant first |
| Md5Answers.CountIsLowByteFirst | src/core/Md5.cpp:168-171 | the length bytes make up the 64-bit count, least significant first |
| Md5Answers.WordBytesRead | src/core/Md5.cpp:65-71 | the bytes written for a word make up the word, least significant first |
| Md5Answers.ByteReads | src/core/Md5.cpp:176-182 | each byte of the digest is two hexadecimal digits, the high one first |
| Ip6Text.TextIsCanonicalAndReversible | src/core/IpText.h:47-98 | "::" stands where the gap was and nowhere else, and reading the text gives the same sixteen bytes |
| Ip6Text.Write | src/core/IpText.h:55-98 | the printer's text is the rendering with the leftmost longest gap, and reads back |
| Ip6Text.FindGap | src/core/IpText.h:63-81 | the scan finds the leftmost longest run of two or more zero groups, or none |
| Ip6Text.WriteGroups | src/core/IpText.h:83-96 | the loop writes groups, colons and the gap |
| Ip6Text.GapIsUnique | src/core/IpText.h:47-54 | the groups determine the gap, so an address has one text |
| Ip6Text.GapInPlainTerms | src/core/IpText.h:63-82 | the gap is the leftmost longest run of two or more zero groups, and there is none if and only if no two zero groups meet |
| Ip6Text.GroupIsPlain | src/core/IpText.h:93-95 | a group has no leading zeros and no upper-case digit |
| Ip6Text.DocumentationAddress | src/core/IpText.h:47-98 | the text of 2001:db8::1 |
| AtomicFile.FileIsAlwaysComplete | src/core/AtomicFile.cpp:25-50 | through any run of saves cut anywhere and recovered, the file is a complete version: the last one whose old file was gone |
| AtomicFile.CrashLeavesAVersion | src/core/AtomicFile.h:19-29 | a cut save and a recovery leave the previous or the new version, and touch no other file |
| AtomicFile.SafeExactlyWhenPresent | src/core/AtomicFile.cpp:42-50 | every cut is harmless if and only if the volume already held a complete version |
| AtomicFile.FirstSaveCanTear | src/core/AtomicFile.cpp:42-50 | a first save cut while its part was being written is recovered torn |
| AtomicFile.RefusedPublishChangesNothingExactlyWhen | src/core/AtomicFile.h:38-46 | a refused publish leaves the volume untouched if and only if there was no part, no old file, or the old file could not be removed |
| AtomicFile.RefusedRenameLosesTheOldFile | src/core/AtomicFile.cpp:37-39 | a volume on which a refused publish removes the old file |
| AtomicFile.RefusedPublishIsRecoverable | src/core/AtomicFile.cpp:25-50 | for every refused publish: only the old file can be gone, and exactly what a recovery then finds |
| AtomicFile.FileStore.Publish | src/core/AtomicFile.cpp:25-40 | remove and rename, with every refusal |
| AtomicFile.PublishedExactlyWhen | src/core/AtomicFile.cpp:25-40 | a publish answers true if and only if there is a part, an old file can be removed, and the rename succeeds; then the file is the part |
| AtomicFile.SaveEnds | src/core/AtomicFile.h:19-29 | a save that is not cut leaves the new version and no part; cut before the rename it leaves the finished part and no file |
| AtomicFile.FileStore.Recover | src/core/AtomicFile.cpp:42-50 | a missing file is restored from its part, a present one untouched |
| AtomicFile.PartPathInjective | src/core/AtomicFile.cpp:12-15 | two files never share a part |

## Left out

- LeaseServer.DhcpServer.ScanPool: requires that the loop ends, because the source's loop does not when the pool ends in 255.255.255.255 and no address is free.
- LogRotation.LogFileWriter.Append: a write of the new line that fails leaves nothing of it in the file; a line written only in part is not modelled.
- ErrorLog.EveryLossIsReportedOnce: the wording and stamp of a notice and the race of two tasks on the counter are not modelled.
- AllowTable.AllowedList.Init: storage is two separate arrays; a failed allocation is the unbound list.
- AtomicFile.FileIsAlwaysComplete: remove and rename happen wholly or not at all and fail only by a crash.
- Packet layout and the option walk, the bytes of OFFER, ACK and NAK, and the choice of DNS server and router: the model starts from a parsed message.
- ARP and ICMP probing, sockets, tasks and lwIP: an arbitrary answer per turn stands for the probes.
- The clean-up of hostnames, and REST and file logging of DHCP events.
- Md5 over a file: only the chunked digest is modelled, not opening and reading.
- The paths of an archive, stamps as text, message formatting and clamping, IPv4 text, the address form of the policy: one-branch text or plumbing that would only add easy members.
- Web server, settings store beyond one text cell, time, SSH, DNS cache, Ethernet driver and user interface.
