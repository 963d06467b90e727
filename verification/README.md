# Verification of the TP-Link Easy Smart integration

A Dafny model of the parts of the integration that hold logic over unbounded data and unbounded runs,
with proofs of what they promise. `dafny verify dfyconfig.toml` verifies all of it.

- **Configuration planner** (`Bits`, `Ports`, `QVlan`, `QVlanRuns`, `Pvid`, `Lag`, `Mirror`, `Qos`). The
  client reads firmware masks and arrays, widens port selections to whole static LAGs, checks them, and
  sends forms. Each page has a switch object beside it that applies exactly the fields each form names, so
  that a write can be followed by a read. Every `set` method is proved equal to a function of the page
  before it; the lemmas are about that function: when it accepts, why it refuses, what a fresh read then
  shows, and what every run of calls keeps.
- **Discovery** (`Cipher`, `KnownRequest`, `Tlv`, `Escp`, `Collection`). The stream cipher that permutes its table in
  place, the 32-byte header, the record loop, the acceptance rules, and the bounded collection loop with
  its sort.
- **Session** (`Session`, `SessionMachine`). The client object with its authentication flag and a ghost
  trace of exchanges; and any number of concurrent calls as steps between two awaits, where the release of
  the lock and the invalidation that may follow it are one step. The same call automaton describes both, and what
  it means is stated over the exchanges alone.
- **Statistics** (`Statistics`). 32-bit counters that wrap and restart, and packet conservation over runs.
- **Coordinator and services** (`Coordinator`, `Services`). The capability latch, the statistics poller,
  and the service count over config entries that fail, roll back and unload.

Where behaviour differs from what a reader may expect:

- docs/services.md:80-81 says that every port must remain in at least one VLAN. The code checks this only
  when VLAN 1 is written. `QVlanRuns.DeleteCanOrphan` is a run of one accepted delete that breaks the
  sentence; `StepCoverage` and `RunCoverage` say exactly when it does hold.
- A LAG group whose window has fewer than two ports can never be set (`Lag.GroupIsUsableWhen`).
- The two LAG expansions differ on negative group numbers (`Ports.TrunkExpansionsAgree`), and so does the
  cached QoS state from a fresh read (`Qos.CacheMatchesFreshRead`).
- A restart from a counter at or above the wrap threshold overcounts (`Statistics.RestartOvercountsWhen`).
  The pages do not enforce that counters fit 32 bits; the delta and run lemmas take it as a precondition.

Errors are values of `Results.Result`. `Ok` carries the result, `Err` the exception's kind and, for a refused
action, the reason. A page is the parsed variable of the switch: integers and lists. Functions named `Try...`,
`Upsert` and `Remove` are the specifications of the methods of the client. Python's integers are unbounded, and so are
`int` and `Bits.Bit` here.

## Model

| member | source | states |
|---|---|---|
| `Bits.BitIsShift` | custom_components/tplink_easy_smart/client/tplink_api.py:166-174 | the recursive bit test is the shift-and-mask test of the mask decoder, for every integer, negative ones included |
| `Bits.BitsOfSetBit` | custom_components/tplink_easy_smart/client/tplink_api.py:177-182 | or-ing one bit in sets that bit and leaves every other bit alone |
| `Ports.EncodePortMask` | custom_components/tplink_easy_smart/client/tplink_api.py:177-182 | the loop that ors the bits in yields the mask function that the other mask lemmas are about |
| `Ports.BitsOfMask` | custom_components/tplink_easy_smart/client/tplink_api.py:177-182 | bit k of an encoded mask is set exactly when port k + 1 was listed, duplicates and order aside |
| `Ports.MaskBound` | custom_components/tplink_easy_smart/client/tplink_api.py:177-182 | the mask of ports 1..n is below 2^n |
| `Ports.DecodeOfEncode` | custom_components/tplink_easy_smart/client/tplink_api.py:166-182 | decode(encode(ps), n) is the sorted distinct ps, cut off at n |
| `Ports.EncodeOfDecode` | custom_components/tplink_easy_smart/client/tplink_api.py:166-182 | encode(decode(m, n)) is m mod 2^n for every integer m |
| `Ports.ValidatePorts` | custom_components/tplink_easy_smart/client/tplink_api.py:198-210 | accepted exactly when all ports lie in 1..port_count and the selection is non-empty or may be empty; the result is the sorted distinct selection |
| `Ports.RefusedPorts` | custom_components/tplink_easy_smart/client/tplink_api.py:198-210 | a refusal is for an empty selection, or names exactly the ports out of range |
| `Ports.ReadTrunkGroups` | custom_components/tplink_easy_smart/client/tplink_api.py:843-848 | a missing LAG column reads as no LAGs, a short one is refused, a long one is cut to the ports |
| `Ports.ExpandTrunkPortsInPlace` | custom_components/tplink_easy_smart/client/tplink_api.py:213-224 | the form that adds to a set port by port computes the same list as the specification |
| `Ports.ExpandMembers` | custom_components/tplink_easy_smart/client/tplink_api.py:213-224 | the expansion holds exactly the selected ports and the ports that share a LAG with one |
| `Ports.ExpandIsClosedSuperset` | custom_components/tplink_easy_smart/client/tplink_api.py:213-224 | extensive and closed: the result is sorted, distinct, in range, LAG-closed and contains the selection |
| `Ports.RefusedExpansion` | custom_components/tplink_easy_smart/client/tplink_api.py:213-224 | an expansion is refused for exactly the ports out of range |
| `Ports.ExpandIsLeast` | custom_components/tplink_easy_smart/client/tplink_api.py:213-224 | every LAG-closed set that contains the selection contains the result |
| `Ports.ExpandIsMonotone` | custom_components/tplink_easy_smart/client/tplink_api.py:213-224 | a larger selection has a larger expansion |
| `Ports.ExpandIsIdempotent` | custom_components/tplink_easy_smart/client/tplink_api.py:213-224 | expanding an expansion changes nothing |
| `Ports.ExpandOfClosed` | custom_components/tplink_easy_smart/client/tplink_api.py:213-224 | the LAG-closed selections are fixed points, up to sorting |
| `Ports.PortsForTrunkMembers` | custom_components/tplink_easy_smart/client/tplink_api.py:1035-1042 | the QoS expansion of one port: the port, and all ports of its non-zero group number |
| `Ports.TrunkExpansionsAgree` | custom_components/tplink_easy_smart/client/tplink_api.py:213-224 | on one port the two expansions agree if and only if the port does not share a negative group number, the one case in which `> 0` and `!= 0` differ (1035-1042) |
| `QVlan.Get8021qVlans` | custom_components/tplink_easy_smart/client/tplink_api.py:822-864 | the page is readable exactly when its counts are positive enough and its columns long enough, and else a data format error; enabled flag, port count, VLAN limit and each LAG entry are those of the page, 0 without a LAG column |
| `QVlan.ReadRow` | custom_components/tplink_easy_smart/client/tplink_api.py:849-863 | each row reads as its id, its name, and exactly the ports of its two masks |
| `QVlan.ValidNameCodes` | custom_components/tplink_easy_smart/client/tplink_api.py:888-892 | a name is valid when it has at most ten characters and each is a digit, a letter, an underscore or a hyphen, by character code |
| `QVlan.FillSelTypes` | custom_components/tplink_easy_smart/client/tplink_api.py:924-927 | the loop that fills in `selType_p` writes 1 for tagged, 0 for untagged, 2 otherwise, for every port |
| `QVlan.Upsert8021qVlan` | custom_components/tplink_easy_smart/client/tplink_api.py:875-928 | the method changes the switch exactly as the specification says, and a refused call changes nothing |
| `QVlan.Delete8021qVlan` | custom_components/tplink_easy_smart/client/tplink_api.py:930-940 | the same for a delete |
| `QVlan.ConflictMeansOverlap` | custom_components/tplink_easy_smart/client/tplink_api.py:893-897 | the expanded selections overlap exactly when a port, or a LAG, was put on both sides |
| `QVlan.UpsertIsAcceptedWhen` | custom_components/tplink_easy_smart/client/tplink_api.py:875-917 | an upsert is accepted if and only if a condition on its arguments holds; one that passes the other checks is refused exactly when it is for VLAN 1 and some port would be in no VLAN, and the error names exactly those ports |
| `QVlan.RefusedUpsert` | custom_components/tplink_easy_smart/client/tplink_api.py:883-917 | a refusal names the first check that fails, in the order of the code, and the ports it lists are exactly those out of range, on both sides, or left without a VLAN |
| `QVlan.DecodeOfWrittenMask` | custom_components/tplink_easy_smart/client/tplink_api.py:166-182 | the `selType_p` fields, stored over any old masks and decoded, are exactly the tagged and the untagged ports |
| `QVlan.UpsertThenRead` | custom_components/tplink_easy_smart/client/tplink_api.py:875-928 | write then read: the table is the old one with exactly the LAG-expanded requested VLAN put in, every other VLAN, the limits and the LAG map unchanged |
| `QVlan.UpsertForm` | custom_components/tplink_easy_smart/client/tplink_api.py:918-928 | the form of an accepted upsert carries the id, the name, and per port 1, 0 or 2, by whether the port or a port of its entry in the page's LAG column was named as tagged or untagged |
| `QVlan.UpsertOverPages` | custom_components/tplink_easy_smart/client/tplink_api.py:875-928 | the same over the raw pages: in the row of the id, or in a new one, the bits of both masks are exactly the named ports and the ports sharing a positive `lagIds` entry with one; all other rows and columns are as they were |
| `QVlan.DeleteThenRead` | custom_components/tplink_easy_smart/client/tplink_api.py:930-940 | a delete is accepted if and only if the VLAN is listed and is not VLAN 1, and removes that row alone |
| `QVlan.RefusedDelete` | custom_components/tplink_easy_smart/client/tplink_api.py:930-936 | VLAN 1 is refused first, then an id that is not listed |
| `QVlan.DeleteOverPages` | custom_components/tplink_easy_smart/client/tplink_api.py:930-940 | over the raw pages: the first row of the id is gone, the rows after it move up, nothing else changes |
| `QVlanRuns.PutPosition` | custom_components/tplink_easy_smart/client/tplink_api.py:898-928 | an upsert rewrites the row of its id or appends one, and moves no other row |
| `QVlanRuns.StepKeepsTable` | custom_components/tplink_easy_smart/client/tplink_api.py:875-940 | one call keeps: distinct ids in 1..4094 (the VID range of section 9.6 of IEEE 802.1Q-2018), VLAN 1, the size limit, tagged and untagged disjoint, in range and LAG-closed; and it makes no VLAN empty |
| `QVlanRuns.RunKeepsTable` | custom_components/tplink_easy_smart/client/tplink_api.py:875-940 | every run of upserts and deletes keeps that invariant and the LAG map |
| `QVlanRuns.HeldAfterStep` | custom_components/tplink_easy_smart/client/tplink_api.py:903-940 | which ports some VLAN holds after an accepted call, in terms of the table before it and the arguments |
| `QVlanRuns.DefaultVlanUpsertCovers` | custom_components/tplink_easy_smart/client/tplink_api.py:903-917 | an accepted upsert of VLAN 1 leaves every port in some VLAN, whatever the table was |
| `QVlanRuns.StepCoverage` | custom_components/tplink_easy_smart/client/tplink_api.py:903-940 | from a covered table, an accepted call leaves every port in some VLAN if and only if it is an upsert of VLAN 1 or every port it gives up is held by another VLAN |
| `QVlanRuns.RunCoverage` | custom_components/tplink_easy_smart/client/tplink_api.py:903-940 | coverage holds all along a run if and only if each accepted call met that condition when it was made |
| `QVlanRuns.DeleteOrphans` | custom_components/tplink_easy_smart/client/tplink_api.py:930-940 | every delete of the last VLAN of a port is accepted and leaves the port in no VLAN |
| `QVlanRuns.DeleteCanOrphan` | custom_components/tplink_easy_smart/client/tplink_api.py:930-940 | a concrete covered two-port table on which deleting VLAN 2 is accepted and orphans port 2, against docs/services.md:80-81 |
| `Pvid.GetPvids` | custom_components/tplink_easy_smart/client/tplink_api.py:942-972 | when the page is readable, and that every field read is the page's: flag, PVIDs, ids, member masks and LAG entries |
| `Pvid.SetPvid` | custom_components/tplink_easy_smart/client/tplink_api.py:974-995 | the method, with its mask-building loop, changes the switch exactly as the specification says |
| `Pvid.PvidIsAcceptedWhen` | custom_components/tplink_easy_smart/client/tplink_api.py:974-990 | accepted if and only if the mode is on, the VLAN is listed and every selected port and every LAG partner of one is a member of it |
| `Pvid.RefusedPvid` | custom_components/tplink_easy_smart/client/tplink_api.py:974-990 | a refusal names the first check that fails; the ports listed are exactly those out of range, or the non-members of the closure |
| `Pvid.PvidMask` | custom_components/tplink_easy_smart/client/tplink_api.py:987-995 | the mask sent decodes to the LAG closure of the selection, a LAG-closed set inside the VLAN |
| `Pvid.SetPvidThenRead` | custom_components/tplink_easy_smart/client/tplink_api.py:974-995 | write then read: exactly the ports of the closure change, to the requested VLAN |
| `Pvid.SetPvidOverPages` | custom_components/tplink_easy_smart/client/tplink_api.py:974-995 | over the raw pages: the PVID of a port changes, to the requested VLAN, exactly when the port or one sharing a positive `lagIds` entry was named, and all those are in the mask of the first row of the VLAN |
| `Pvid.StepKeepsPvids` | custom_components/tplink_easy_smart/client/tplink_api.py:974-995 | one call keeps PVIDs equal within each LAG and owned by each port, and changes nothing else |
| `Pvid.RunKeepsPvids` | custom_components/tplink_easy_smart/client/tplink_api.py:974-995 | every run of calls keeps that invariant |
| `Lag.GetLags` | custom_components/tplink_easy_smart/client/tplink_api.py:645-678 | when the page is readable, its limits, and one list a group id |
| `Lag.ReadGroup` | custom_components/tplink_easy_smart/client/tplink_api.py:665-672 | each group reads as exactly the ports flagged in its own array, in order |
| `Lag.SetLag` | custom_components/tplink_easy_smart/client/tplink_api.py:680-701 | the method changes the switch exactly as the specification says, and a refused call changes nothing |
| `Lag.DeleteLag` | custom_components/tplink_easy_smart/client/tplink_api.py:703-711 | the same for a delete |
| `Lag.WindowIsOwner` | custom_components/tplink_easy_smart/client/tplink_api.py:690-695 | a port lies in the window of group g exactly when (p - 1) / k + 1 is g, so windows partition the ports |
| `Lag.SetLagIsAcceptedWhen` | custom_components/tplink_easy_smart/client/tplink_api.py:680-696 | accepted if and only if the group exists and 2 to k distinct ports, all of its window, are named; the members are the sorted distinct ports |
| `Lag.RefusedLag` | custom_components/tplink_easy_smart/client/tplink_api.py:680-696 | a refusal names the first check that fails, in the order of the code |
| `Lag.GroupIsUsableWhen` | custom_components/tplink_easy_smart/client/tplink_api.py:690-695 | some selection is accepted for a group if and only if the switch has two ports in its window |
| `Lag.SetLagThenRead` | custom_components/tplink_easy_smart/client/tplink_api.py:680-701 | write then read: the group holds exactly the requested ports, every other group is as before |
| `Lag.DeleteLagThenRead` | custom_components/tplink_easy_smart/client/tplink_api.py:703-711 | accepted for every existing group id, in use or not, and refused for any other; empties that group alone |
| `Lag.HolderIsOwner` | custom_components/tplink_easy_smart/client/tplink_api.py:680-711 | only the owner of a port can hold it, so groups are pairwise disjoint |
| `Lag.StepKeepsLags` | custom_components/tplink_easy_smart/client/tplink_api.py:680-711 | one call keeps every group empty or with 2 to k ports of its own window |
| `Lag.RunKeepsLags` | custom_components/tplink_easy_smart/client/tplink_api.py:680-711 | every run keeps that, and a port can only ever belong to the group whose window contains it |
| `Mirror.GetPortMirror` | custom_components/tplink_easy_smart/client/tplink_api.py:541-579 | when the page is readable, and that every field read is the page's: flag, destination if it is a port, both source lists, LAG entries |
| `Mirror.SetPortMirror` | custom_components/tplink_easy_smart/client/tplink_api.py:581-643 | the method, one form a source port, changes the switch exactly as the specification says |
| `Mirror.MirrorIsAcceptedWhen` | custom_components/tplink_easy_smart/client/tplink_api.py:589-628 | an enable is accepted if and only if the destination is in range and no source, there is a source, and no LAG member is involved; the ports rewritten are the old and the new sources |
| `Mirror.RefusedMirror` | custom_components/tplink_easy_smart/client/tplink_api.py:589-617 | a refusal names the first check that fails; the ports listed are exactly those out of range in the first selection that has any |
| `Mirror.SourcesAfter` | custom_components/tplink_easy_smart/client/tplink_api.py:629-643 | after n source forms the ports of those forms have the wanted flags and all others their old ones |
| `Mirror.EnableThenRead` | custom_components/tplink_easy_smart/client/tplink_api.py:581-643 | for every earlier mirror state, arrays longer than the port count included, an accepted enable ends with exactly the requested destination, ingress set and egress set |
| `Mirror.DisableThenRead` | custom_components/tplink_easy_smart/client/tplink_api.py:589-595 | a disable is always accepted and changes the enabled flag alone |
| `Qos.GetQos` | custom_components/tplink_easy_smart/client/tplink_api.py:997-1021 | when the page is readable, which mode each number is, and that priorities and groups are the page's |
| `Qos.SetQosPriority` | custom_components/tplink_easy_smart/client/tplink_api.py:1044-1054 | the method changes the switch exactly as the specification says |
| `Qos.PriorityIsAcceptedWhen` | custom_components/tplink_easy_smart/client/tplink_api.py:1044-1050 | accepted if and only if the mode is port-based, the priority is 1 to 4 and the port exists |
| `Qos.RefusedPriority` | custom_components/tplink_easy_smart/client/tplink_api.py:1044-1050 | a refusal names the first check that fails, in the order of the code |
| `Qos.PriorityForm` | custom_components/tplink_easy_smart/client/tplink_api.py:1050-1054 | the form names the queue counted from 0, and exactly the port and the ports of its non-zero group |
| `Qos.SetPriorityThenRead` | custom_components/tplink_easy_smart/client/tplink_api.py:1035-1054 | write then read: the port and the ports of its non-zero group have the priority, no other port changed |
| `Qos.QosCache.Refresh` | custom_components/tplink_easy_smart/update_coordinator.py:623-629 | the in-place loop over the cached priorities rewrites exactly the entries of the specification |
| `Qos.AsyncSetQosPriority` | custom_components/tplink_easy_smart/update_coordinator.py:620-630 | the write comes first; a refused write leaves switch and cache alone |
| `Qos.CacheMatchesFreshRead` | custom_components/tplink_easy_smart/update_coordinator.py:620-630 | a cache equal to the switch still equals a fresh read after an accepted write if and only if the group number is not negative or its other ports had the priority already |
| `Qos.TouchedIsExpansion` | custom_components/tplink_easy_smart/update_coordinator.py:625-629 | the loop touches exactly the LAG expansion of the port |
| `Qos.RunKeepsCacheFresh` | custom_components/tplink_easy_smart/update_coordinator.py:620-630 | with non-negative group numbers the cache equals a fresh read after every run of writes |
| `Cipher.BitsOfXor` | custom_components/tplink_easy_smart/client/discovery.py:67-77 | the arithmetic exclusive or has exactly the bits that differ |
| `Cipher.Round` | custom_components/tplink_easy_smart/client/discovery.py:70-73 | one round in place: j moves on by the entry at index + 1 modulo 256, those two entries are exchanged, all others are kept |
| `Cipher.CryptInPlace` | custom_components/tplink_easy_smart/client/discovery.py:67-77 | the loop over both arrays computes the data combined with the keystream that `RoundLaw` and `KnownVector` fix |
| `Cipher.RoundLaw` | custom_components/tplink_easy_smart/client/discovery.py:71-76 | what byte n does, over table, position and data: j is the old j plus the entry at n + 1, the two entries are exchanged and all others kept, and the output is the data byte xor the entry at the sum of the two |
| `KnownRequest.KnownVector` | tests/test_discovery.py:53-57 | the request of client 02:00:00:00:00:01 with sequence 1 is exactly the 36 encrypted bytes of the known vector |
| `KnownRequest.EveryByteOccurs` | custom_components/tplink_easy_smart/client/discovery.py:27-36 | the protocol table holds every byte, so it is a permutation of 0..255 |
| `Cipher.CryptIsInvolution` | custom_components/tplink_easy_smart/client/discovery.py:67-77 | encrypting twice gives the data back, for every length and every table |
| `Cipher.KeystreamIgnoresData` | custom_components/tplink_easy_smart/client/discovery.py:67-77 | the keystream read off one message is the one read off any other |
| `Cipher.CryptOfPrefix` | custom_components/tplink_easy_smart/client/discovery.py:67-77 | encrypting a prefix is the prefix of the encryption |
| `Cipher.TableStaysPermutation` | custom_components/tplink_easy_smart/client/discovery.py:67-77 | after any number of rounds the table is a permutation of the one it started from |
| `Cipher.CryptTwice` | custom_components/tplink_easy_smart/client/discovery.py:26-77 | the involution for the protocol table |
| `Tlv.ReadValues` | custom_components/tplink_easy_smart/client/discovery.py:168-180 | the loop terminates and fails exactly when the payload does not split into records; its dictionary is last-wins over them |
| `Tlv.RecordLayout` | custom_components/tplink_easy_smart/client/discovery.py:172-180 | the wire form of a record: type and length as 16-bit numbers in network order, then the value |
| `Tlv.RecordsDecompose` | custom_components/tplink_easy_smart/client/discovery.py:168-180 | a payload is accepted exactly when it is a concatenation of records, and reads as that list |
| `Tlv.SerializeIsInjective` | custom_components/tplink_easy_smart/client/discovery.py:168-180 | the decomposition is unique |
| `Tlv.LastWinsMeaning` | custom_components/tplink_easy_smart/client/discovery.py:180 | the dictionary has exactly the types that occur, each with the value of its last record |
| `Escp.HeaderLayout` | custom_components/tplink_easy_smart/client/discovery.py:16-17 | the header fields are at the offsets and widths of the format, in network order |
| `Escp.RequestLayout` | custom_components/tplink_easy_smart/client/discovery.py:80-99 | the request of any client, decrypted, field by field; only an address that is not six bytes is refused |
| `Escp.UnpackOfPack` | custom_components/tplink_easy_smart/client/discovery.py:85-98 | unpacking a packed header gives the header back |
| `Escp.PackOfUnpack` | custom_components/tplink_easy_smart/client/discovery.py:144-156 | packing an unpacked header gives the 32 bytes back |
| `Escp.CString` | custom_components/tplink_easy_smart/client/discovery.py:102-104 | the text is the longest prefix without a NUL |
| `Escp.FormatMacIsInjective` | custom_components/tplink_easy_smart/client/discovery.py:113-117 | different addresses have different formatted MACs |
| `Escp.FormatMacDigits` | custom_components/tplink_easy_smart/client/discovery.py:113-117 | six pairs of upper-case hexadecimal digits, high digit first, with colons between them |
| `Escp.UsableMacRange` | custom_components/tplink_easy_smart/client/discovery.py:113-116 | as 48-bit numbers, all addresses but the least and the greatest are usable |
| `Escp.ValidHostRanges` | custom_components/tplink_easy_smart/client/discovery.py:120-128 | as 32-bit numbers, all hosts but 0.0.0.0, 224.0.0.0/4 and 127.0.0.0/8 are usable (section 3.2.1.3 of RFC 1122, section 4 of RFC 1112) |
| `Escp.ParseDiscoveryResponse` | custom_components/tplink_easy_smart/client/discovery.py:131-208 | the method, with the in-place cipher and the record loop, computes the function that `ResponseFields` and `AcceptedIsResponse` describe |
| `Escp.ResponseParsesToItsFields` | custom_components/tplink_easy_smart/client/discovery.py:131-208 | every well-formed encrypted response for this client and sequence comes down to its own header address and records |
| `Escp.ResponseFields` | custom_components/tplink_easy_smart/client/discovery.py:131-208 | over the records: a response is accepted if and only if its address is usable, its last type 3 record agrees, some host is usable and the model is not empty; then model, name, firmware and hardware are the text up to the first NUL of the last record of type 1, 2, 7 and 8, the name falls back to the model, firmware and hardware are there exactly when their type is, and the host is the last type 4 value if usable, else the sender |
| `Escp.AcceptedIsResponse` | custom_components/tplink_easy_smart/client/discovery.py:131-208 | conversely, every accepted datagram is the encryption of such a response, and the switch is described by its records |
| `Escp.AcceptedBytes` | custom_components/tplink_easy_smart/client/discovery.py:140-166 | the decrypted bytes of an accepted datagram: version 1, operation 2, this client and sequence, no error, its own length, no fragment, and the end marker |
| `Escp.ResponseIsInjective` | custom_components/tplink_easy_smart/client/discovery.py:131-208 | no two responses share a datagram |
| `Escp.AcceptedMacIsHeaderMac` | custom_components/tplink_easy_smart/client/discovery.py:182-208 | the MAC of an accepted response is the formatted header MAC, whatever record 3 says |
| `Escp.AcceptedIsUsable` | custom_components/tplink_easy_smart/client/discovery.py:182-208 | a response is identified if and only if its MAC, host and model are usable, and then its host is not unspecified, loopback or multicast (section 3.2.1.3 of RFC 1122, section 4 of RFC 1112); hosts at 120-128 |
| `Escp.EchoIsRejected` | custom_components/tplink_easy_smart/client/discovery.py:80-99 | our own request, echoed back, is rejected by every scan |
| `Collection.KeyLessIsOrder` | custom_components/tplink_easy_smart/client/discovery.py:275-277 | the sort key orders the entries totally, up to equal keys |
| `Collection.StringLessMeaning` | custom_components/tplink_easy_smart/client/discovery.py:275-277 | strings compare by their first difference, a prefix being less |
| `Collection.SortedByModelNameMac` | custom_components/tplink_easy_smart/client/discovery.py:275-277 | in a result models ascend, names within a model, and MACs within a name |
| `Collection.AscendingIsUnique` | custom_components/tplink_easy_smart/client/discovery.py:275-277 | a strictly ascending list is determined by its elements |
| `Collection.SortedKeepsDistinct` | custom_components/tplink_easy_smart/client/discovery.py:275-277 | sorting entries of distinct MACs gives a strictly ascending list of distinct MACs |
| `Collection.Discover` | custom_components/tplink_easy_smart/client/discovery.py:257-277 | the loop stops at 64 entries or at the end of what arrives, and returns the sorted dictionary of the replies it consumed |
| `Collection.HoldsLastReplies` | custom_components/tplink_easy_smart/client/discovery.py:258-273 | the dictionary holds exactly the last accepted reply of each MAC |
| `Collection.ScanResult` | custom_components/tplink_easy_smart/client/discovery.py:257-277 | the result is strictly sorted, has distinct MACs and at most 64 entries, and holds exactly the last accepted reply of each MAC among those consumed |
| `Collection.ScanOfDatagrams` | custom_components/tplink_easy_smart/client/discovery.py:257-277 | over the datagrams: of those consumed, all unless 64 switches were found, the result holds for each MAC the last one that came from port 29808 and was accepted, sorted |
| `Collection.ArrivalOrderIsIrrelevant` | custom_components/tplink_easy_smart/client/discovery.py:257-277 | with at most 64 switches each answering once the result is the same for every order of the replies |
| `Collection.ScanIgnoresOrder` | custom_components/tplink_easy_smart/client/discovery.py:257-277 | the same for datagrams, other traffic included |
| `Session.LoginSucceedsWhen` | custom_components/tplink_easy_smart/client/coreapi.py:371-419 | a logon reply authenticates if and only if it is a readable 200 page whose first logon item is "0" |
| `Session.LoginFailsWhen` | custom_components/tplink_easy_smart/client/coreapi.py:383-434 | for each reason, exactly which replies fail a login for it |
| `Session.PathVerdictMeaning` | custom_components/tplink_easy_smart/client/coreapi.py:219-234 | which replies are authorised, which unauthorised, and which each kind of error |
| `Session.AuthenticatedMeaning` | custom_components/tplink_easy_smart/client/coreapi.py:269-281 | the flag means: some login succeeded, and no login, invalidation or disconnect came after it |
| `Session.TpLinkWebApi.InvalidateAuthentication` | custom_components/tplink_easy_smart/client/coreapi.py:269-271 | clears the flag, keeps the session |
| `Session.TpLinkWebApi.Exchange` | custom_components/tplink_easy_smart/client/coreapi.py:283-341 | one request and its reply, or a failure and no request without a session |
| `Session.TpLinkWebApi.RefreshSession` | custom_components/tplink_easy_smart/client/coreapi.py:343-352 | a session is created only when there is none |
| `Session.TpLinkWebApi.Authenticate` | custom_components/tplink_easy_smart/client/coreapi.py:354-434 | one login exchange; the flag afterwards is its verdict |
| `Session.TpLinkWebApi.EnsureInitialized` | custom_components/tplink_easy_smart/client/coreapi.py:277-281 | no request when a login stands, else one login exchange and its verdict |
| `Session.TpLinkWebApi.RequestWithRetry` | custom_components/tplink_easy_smart/client/coreapi.py:450-469 | the request of a call, once more after one login if it is refused, as the call automaton has it |
| `Session.TpLinkWebApi.Call` | custom_components/tplink_easy_smart/client/coreapi.py:436-505 | over the trace alone: the call starts with the path exactly when the flag was set; it goes on exactly after a successful login, with the path, and after a first refusal, with a login; Returned, Raised and AuthFailed are what the last exchange says, and StillUnauthorised means exactly two refusals |
| `Session.TpLinkWebApi.Apply` | custom_components/tplink_easy_smart/client/tplink_api.py:269-295 | applied is reported for a return or a swallowed disconnect, which is followed at once by an invalidation; the trace before it is that of a call |
| `Session.TpLinkWebApi.ApplyThenInvalidate` | custom_components/tplink_easy_smart/client/tplink_api.py:348-354 | the trace is that of a call, closed by an invalidation exactly when the write is reported as applied |
| `Session.TpLinkWebApi.Disconnect` | custom_components/tplink_easy_smart/client/coreapi.py:534-546 | an own session is closed, an injected one only detached; either way the client is unauthenticated |
| `Session.CallIsShort` | custom_components/tplink_easy_smart/client/coreapi.py:436-505 | a call is at most four whole exchanges of its own |
| `Session.OutcomeOfCall` | custom_components/tplink_easy_smart/client/coreapi.py:436-505 | every run of the call automaton starts, goes on and ends as its replies say, whichever attempt it is |
| `Session.PathAtMostTwice` | custom_components/tplink_easy_smart/client/coreapi.py:436-505 | a call sends its path at most twice, the second time only after an unauthorised reply and a successful login |
| `Session.LastExchangeOfApplied` | custom_components/tplink_easy_smart/client/tplink_api.py:269-295 | a call that returns or is cut off had its own path request as its last exchange, answered or cut off |
| `Session.LoginDisconnectFails` | custom_components/tplink_easy_smart/client/coreapi.py:421-434 | a disconnect during a login is an authentication failure |
| `SessionMachine.RunKeepsInv` | custom_components/tplink_easy_smart/client/coreapi.py:277-505 | the invariant of the lock, the flag and the trace holds in every state that any number of concurrent calls can reach |
| `SessionMachine.CallsNeverInterleave` | custom_components/tplink_easy_smart/client/coreapi.py:436-505 | between two events of one call there is no event of another |
| `SessionMachine.FinishedCallsConform` | custom_components/tplink_easy_smart/client/coreapi.py:436-505 | a finished call did what the sequential client does from the state that it found, in one stretch of the trace |
| `SessionMachine.FinishedCallsEndAs` | custom_components/tplink_easy_smart/client/coreapi.py:436-505 | in every run, over the trace alone: which request a finished call began with, after which replies it went on, and that its outcome is what its last reply and the number of refusals say |
| `SessionMachine.LockIsReleased` | custom_components/tplink_easy_smart/client/coreapi.py:436-505 | in every run four replies, whatever they are, end the call that holds the lock and release it |
| `SessionMachine.WaitingCallsCanFinish` | custom_components/tplink_easy_smart/client/coreapi.py:436-505 | while the lock is free any waiting call can take it, and four replies end that call |
| `SessionMachine.PathIsSentAtMostTwice` | custom_components/tplink_easy_smart/client/coreapi.py:436-505 | in every run a call, finished or not, sends its path a second time only after an unauthorised reply and a successful login |
| `SessionMachine.PathsAreAuthenticated` | custom_components/tplink_easy_smart/client/coreapi.py:277-281 | in every run each path request is sent when the latest login succeeded and nothing has invalidated it since |
| `SessionMachine.AppliedWritesWereAnswered` | custom_components/tplink_easy_smart/client/tplink_api.py:269-295 | in every run a write is reported applied only if its own path request was its last exchange and was authorised or cut off |
| `SessionMachine.LoginDisconnectIsNeverApplied` | custom_components/tplink_easy_smart/client/tplink_api.py:269-295 | in every run a write cut off during a login is not reported applied |
| `SessionMachine.InvalidationForcesLogin` | custom_components/tplink_easy_smart/client/tplink_api.py:269-295 | in every run the first request after an invalidation, of any call, is a login |
| `Statistics.DeltaIsNonNegative` | custom_components/tplink_easy_smart/client/statistics.py:13-19 | for 32-bit counters the delta lies in 0..2^32-1 |
| `Statistics.DeltaIsExactWhen` | custom_components/tplink_easy_smart/client/statistics.py:9-19 | the delta is right for every starting counter if and only if at most 429496730 packets were sent: the bound is tight |
| `Statistics.RestartOvercountsWhen` | custom_components/tplink_easy_smart/client/statistics.py:13-19 | after a restart the delta exceeds the truth if and only if the drop is mistaken for a wrap |
| `Statistics.ByNumberMeaning` | custom_components/tplink_easy_smart/client/statistics.py:35 | the dictionary holds exactly the listed numbers, each with the last item of that number |
| `Statistics.RatesMeaning` | custom_components/tplink_easy_smart/client/statistics.py:35-65 | over two lists of items: a port has a rate exactly when it is in both and time has passed, and rate times elapsed is the delta of the counters that its last items show |
| `Statistics.RateCalculator.Update` | custom_components/tplink_easy_smart/client/statistics.py:31-65 | the method, with its two loops, returns the rates that `RatesMeaning` describes and stores the new sample |
| `Statistics.PpsTimesElapsed` | custom_components/tplink_easy_smart/client/statistics.py:48-64 | a rate times the elapsed time is the counter delta |
| `Statistics.MbpsIsBits` | custom_components/tplink_easy_smart/client/statistics.py:48-64 | the megabit estimates are the packet rates times the assumed packet size in bits |
| `Statistics.ContributionOfPoll` | custom_components/tplink_easy_smart/client/statistics.py:31-65 | one poll accounts for exactly the packets of its interval, or at most those when a restart happened |
| `Statistics.RunConservesPackets` | custom_components/tplink_easy_smart/client/statistics.py:31-65 | over any run of polls, failed ones included, whose lists show what was sent, the sum of rate times elapsed equals the packets sent, across any number of wraps, and with restarts from below the threshold never exceeds them |
| `Coordinator.Feature.Update` | custom_components/tplink_easy_smart/update_coordinator.py:455-468 | the poller assigns flag and state as the latch function says, and asks the API exactly when support is not False (the same code at 470-528) |
| `Coordinator.LatchMeaning` | custom_components/tplink_easy_smart/update_coordinator.py:455-528 | support is False exactly when a missing member, an unreadable page or HTTP 404 came before any success, True exactly when a success came first; the cached state is that of the latest poll, present exactly when it succeeded |
| `Coordinator.LatchIsPermanent` | custom_components/tplink_easy_smart/update_coordinator.py:455-528 | False is permanent, True never reverts |
| `Coordinator.RefusalStopsPolling` | custom_components/tplink_easy_smart/update_coordinator.py:455-528 | once support is False no further poll is made, and until then every cycle polls |
| `Coordinator.StatisticsPoller.Update` | custom_components/tplink_easy_smart/update_coordinator.py:344-368 | a failed poll clears the published rates and leaves the stored sample; a good one feeds the calculator |
| `Services.Hass.ChangeCount` | custom_components/tplink_easy_smart/services.py:542-546 | the counter never goes below zero |
| `Services.Hass.AsyncSetupServices` | custom_components/tplink_easy_smart/services.py:549-586 | the registration loop, with its undo loop on failure, changes the shared data as the specification says |
| `Services.Hass.AsyncUnloadServices` | custom_components/tplink_easy_smart/services.py:589-598 | the removal loop does too |
| `Services.SetupCounts` | custom_components/tplink_easy_smart/services.py:549-586 | setup counts its entry and registers all services, or, failing at any position, leaves count and services as they were |
| `Services.UnloadCounts` | custom_components/tplink_easy_smart/services.py:589-598 | unload uncounts its entry and removes the services with the last one |
| `Services.StepKeepsInv` | custom_components/tplink_easy_smart/__init__.py:45-98 | every step of any entry keeps the invariant |
| `Services.ServicesFollowEntries` | custom_components/tplink_easy_smart/__init__.py:45-98 | in every interleaving of setups, failing at any step, and unloads, the count is the number of entries past service setup and not past service unload, and the services are all registered when it is positive and none when it is zero; a coordinator is stored exactly between its storing and its removal |
| `Services.SetupEndsLoaded` | custom_components/tplink_easy_smart/__init__.py:45-74 | an entry whose steps succeed ends loaded with its coordinator stored, whatever other entries do in between |
| `Services.FailedRefreshEndsNotLoaded` | custom_components/tplink_easy_smart/__init__.py:48-52 | a failed first refresh leaves nothing of the entry behind |
| `Services.FailedSetupEndsNotLoaded` | custom_components/tplink_easy_smart/__init__.py:60-73 | a failed forwarding or registration is rolled back until nothing of the entry is left |
| `Services.UnloadEnds` | custom_components/tplink_easy_smart/__init__.py:88-98 | an unloaded entry ends not loaded without a coordinator; if its platforms do not unload it stays loaded |

## Left out

- HTTP, UDP and asyncio: requests, replies and arrivals are arbitrary values; timeouts, cancellation, socket
  setup, and the limits on queued datagrams and on datagram size are not modelled.
- Text work: script and variable regexes, json5, `urlencode`, and `int()` conversion of page values, with the
  `_decode_port_mask` fallback for values that are no integers. The character decoding of discovery texts is a function parameter.
- Dotted-quad text: host addresses are four bytes, and `_valid_host` is the three ranges that it refuses.
- The switch is a model: it applies exactly the fields a form names, appends the row of a new VLAN, and
  deletes the first row of an id. Duplicate ids read from a page resolve to the first row, in writes and PVID lookups.
- The object of the planner: the client class keeps no planner state, so its `get`/`set` pairs are functions
  and methods over the switch object. That a write goes through the session is modelled in `Session` alone.
- Mirror.SetPortMirror: does not model a failure between two forms or what the switch does in between; only the
  final state is claimed, since the new destination may still be an old source until it is cleared.
- Session.TpLinkWebApi.Call: models `get` and `post` as one method, since they differ only in the request sent;
  the text returned to the caller is not modelled.
- SessionMachine.RunKeepsInv: does not model `disconnect` or an `authenticate` from outside a call running beside
  other calls, which take no lock; `disconnect` is modelled on the single client object.
- Statistics.RunConservesPackets: uses exact reals, so the rounding of the float rates is not modelled.
- Services.ServicesFollowEntries: does not model exceptions raised while platforms are unloaded or the client is
  disconnected during a rollback.
- MTU VLAN, port-based VLAN, bandwidth, storm control, PoE, port settings and cable test: checks and mappings
  without a loop or a run property, which would add only easy members.
- LED, cable test, IGMP and loop prevention pollers: their setters change the flag or the state without a poll, so
  the latch theorem does not hold for them as stated.
- Entities, config flow, schemas, translations, credentials, logging, and the random client MAC and sequence.
