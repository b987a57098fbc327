# Verified model of the VPN-hiding backend

The backend hides VPN interfaces from applications on Android. A controller turns a JSON
configuration into a binary policy, a kernel module decodes and publishes it, hooks answer
system calls by it, and a daemon reports owned ports and keeps a history of interceptions.
This project models the parts with the most state and arithmetic in Dafny and proves what
they promise. `dafny verify dfyconfig.toml` checks all of it.

What is modelled, file by file:

- `PortRules`, `PolicyResolve`, `HookMasks`: the compiler from configuration to targets, port
  rules and hook masks, with the complement that allowlist mode needs.
- `PolicyWire`, `PolicyPack`, `PolicyDecode`, `PolicySnapshot`, `PolicyEndToEnd`: the bytes of
  the policy, the packer, the decoder, the readers, and the path through all of them. The main
  result, `PolicyEndToEnd.LoadPolicy`, says that the published snapshot blocks and hides for
  every UID, port and protocol exactly what the configuration means, and that loading fails
  exactly when a rule is malformed or the size that the configuration determines is too large.
- `Connecting`: the two hooks that refuse a connect, from the address of the destination to the
  answer. Policy and ownership meet here: over every run, `Connecting.StrangerIsRefused` and
  `Connecting.OwnSocketIsReached` say which connects are refused and which never are.
- `JsonTable`, `JsonText`, `JsonCodec`: the JSON library: the hash table of an object through
  every add, replace, remove and growth, and the round trip of documents.
- `SeqCounter`: the lock-free read of a cache slot, as a state machine over single loads and
  stores of a writer, a reader and a publication that clears the slot store by store.
- `Endpoints`, `OwnedSnapshot`, `PendingCache`, `OwnPorts`: who owns a port: the list of the
  daemon, the table in the kernel, the set-associative cache, and all of it over every run of
  binds, updates, publications and time.
- `PortStats`, `UidStats`, `PortTotals`, `StatsDelta`, `StatsRing`: the counters in the kernel,
  their rebuild on publication, how the totals of UIDs and the counts of ports relate, and the
  history in the daemon.
- `TokenBucket`: the per-UID limiter of UDP sends.
- `ByteWalk`, `CmsgWalk`, `LineFilter`, `Ifconf`, `TrafficViews`: rewriting what applications
  read: control messages, lines of kernel files, interface records, traffic counters.
- `Types`, `Sorting`, `Probing`, `Sums`, `Wrapping`: shared definitions.

Hash functions are parameters about which nothing is assumed, so every table result holds for
every hash, colliding ones included. Time is a parameter. The kernel's `sort()` and `qsort()`
are library code: any sorted permutation satisfies what is proved, and an insertion sort stands
in for them. Masking by a power of two less one is modelled as a remainder, which
`Probing.MaskIsHome` justifies.

Where the code does not do what one would expect, the project proves when it does:

- `SeqCounter.ClearAcceptsTorn`, `SeqCounter.OverlapAcceptsMixture`: publishing clears the
  slots and their sequence counters store by store, so a reader that looks before and after a
  clear, or within one, can accept a record that was never written. If no clear overlaps the
  read, and with fewer than 2^31 writes, an accepted read is whole.
- `TokenBucket.LongIdleIsRefused`: the refill is cut to 32 bits, so a bucket can stay empty
  after about two hours and 23 minutes without a send. `TokenBucket.AdmittedExactly` gives the
  exact condition for every call of every run, `TokenBucket.GapIsAdmitted` the gaps after which
  a call is always admitted. The upper bound on sends holds for all gaps and for readings out of
  order, except more than 213 days into a run: `TokenBucket.StepBackRefills`.
- `StatsRing.StepBackKeepsStale`: retention looks only at the front of the ring, so a wall clock
  that steps back keeps stale points. `StatsRing.ExactMeansForward`: retention is exact exactly
  with a clock that never steps back.
- `PortTotals.PortDeltaIsSum`: `kmod/STATS_CONTRACT.md` says that the port total of a UID equals
  the sum over its ports. It does exactly when the table of UIDs and the port table missed as
  many of its accesses. `PortTotals.PortZeroSplits` and `PortTotals.FullTableSplits` show one
  input for each table.
- `PendingCache.SameTickEvicts`: a bound endpoint can be evicted by one later recording of its
  tick. `PendingCache.SurvivorAnswers`: it is safe with at most four recordings since its tick
  began.
- `StatsDelta.ZeroRowMeans`: the same document says that points hold only non-zero rows. A UID
  that is new and has counted nothing is the exception, and the only one.
- `TrafficViews.ViewsAgree`, `TrafficViews.Conserved`, `TrafficViews.BatchConserved`: single and
  batch lookups differ exactly on a cover interface that is itself a VPN. Both conserve totals
  exactly when the hidden bytes can move to a cover row, which for single lookups must not be
  hidden itself. A comment in the batch function says that it treats rows as
  the single lookup does; batches of more than 4096 rows are left as they are.
- `UidStats.ReconcileKeeps`: a publication keeps the counters of every UID that the policy
  covers, except those behind the first 4096.
- `OwnPorts.DaemonAgrees`: kernel and daemon classify every bound socket alike except one on
  the mapped IPv4 wildcard, which only the kernel takes as local.
- `LineFilter.LastNameExactly`: the scan for a name at the end of a line skips a carriage
  return and then copies it into the name, unless the name is as long as names get.

## Model

| member | source | states |
|---|---|---|
| `PortRules.ResolveNamedPortRules` | kmod/vpnhide_policy.c:99-196 | fails exactly when a selected rule is malformed; otherwise the compiled ranges match a port and protocol exactly when an enabled rule names it for the application, and the full range stands in only when the caller asks for it and no rule applies |
| `PortRules.SelectedApplies` | kmod/vpnhide_policy.c:150-190 | the rules the two passes select (own rules, then mass rules) are exactly the enabled entries that name the application |
| `PortRules.PortRuleAllows` | kmod/vpnhide_policy.c:198-209 | the scan answers whether any allowed range covers the port and protocol |
| `PortRules.ComplementRules` | kmod/vpnhide_policy.c:214-278 | the 65537-step scan yields sorted, disjoint, non-mergeable ranges whose protocol class at every port is the class left open by the allowed rules |
| `PortRules.ComplementBlocks` | kmod/vpnhide_policy.c:214-278 | the complement blocks a port and protocol exactly when the allowed rules do not match it |
| `PortRules.NormalIsCanonical` | kmod/vpnhide_policy.c:226-276 | two such range lists with the same class at every port are equal, so the emitted ranges are the maximal ones |
| `PortRules.NormalCounts` | kmod/vpnhide_policy.c:226-276 | such a list has exactly one range for every run of ports of one class |
| `PortRules.ComplementCounts` | kmod/vpnhide_policy.c:214-278 | in allowlist mode an application with rules gets one blocking rule for each run of ports that its rules leave unnamed in the same way |
| `PolicyResolve.ResolveOne` | kmod/vpnhide_policy.c:326-388 | the target compiled for one application has the mode and rules whose blocking is what the configuration means for it in either list mode |
| `PolicyResolve.ResolvePortRules` | kmod/vpnhide_policy.c:326-388 | fails exactly when a rule of a listed application is malformed; otherwise there is exactly one target for each listed UID, taken from its first application, and it means what the configuration says |
| `PolicyResolve.AddUidDistinct` | kmod/vpnhide_policy.c:80-97 | adds a non-zero UID once and keeps the vector free of repeats |
| `PolicyResolve.ResolveTargets` | kmod/vpnhide_policy.c:280-324 | both vectors are free of repeats and hold exactly the UIDs that the applications select for that layer |
| `HookMasks.AppendMask` | kmod/vpnhide_ctl.c:91-112 | appends a mask unless its UID already has one |
| `HookMasks.BuildMasks` | kmod/vpnhide_ctl.c:383-425 | one mask for each UID with an override, computed from its first application that overrides anything |
| `HookMasks.MasksImplement` | kmod/main.c:379-440 | in a snapshot that holds these masks the effective kernel mask of a UID is exactly the one the configuration gives it: exceptions in allowlist mode, overrides otherwise, the global mask without override, port hooks always on |
| `HookMasks.JavaImplements` | kmod/main.c:1566-1577 | the status report lists a Java mask for exactly the UIDs that override it, and the one the configuration gives them |
| `PolicyPack.PolicyAddSize` | kmod/vpnhide_ctl.c:114-124 | size_t accumulation succeeds exactly when the true sum fits, and is then the true sum |
| `PolicyPack.CheckedSize` | kmod/vpnhide_ctl.c:141-156 | the five checked additions succeed exactly when the payload is at most the limit, and give its exact size |
| `PolicyPack.PackPolicyV4` | kmod/vpnhide_ctl.c:126-208 | fails exactly when the payload exceeds the limit; otherwise every byte is the encoding of the flattened policy |
| `PolicyPack.FillPorts` | kmod/vpnhide_ctl.c:191-201 | the nested loop fills the target and the rule sections completely, and nothing before them changes |
| `PolicyPack.BubbleSort` | kmod/vpnhide_ctl.c:72-83 | sorts the array in place and keeps its multiset of UIDs |
| `PolicyWire.Header4RoundTrip` | kmod/include/vpnhide.h:281-298 | decoding the version 4 header gives back every field, whatever follows it |
| `PolicyWire.Header3RoundTrip` | kmod/include/vpnhide.h:263-276 | decoding the version 3 header gives back every field, whatever follows it |
| `PolicyWire.BodyRoundTrip` | kmod/include/vpnhide.h:234-276 | the five sections, encoded and placed one behind the other, decode to the same lists |
| `PolicyDecode.ValidateSection` | kmod/main.c:1021-1031 | accepts exactly a section that starts at the cursor and ends within the payload, and returns the new cursor; the 64-bit overflow checks refuse nothing else |
| `PolicyDecode.ValidateSections` | kmod/main.c:1047-1060 | accepts exactly when the five sections follow the header without gap and end at the payload size |
| `PolicyDecode.CheckTargets` | kmod/main.c:1104-1121 | accepts exactly when every target is well formed and the rule segments are contiguous and cover the rule array; sorts each segment and nothing else |
| `PolicyDecode.CheckMasks` | kmod/main.c:1130-1140 | accepts exactly when every mask is well formed, and adds the mandatory hook bits |
| `PolicyDecode.DecodeV3` | kmod/main.c:1033-1170 | accepts exactly the well-formed payloads; the snapshot holds the payload, sorted for lookup, in include mode |
| `PolicyDecode.DecodeV4` | kmod/main.c:1227-1280 | accepts exactly the well-formed version 4 payloads; the snapshot holds the payload with its three match modes |
| `PolicyDecode.RebaseBody` | kmod/main.c:1260-1271 | moving every section by the header difference reads the same records |
| `PolicySnapshot.AcceptedIsOk` | kmod/main.c:1104-1170 | every accepted snapshot is fit for its readers: strictly sorted keys, valid records, rule segments that partition the rules and are sorted, mandatory bits set |
| `PolicySnapshot.PermutedPartitions` | kmod/main.c:1142-1164 | sorting the targets keeps the partition of the rules |
| `PolicySnapshot.UidMatchesMode` | kmod/main.c:607-630 | the binary search decides membership by mode for eligible UIDs and refuses every other UID |
| `PolicySnapshot.IsHookActive` | kmod/main.c:408-440 | the binary search answers by the override of the UID if there is one, else by the global mask; the two port hooks are active whenever a policy is published |
| `PolicySnapshot.FindPortTarget` | kmod/main.c:1292-1318 | finds the listed target, or the deny-all target exactly for eligible unlisted UIDs of an inverted policy |
| `PolicySnapshot.ShouldBlockPort` | kmod/hooks_socket.c:873-893 | the scan with early exit decides as a scan of the whole segment |
| `PolicyEndToEnd.PackedIsAccepted` | kmod/vpnhide_ctl.c:126-208 | a packed policy is accepted by the decoder exactly when it is well formed, and decodes to itself |
| `PolicyEndToEnd.PortBlocked` | kmod/hooks_socket.c:895-957 | the lookup and scan block exactly the ports that the snapshot means to block for the UID |
| `PolicyEndToEnd.TargetDecides` | kmod/main.c:1104-1121 | after packing, decoding and sorting a target decides every port and protocol as before |
| `PolicyEndToEnd.PortsImplement` | kmod/hooks_socket.c:873-957 | for every UID, port and protocol the decoded snapshot blocks exactly what the configuration means, in both list modes, listed or not |
| `PolicyEndToEnd.DecodedImplements` | kmod/main.c:1033-1318 | the same for the native layer, the Java layer, and the kernel and Java hook masks of every UID |
| `PolicyEndToEnd.BuildPolicy` | kmod/vpnhide_ctl.c:350-456 | resolving a configuration fails exactly when a rule of a listed application is malformed |
| `PolicyEndToEnd.TransferPolicy` | kmod/main.c:1227-1290 | packing and decoding a resolved policy fails exactly when it is too large; the snapshot is well formed and implements the configuration |
| `PolicyEndToEnd.SizeIsSpecified` | kmod/vpnhide_ctl.c:141-156 | the payload of a resolved policy has the size that the configuration determines: the UIDs of each layer, the listed and the overriding UIDs, and the rules of the first application of each listed UID |
| `PolicyEndToEnd.LoadPolicy` | kmod/vpnhide_ctl.c:327-488 | the whole path from configuration to published snapshot succeeds exactly when every rule of a listed application is well formed and the size computed from the configuration is within the limit, and the result implements the configuration |
| `Connecting.DirectConnect` | kmod/hooks_socket.c:895-957 | from the destination address, the socket type, the published policy and the ownership cache: refuses exactly when the target the destination names, mapped IPv4 rewritten, is local, blocked for the caller and not owned by it |
| `Connecting.ConnectEntry` | kmod/hooks_socket.c:966-1080 | the system-call hook, with its own order of tests, refuses exactly the same connects |
| `Connecting.RefusesExactly` | kmod/hooks_socket.c:873-1080 | under a policy that implements a configuration a connect is refused exactly when its destination is local, the configuration blocks it for the caller, and the caller does not own it |
| `Connecting.StrangerIsRefused` | kmod/hooks_socket.c:873-1080 | over every run a connect to a local endpoint that the configuration blocks is refused if neither the endpoint nor its wildcard was recorded within its time to live or is in the latest unexpired list |
| `Connecting.OwnSocketIsReached` | kmod/main.c:180-260 | whatever the policy, a caller is never refused a connect to a socket that it bound within the time to live of the recording, unless another policy was published or more than four recordings share its set from the tick of the bind on |
| `Connecting.ListedSocketIsReached` | kmod/main.c:180-344 | nor to an endpoint of the latest unexpired list of the daemon |
| `JsonTable.JsonObject.constructor` | kmod/parson.c:440-453 | a new object is empty, valid and without cells |
| `JsonTable.JsonObject.Sized` | kmod/parson.c:455-495 | an object made with a power-of-two capacity is empty and valid and has that many cells |
| `JsonTable.JsonObject.GetCellIx` | kmod/parson.c:555-584 | probing finds a key exactly when it is present; otherwise it ends at the cell where the key belongs |
| `JsonTable.JsonObject.GetValue` | kmod/parson.c:622-638 | returns the value of the key in the map, or nothing |
| `JsonTable.JsonObject.GrowAndRehash` | kmod/parson.c:525-553 | keeps names, values and their order, and makes room |
| `JsonTable.JsonObject.Add` | kmod/parson.c:586-620 | refuses a present key and changes nothing; otherwise appends the entry, growing when full, and keeps the index valid |
| `JsonTable.JsonObject.SetValue` | kmod/parson.c:2084-2125 | the map is updated at the key; the order of names changes only by a new name at the end |
| `JsonTable.JsonObject.Remove` | kmod/parson.c:640-698 | removes exactly the key from the map, the last item taking its place, and keeps the index valid; a missing key changes nothing |
| `JsonTable.JsonObject.Clear` | kmod/parson.c:2291-2308 | empties the map and keeps the table size |
| `JsonTable.RepairRun` | kmod/parson.c:681-696 | the backward shift after a removal restores the rule that no entry sits behind an empty cell, for every hash function |
| `JsonTable.CloseHole` | kmod/parson.c:681-696 | when the next cell is empty no entry of the run depends on the hole |
| `JsonTable.GrownIsPower` | kmod/parson.c:525-553 | growing keeps the capacity a power of two and raises the number of items it takes |
| `JsonText.SerializeString` | kmod/parson.c:1290-1355 | the loop writes the escaped string and counts exactly what it writes |
| `JsonText.SkipQuotes` | kmod/parson.c:787-805 | stops at the closing quote that is not escaped |
| `JsonText.ProcessString` | kmod/parson.c:856-911 | the loop unescapes as the recursive definition does, surrogate pairs included, and fails on the same inputs |
| `JsonText.ProcessEscaped` | kmod/parson.c:856-911 | unescaping undoes escaping for every byte string, with either slash setting |
| `JsonText.QuotedRoundTrip` | kmod/parson.c:913-922 | a serialized string is read back with its exact contents and leaves the following text |
| `JsonCodec.SizeExact` | kmod/parson.c:1146-1288 | the dry run without a buffer predicts exactly the number of bytes written, compact and pretty |
| `JsonCodec.RoundTrip` | kmod/parson.c:924-1121 | every value printed at any level parses back from any nesting depth if the nesting limit allows, with keys in order, and fails otherwise |
| `JsonCodec.TextRoundTrip` | kmod/parson.c:1383-1391 | a document parses back to the same tree exactly when its depth is at most 2048, compact and pretty |
| `SeqCounter.StepKeepsInv` | kmod/main.c:128-160 | every single load and store of the writer, the reader and a clearing publication keeps the invariant |
| `SeqCounter.AcceptedIsWhole` | kmod/main.c:128-257 | in every interleaving an accepted read is the latest completed write, whole, if no publication overlaps the read and fewer than 2^31 writes fall between the two looks at the counter |
| `SeqCounter.WrapAcceptsTorn` | kmod/main.c:249-257 | with exactly 2^31 writes between them a torn read is accepted: the bound is sharp |
| `SeqCounter.ClearAcceptsTorn` | kmod/main.c:1197-1201 | a publication between the two looks clears the counter, and one write later a torn read is accepted |
| `SeqCounter.OverlapAcceptsMixture` | kmod/main.c:1197-1201 | a read that falls within one clear is accepted with the old owner and expiry and a cleared address, a record that was never written |
| `Endpoints.KeyOrders` | daemon/owned_ports.c:128-139 | the sort key orders entries as the comparison does, by the fields in turn and then by the address bytes, and only equal entries compare equal |
| `Endpoints.Dedupe` | daemon/owned_ports.c:160-167 | the compaction loop keeps exactly one copy of each entry, in strict order |
| `Endpoints.ReportedAcceptable` | daemon/owned_ports.c:9-66 | every endpoint the daemon reports passes the check of the kernel |
| `Endpoints.BuildList` | daemon/owned_ports.c:141-176 | fails exactly when too many endpoints are found; otherwise the list holds exactly the reported endpoints, once each, all acceptable |
| `OwnedSnapshot.Contains` | kmod/main.c:162-178 | probing finds an endpoint exactly when the table stores it |
| `Probing.MaskIsHome` | kmod/main.c:162-178 | for a table of a power of two the bit mask names the same cell as the remainder that the tables are modelled with |
| `OwnedSnapshot.Insert` | kmod/main.c:312-332 | stores the endpoint, keeps every other and the table rule; a free bucket is always found |
| `OwnedSnapshot.BucketCount` | kmod/main.c:287-293 | the bucket count is a power of two, at least twice the entries, and less than four times them unless it is eight |
| `OwnedSnapshot.Build` | kmod/main.c:283-344 | accepts exactly the well-formed updates; the table stores exactly the set of entries, for every hash function |
| `PendingCache.SelectWay` | kmod/main.c:231-247 | the loop picks the first reusable way, else the first that expires earliest |
| `PendingCache.Lookup` | kmod/main.c:128-160 | answers exactly when an unexpired way holds the endpoint |
| `PendingCache.AfterSound` | kmod/main.c:209-257 | every way holds a recording as it was made, or nothing |
| `PendingCache.SurvivorAnswers` | kmod/main.c:209-257 | an endpoint stays answerable for its full time to live if at most four recordings of its set, itself included, were made since its tick began, whatever the ticks of the others |
| `PendingCache.FourEvict` | kmod/main.c:231-247 | four later recordings on later ticks evict it: the bound is sharp |
| `PendingCache.SameTickEvicts` | kmod/main.c:231-247 | within one tick a single later recording can evict an endpoint that was just recorded again: recordings before it on its tick count |
| `OwnPorts.FromSocket` | kmod/main.c:99-126 | the endpoint of a bound socket is local, has the port and owner of the socket, and one of the two protocols |
| `OwnPorts.DaemonAgrees` | daemon/owned_ports.c:36-66 | kernel and daemon name the same endpoint for a bound socket, except exactly for the mapped IPv4 wildcard |
| `OwnPorts.Cache.RecordBoundSocket` | kmod/main.c:209-260 | takes the abstract bind step: records local endpoints of targeted UIDs and nothing else |
| `OwnPorts.Cache.ReplaceOwnedPorts` | kmod/main.c:283-344 | takes the abstract replace step, and reports success exactly when the update is well formed |
| `OwnPorts.Cache.PublishPolicy` | kmod/main.c:1192-1205 | takes the abstract publish step: pending entries and snapshot are gone |
| `OwnPorts.Cache.UidOwnsPort` | kmod/main.c:180-207 | answers exactly for a local endpoint that, or whose wildcard, the unexpired snapshot or the pending cache has |
| `OwnPorts.StateMatchesHistory` | kmod/main.c:180-344 | after every run the state is determined by the recordings and the latest update since the last publication |
| `OwnPorts.OwnershipSafety` | kmod/main.c:180-207 | a yes means that the endpoint or its wildcard was recorded within its time to live, or is in the latest unexpired update, since the last publication |
| `OwnPorts.UpdateIsAnswered` | kmod/main.c:180-344 | the query says yes to every endpoint in the latest update, and to every one whose wildcard is there, until it expires |
| `OwnPorts.RecordingSurvives` | kmod/main.c:180-260 | the query says yes to a recorded endpoint, or one whose wildcard was recorded, for the whole time to live, unless a policy is published or more than four recordings, itself included, fall into its set from its tick on |
| `OwnPorts.BoundSurvives` | kmod/main.c:180-260 | the same from the bind event of a socket of a targeted UID |
| `OwnPorts.PublicationForgets` | kmod/main.c:1197-1205 | right after a publication nothing is owned |
| `PortStats.PortCounters.constructor` | kmod/main.c:2268-2280 | the table starts empty |
| `PortStats.PortCounters.Record` | kmod/main.c:705-755 | the tombstone table refines a map of bounded size: a known key counts up, a new key starts at one while there is room, else the drop counter rises; no key is stored twice or behind an empty slot, for every hash function |
| `PortStats.PortCounters.CountLive` | kmod/main.c:757-773 | exactly the keys not seen for six hours become tombstones, and the result is the number of the rest |
| `PortStats.PortCounters.Clear` | kmod/main.c:2104-2127 | empties the table and the drop counter |
| `PortStats.Conservation` | kmod/main.c:705-773 | for every key and every run: the live count, the recordings forgotten by sweeps and the recordings that found the table full add up to the recordings since the last clear |
| `PortStats.SeenIsLatest` | kmod/main.c:705-773 | the age of a live key counts from its latest recording |
| `PortStats.TotalConservation` | kmod/main.c:705-773 | the same over all keys, with the drop counter of the module |
| `PortStats.CapacityHeld` | kmod/main.c:705-755 | the live keys never outgrow the table and each was recorded |
| `UidStats.UidCounters.RecordIntercept` | kmod/main.c:775-834 | counts for eligible UIDs only; changes one counter of one UID, inserts a new UID only while there is room, and keeps the array strictly sorted |
| `UidStats.UidCounters.RecordJava` | kmod/main.c:836-876 | the same for the Java hooks, adding any amount; unknown hooks add to no counter |
| `UidStats.UidHasStats` | kmod/main.c:886-908 | decides by the two lists in their modes, then by the port target |
| `UidStats.MergeUids` | kmod/main.c:927-959 | the three-way merge gives the smallest wanted UIDs, strictly sorted, up to the capacity, and leaves none smaller out |
| `UidStats.Carry` | kmod/main.c:967-975 | the merge with the old array gives each UID its old counters, or none yet |
| `UidStats.KeepCovered` | kmod/main.c:963-966 | an inverted policy keeps exactly the entries it covers, unchanged and in order |
| `UidStats.UidCounters.Reconcile` | kmod/main.c:910-983 | the whole rebuild, for both kinds of policy, with its capacity |
| `UidStats.ReconcileKeeps` | kmod/main.c:910-983 | a publication keeps the counters of every recordable UID that the policy covers, forgets those of every other and invents none; without inverted layers a covered UID keeps its counters exactly when fewer than 4096 wanted UIDs come before it |
| `UidStats.LeadingMeans` | kmod/main.c:915-959 | the merge keeps exactly the wanted UIDs with fewer than 4096 wanted ones before them |
| `StatsDelta.FindRow` | daemon/stats.c:58-95 | the lower-bound search finds the row of the key exactly when there is one |
| `StatsDelta.CountReported` | daemon/stats.c:235-268 | the counting pass counts exactly the rows to report |
| `StatsDelta.FillReported` | daemon/stats.c:279-345 | the filling pass fills the buffer sized by the counting pass exactly |
| `StatsDelta.DeltasMeaning` | daemon/stats.c:235-345 | for every key and counter, reported or left out, the point says how the counter moved; what is left out did not move |
| `StatsDelta.ZeroRowMeans` | kmod/STATS_CONTRACT.md:59-60 | a row of a point is all zero exactly when it is the row of a UID that the previous sample lacks and that has counted nothing |
| `StatsDelta.NewUidShowsZeros` | daemon/stats.c:235-330 | such a row is reported, though points are documented to hold only non-zero rows |
| `PortTotals.RecordPortIntercept` | kmod/main.c:705-755 | one blocked access counts in the table of UIDs and in the table of ports, each under its own limits |
| `PortTotals.TotalMoves` | kmod/main.c:775-834 | over an interval the port total of a UID grows by its accesses, less those that found no entry and no room, if the publications in it spare the UID |
| `PortTotals.PortDeltaMeans` | kmod/main.c:705-773 | the difference shown for a port is its accesses in the interval, less those that the table did not take and those too old at the sample |
| `PortTotals.DeltasAccount` | kmod/STATS_CONTRACT.md:109-111 | the difference of a port total and the sum of the differences of its ports account for the same accesses, each short of what its table did not keep, if the publications in the interval spare the UID |
| `PortTotals.PortDeltaIsSum` | kmod/STATS_CONTRACT.md:109-111 | the two are equal, as documented, exactly when both tables missed as many accesses of the UID; if every access found an entry or room for one, exactly when every one named a port, found room there and was not older than the time to live at the sample; and if the ports kept all, exactly when every one found an entry or room |
| `PortTotals.SeatedThroughout` | kmod/main.c:775-834 | a counted UID with an entry at the first sample finds it at every access |
| `PortTotals.CoveredIsSpared` | kmod/main.c:910-983 | a publication spares a UID that the policy covers and that is among the first 4096 wanted ones |
| `PortTotals.FullTableSplits` | kmod/main.c:705-834 | an access by a UID that a full table of UIDs has no entry for moves the port and not the total |
| `PortTotals.PortZeroSplits` | kmod/main.c:705-711 | an access of port zero moves the total and no port |
| `StatsRing.PortKeyOrders` | daemon/stats.c:97-106 | the key order of port rows is the order of the comparison function |
| `StatsRing.Ring.DropStale` | daemon/stats.c:347-354 | drops exactly the run of stale points at the front and counts them |
| `StatsRing.Ring.Push` | daemon/stats.c:356-363 | appends at the end, dropping and counting the oldest of a full ring |
| `StatsRing.Ring.Append` | daemon/stats.c:202-374 | takes the abstract step: gap or differences, retention, append, new baseline |
| `StatsRing.Ring.Clear` | daemon/stats.c:22-40 | resets ring, counters and baseline |
| `StatsRing.RingIsSuffix` | daemon/stats.c:347-374 | at every moment the ring holds the latest points of the run, in order and unaltered, and the drop counter is the number gone |
| `StatsRing.PointsConserved` | daemon/stats.c:347-374 | points held and points dropped add up to the samples since the reset |
| `StatsRing.HeldExactly` | daemon/stats.c:347-363 | with a clock that never runs backwards a point is held exactly when it is younger than six hours and among the last 360 |
| `StatsRing.StepBackKeepsStale` | daemon/stats.c:347-354 | after a step back of the clock a reading six hours later leaves a stale point in the ring |
| `StatsRing.ExactMeansForward` | daemon/stats.c:347-363 | retention is exact at every moment, whatever comes next, exactly when the clock never steps back |
| `StatsRing.UidTelescopes` | daemon/stats.c:279-330 | over samples without a gap the reported differences of a counter that never falls add up to its growth |
| `StatsRing.PortTelescopes` | daemon/stats.c:331-345 | the same for the counters of ports |
| `TokenBucket.UdpLimiter.Exceeded` | kmod/hooks_fs.c:432-481 | one call changes only the bucket of its UID, as the specification of refill and use says, 32-bit and 64-bit wrap included |
| `TokenBucket.UdpLimiter.Prune` | kmod/hooks_fs.c:483-499 | keeps exactly the buckets of UIDs that the published policy hides, unchanged |
| `TokenBucket.SlidingWindow` | kmod/hooks_fs.c:432-481 | between prunes any window of calls of a UID admits at most a full bucket and one token per two milliseconds between its latest readings, for all gaps and whichever products wrap, also when readings reach the lock out of order, unless one does so more than 213 days into the run |
| `TokenBucket.ForwardIsOrderly` | kmod/hooks_fs.c:433-441 | readings in order meet that condition whatever the gaps, and the latest of them is the last |
| `TokenBucket.StepBackRefills` | kmod/hooks_fs.c:441-455 | after 213 idle days a reading one nanosecond behind fills the bucket, and 499 calls in one instant are admitted |
| `TokenBucket.AdmittedExactly` | kmod/hooks_fs.c:432-481 | between prunes a call is admitted exactly when the tokens left and those regained, cut to 32 bits, make a whole token, in whatever order the readings come |
| `TokenBucket.LongIdleIsRefused` | kmod/hooks_fs.c:443-450 | a UID that sends 250 datagrams at once and is then idle for about two hours and 23 minutes is refused the next one |
| `TokenBucket.GapIsAdmitted` | kmod/hooks_fs.c:432-481 | for readings in order and a gap of less than 213 days: the call after the gap is admitted whatever the UID did before exactly when the thousandths regained in it, cut to 32 bits, are at least a token and below 2^32 less 249 tokens |
| `CmsgWalk.Rewrite` | kmod/hooks_socket.c:707-774 | the in-place walk leaves the buffer as the specified walk does, and does nothing when the lengths are inconsistent |
| `CmsgWalk.RewritesMessages` | kmod/hooks_socket.c:707-774 | exactly the messages found in the original buffer are rewritten, each from its original bytes; every other byte stays |
| `CmsgWalk.OnlyVpnChanges` | kmod/hooks_socket.c:666-774 | a byte that the walk changes lies in the used part, in a visited message that names an active VPN interface while a cover is in use: in the index, or for IPv6 in the address and the index |
| `CmsgWalk.EditWhen` | kmod/hooks_socket.c:666-705 | a message is edited exactly when it is a complete packet-info message that names an active VPN interface and a cover is in use |
| `CmsgWalk.EditShows4` | kmod/hooks_socket.c:666-679 | an edited IPv4 message shows the cover index and is otherwise unchanged |
| `CmsgWalk.EditShows6` | kmod/hooks_socket.c:681-705 | an edited IPv6 message shows the cover index and the replacement address and is otherwise unchanged |
| `CmsgWalk.HidesAndSettles` | kmod/hooks_socket.c:707-774 | the rewritten buffer has the same messages, none is left to edit, and rewriting it again changes nothing, if the cover is not a VPN |
| `CmsgWalk.NoVpnShown` | kmod/hooks_socket.c:707-774 | with a cover in use that is not itself a VPN no message found by walking the rewritten buffer names a VPN interface |
| `ByteWalk.WalkInPlace` | kmod/hooks_socket.c:719-773 | the loop over a buffer that is written while it is walked, for any format whose records carry their own extent |
| `ByteWalk.WalkRewrites` | kmod/hooks_socket.c:719-773 | walking while writing does what writing all records of the original buffer would |
| `ByteWalk.RecordIsParsed` | kmod/hooks_socket.c:719-773 | every record of the walk is the parse of a visited position |
| `ByteWalk.SameRecords` | kmod/hooks_socket.c:719-773 | writing inside records leaves the walk on the same records at the same places |
| `ByteWalk.WalkTwice` | kmod/hooks_socket.c:719-773 | walking twice is walking once |
| `LineFilter.FilterLines` | kmod/hooks_netlink.c:466-510 | hidden lines of the new part of the file go, all others keep order and bytes, nothing before the new part changes |
| `LineFilter.JoinedLines` | kmod/hooks_netlink.c:466-510 | the lines that the filter is specified with are the text cut at its newlines: joined they are the text again |
| `LineFilter.FilteredLines` | kmod/hooks_netlink.c:466-510 | the lines of the result are exactly the lines that are not hidden, in order |
| `LineFilter.FilterTwice` | kmod/hooks_netlink.c:466-510 | filtering again changes nothing and no hidden line is left |
| `LineFilter.RoutesWithoutVpn` | kmod/hooks_netlink.c:466-510 | a printed route table reads, once filtered, as if the routes of VPN interfaces had never been printed |
| `LineFilter.DevicesWithoutVpn` | kmod/hooks_netlink.c:623-672 | the same for the device statistics |
| `LineFilter.AddressesWithoutVpn` | kmod/hooks_netlink.c:539-595 | the same for files whose lines end with the interface name |
| `LineFilter.LastNameFound` | kmod/hooks_netlink.c:700-756 | the backward scan finds the name at the end of a line |
| `LineFilter.LastNameExactly` | kmod/hooks_netlink.c:561-577 | with blanks and returns behind it, the name that ends a line is found exactly when the first of these is not a return or the name is as long as names get |
| `Ifconf.FilterRecords` | kmod/hooks_netlink.c:142-163 | the compaction loop leaves exactly the visible records at the front and does not touch what is behind the records |
| `Ifconf.FilterIfconf` | kmod/hooks_netlink.c:170-237 | the returned length covers the visible records and every byte behind it is zero; without hidden records the contents and the length stay |
| `Ifconf.ShownRecord` | kmod/hooks_netlink.c:142-163 | no record that is shown is one to hide |
| `Ifconf.ShownExactly` | kmod/hooks_netlink.c:142-163 | for terminated names the records shown are those not hidden, byte for byte and in order |
| `TrafficViews.CollectVpnTotal` | kpatch/security/vpnhide/hook_fs.c:67-85 | sums the rows of the active VPN interfaces with 64-bit wrap-around |
| `TrafficViews.LookupElem` | kpatch/security/vpnhide/hook_fs.c:90-141 | the single lookup shows the specified view of the row |
| `TrafficViews.LookupBatch` | kpatch/security/vpnhide/hook_fs.c:150-242 | each row of a batch of at most 4096 shows the specified batch view; larger batches are left untouched |
| `TrafficViews.ViewsAgree` | kpatch/security/vpnhide/hook_fs.c:90-242 | both views of a row agree except exactly on a cover that is itself a VPN interface with traffic |
| `TrafficViews.Conserved` | kpatch/security/vpnhide/hook_fs.c:67-141 | over single lookups of the whole map a counter is conserved modulo 2^64 exactly when the hidden traffic can move to the row of a cover that is not hidden itself, or there is none |
| `TrafficViews.BatchConserved` | kpatch/security/vpnhide/hook_fs.c:67-242 | over batches of the whole map it is conserved exactly when the hidden traffic can move to the row of a cover, hidden itself or not, or there is none |

## Left out

- Hook registration, kretprobe plumbing and the patching of return values.
- The hooks that rewrite or fail a single answer: ioctls on one interface, netlink messages about links, addresses, routes, rules and queues, socket options, bind addresses, socket names and link-local sends.
- Faults while copying from or to user memory, allocation failures and RCU grace periods.
- Memory ordering: the sequence-counter machine interleaves single loads and stores in program order.
- The generation check of policy publication and the version 2 payload.
- The wrap-around of `jiffies`: times are unbounded, so `time_after` is a plain comparison.
- The tokenizer of `fib_trie_ret`; the other four line filters are modelled.
- Serving statistics over a socket, netlink parsing and the rest of the daemon.
- The duplicate of the module core under `kpatch`, build scripts and packaging.
- OwnPorts.Cache.UidOwnsPort: reads each pending slot at one instant; concurrent writers are the subject of SeqCounter alone.
- PortStats.PortCounters.Record: counts are unbounded, without 64-bit wrap-around; the call into the per-UID counters at its start is PortTotals.RecordPortIntercept.
- UidStats.UidCounters.RecordJava: the names of the Java hooks are numbers; clearing all counters on request is not modelled.
- PortTotals.DeltasAccount: says nothing on a UID whose counters a publication in the interval drops; a clear of the counters makes the next point a gap.
- TokenBucket.SlidingWindow: one way only for readings out of order; that the bound can fail beyond 213 days is StepBackRefills.
- CmsgWalk.Rewrite: takes the decoding of one message as a function of the buffer, and the address classes of the kernel as parameters.
- LineFilter.FilterLines: takes the name scan of each file as a function of the line.
- Ifconf.FilterIfconf: the name test on a record is a parameter.
- TrafficViews.LookupBatch: interface maps with four counters only; wide maps just clear rows.
- HookMasks.JavaImplements: ends at the masks that the status report lists; the Java side that reads them is not part of this model.
- JsonCodec.RoundTrip: printing and reading of numbers are parameters required to agree; floating-point formatting, comments and file access are not modelled.
