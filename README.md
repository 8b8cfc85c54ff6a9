# udral-pnp-poc in Dafny

A model of the core of the UDRAL plug-and-play proof of concept. There are two parts.

The first part is the three port-name resolvers. Each one takes a node's publisher, subscriber, client and server port names, as sequences, and groups them into service → instance → suffix → full-name dicts:

- `service_detector.py` splits every name on `.` at most twice.
- `service_discoverer.py` keeps a name of the exact shape `instance.suffix` only when the instance is registered for some service.
- `udral_pnp.py` matches one known prefix and a set of suffixes per kind, sorts the instances and rebuilds the full names. `PortMapping.match` then picks named ports out of a full assignment.

The second part models two pieces of `node_proxy.py` and `udral_pnp.py`:

- the auto-configuration sequence `perform_automatic_port_id_allocation`, as a state machine over an abstract remote node. The sequence is: cookie check, register enumeration, port extraction, ID reads, allocator call, register writes with the cookie last, then persist and restart.
- the bookkeeping that `main` does for the allocation tasks.

Python dicts are modelled as a map together with its key order (`OrderedDict.Dict`), so every claim about insertion order can be stated. Each loop of the source is a `method` with a `while` or `for` loop. Each of these methods is proved equal to a specification function of its inputs. The lemmas then state the source's promises about that function. The allocation tasks are a `class` whose methods update its fields.

Modules and files:

- `wrappers.dfy`: `Option`, `Result`.
- `ordered_dict.dfy`: insertion-ordered dicts and first-occurrence order (`Dedup`).
- `strings.dfy`: `str.split`, `join`, `strip`, `lower`, Python slicing and string order.
- `ports.dfy`: the four-kind record shared by `PortAssignment`, `PortSuffixMapping` and `PortMapping`.
- `grouping.dfy`: what the two resolvers share, namely the fold of `psm(svc, ins).<kind>[suf] = port` over a stream of entries, and its key-order and last-writer lemmas.
- `service_detector.dfy`, `service_discoverer.dfy`, `udral_pnp.dfy`: the three resolvers.
- `node_proxy.dfy`: the auto-configuration sequence.
- `supervisor.dfy`: the `alloc_tasks` bookkeeping of `main`.

## Choices about the remote node and the network

The remote node is a value of type `NodeProxy.Net`. It has three parts:

- the names it lists for indices 0, 1, 2, and so on (an empty name past its end);
- an oracle that says whether the request at a given position of the run gets a response;
- the value the node stores and returns after a write.

A run threads a `Link` through every step. A `Link` holds the node's registers and the trace of the requests sent so far. A run ends in one of these outcomes:

- one of the three early returns;
- `TimedOut` for `NetworkTimeoutError`;
- `Unconvertible` when `int(ValueProxy(value))` raises;
- `Configured`.

The allocator and the integer coercion are function parameters.

## Model

| member | source | states |
|---|---|---|
| `OrderedDict.Put` | service_detector.py:97-100 | `d[k] = v` stores `v` at `k`; a key already present keeps its position and a new key goes last |
| `OrderedDict.Values` | udral_pnp.py:48-51 | `d.values()` lists the value of every key, in key order |
| `OrderedDict.Items` | node_proxy.py:137 | `d.items()` lists every key with its value, in key order |
| `OrderedDict.Dedup` | service_detector.py:95 | the key order of a dict built by assigning a sequence of keys holds each key of the sequence once and nothing else |
| `OrderedDict.DedupOrder` | service_detector.py:94-100 | of two keys, one is listed before the other in the key order exactly when it first occurs in the assigned sequence before the other |
| `OrderedDict.DedupOfDedup` | service_detector.py:97-100 | continuing to assign keys to a dict depends only on the dict's key order so far, not on the repeats before it |
| `Strings.Split` | service_discoverer.py:113 | `str.split(".")`: at least one part, no part holds the separator; `JoinSplit` and `SplitJoin` make it the inverse of `join` |
| `Strings.SplitMax2` | service_detector.py:107 | `str.split(".", 2)`: one to three parts; `SplitMax2AgreesWithSplit` relates it to the full split |
| `Strings.Strip` | service_discoverer.py:111 | `str.strip(chars)`, also the argument-free form over the `isspace` set (node_proxy.py:68); specification function whose contract is `StripIsTrimmedMiddle` |
| `Strings.Lower` | node_proxy.py:68 | `str.lower()`: same length, each character mapped by the ASCII case mapping; `LowerIdempotent` states that a second lowering changes nothing |
| `Strings.PySlice` | udral_pnp.py:155 | Python's `s[lo:hi]` with negative bounds counted from the end and clamped; `PySliceDropsEnds` states what it keeps when both bounds are in range |
| `Strings.PySliceDropsEnds` | node_proxy.py:99 | `s[lo:-m]` with `lo + m <= len(s)` is the text without its first `lo` and last `m` characters |
| `Strings.LexLess` | udral_pnp.py:167 | Python's `<` on `str`; the four `LexLess*` lemmas make it a strict total order, as `sorted` needs |
| `Strings.JoinSplit` | service_detector.py:107 | `".".join(s.split("."))` gives back `s` |
| `Strings.SplitJoin` | service_detector.py:108 | splitting a join of dot-free parts gives back the parts |
| `Strings.SplitMax2AgreesWithSplit` | service_detector.py:107 | `s.split(".", 2)` is the full split when it has at most two parts; otherwise it is the full split with everything after the second dot joined back |
| `Strings.StripIsTrimmedMiddle` | node_proxy.py:68 | `strip()` returns a contiguous middle of the text that neither starts nor ends with whitespace, and everything cut from either end is whitespace |
| `Strings.LowerIdempotent` | node_proxy.py:68 | lower-casing twice is lower-casing once |
| `Strings.LexLessIrreflexive` | udral_pnp.py:167 | no string sorts before itself |
| `Strings.LexLessTotal` | udral_pnp.py:167 | of two distinct strings, one sorts before the other |
| `Strings.LexLessAsymmetric` | udral_pnp.py:167 | two strings never each sort before the other |
| `Strings.LexLessTransitive` | udral_pnp.py:167 | string order is transitive |
| `Grouping.Assign` | service_detector.py:94-97 | one `psm(svc, ins).<kind>[suf] = port`; specification function whose contract is `MapsAfterAssign` and `RecordAfterAssign` |
| `Grouping.AssignAll` | service_detector.py:97-100 | the loop `for … in entries: psm(svc, ins).<kind>[suf] = port` leaves the fold of the assignment over the entries |
| `Grouping.GroupFromConcat` | service_detector.py:97-100 | four loops over one `out` give the same dict as one loop over the concatenated streams |
| `Grouping.MapsAfterAssign` | service_detector.py:94-97 | one assignment changes only the kind map of its own service, instance and kind |
| `Grouping.RecordAfterAssign` | service_detector.py:94-97 | `setdefault` creates an empty record for a new slot and the assignment changes that record only |
| `Grouping.ServiceOrder` | service_detector.py:94-95 | the service keys are listed in the order in which each service first occurs in the stream |
| `Grouping.InstanceOrder` | service_detector.py:94-95 | a service's instance keys are listed in first-occurrence order among that service's entries |
| `Grouping.SuffixOrder` | service_detector.py:97-100 | a kind map's suffix keys are listed in first-occurrence order among the entries of that slot and kind |
| `Grouping.LookupIsLastPort` | service_detector.py:97-100 | the full name stored under a slot is the port of the last entry for that slot, and the slot is absent when no entry has it |
| `Grouping.LastPortWitness` | service_detector.py:97-100 | a stored full name comes from an entry with exactly that kind, service, instance and suffix |
| `Grouping.LastPortPresent` | service_detector.py:97-100 | every entry fills its own slot |
| `ServiceDetector.SplitName` | service_detector.py:107-110 | one step of `_split`; specification function whose contract is `SplitNameCases`, `SplitNameParts` and `SplitOfDottedPair` |
| `ServiceDetector.Detect` | service_detector.py:92-102 | `detect_service_instances` as a value; specification function that `DetectServiceInstances` is proved equal to and that `DetectSlot`, `NoPortDropped`, `StoredNameResplits`, the `*KeyOrder` lemmas and `SameSplit*` describe |
| `ServiceDetector.SplitPorts` | service_detector.py:105-110 | the generator `_split` yields one entry per name, in input order |
| `ServiceDetector.DetectServiceInstances` | service_detector.py:92-102 | the result is the fold of the assignment over the entries of pub, then sub, cln and srv |
| `ServiceDetector.SplitNameCases` | service_detector.py:107-110 | three or more parts give (p0, p1, the rest with its dots); two parts give (p0, "", p1); one part gives ("", "", name) |
| `ServiceDetector.SplitNameParts` | service_detector.py:107-110 | the service and instance parts never contain a dot, so the suffix can, as in `heater.state` |
| `ServiceDetector.DetectSlot` | service_detector.py:97-100 | the name stored in a slot of kind `k` is the last name of kind `k` that splits to the slot's triple, so a name only fills maps of its own kind |
| `ServiceDetector.NoPortDropped` | service_detector.py:97-100 | every input name fills the slot of its own split in its own kind |
| `ServiceDetector.StoredNameResplits` | service_detector.py:105-110 | every stored full name is an input name of that kind and splits to exactly the service, instance and suffix it is stored under |
| `ServiceDetector.ServiceKeyOrder` | service_detector.py:90-100 | the service keys follow first occurrence while scanning pub, then sub, cln and srv |
| `ServiceDetector.InstanceKeyOrder` | service_detector.py:94-100 | a service's instance keys follow first occurrence across the four lists |
| `ServiceDetector.SuffixKeyOrder` | service_detector.py:97-100 | a kind map's suffixes follow first occurrence in that kind's list |
| `ServiceDetector.SplitOfDottedPair` | service_detector.py:108-109 | `a.b` and `a..b` split to the same triple |
| `ServiceDetector.SameSplitOverwrites` | service_detector.py:97 | for any two publisher names that split to one triple (such as `a.b` and `a..b`), the later one is the value stored |
| `ServiceDetector.SameSplitKeepsOneKey` | service_detector.py:97 | any two publisher names that split to one triple leave a single suffix key in their kind map |
| `ServiceDetector.EmptyInputs` | service_detector.py:92-102 | no names give an empty result |
| `ServiceDiscoverer.Trimmed` | service_discoverer.py:111 | `ins.strip(".")`; the instance keys `DiscoverSlot` and `ResultIsRegistered` speak of are these stripped names |
| `ServiceDiscoverer.Fits` | service_discoverer.py:113-114 | the two-component test; specification predicate whose contract is `FitsIff` and `MalformedNeverReported` |
| `ServiceDiscoverer.Discover` | service_discoverer.py:89-101 | `discover_service_instances` as a value; specification function that `DiscoverServiceInstances` is proved equal to and that `DiscoverSlot`, `ResultIsRegistered`, the `*KeyOrder` lemmas and `EmptyRegistry` describe |
| `ServiceDiscoverer.MatchPorts` | service_discoverer.py:112-115 | the innermost loop yields, in port order, one entry per port of shape `ins.suffix` |
| `ServiceDiscoverer.MatchInstances` | service_discoverer.py:110-115 | the middle loop strips each registered instance name and yields that instance's entries, instance by instance |
| `ServiceDiscoverer.SplitRegistered` | service_discoverer.py:104-115 | `_split` yields the entries of every registered service in registry order |
| `ServiceDiscoverer.DiscoverServiceInstances` | service_discoverer.py:89-101 | the result is the fold of the assignment over the entries of pub, then sub, cln and srv |
| `ServiceDiscoverer.FitsIff` | service_discoverer.py:113-114 | a name splits into exactly `[i, suf]` if and only if it is `i + "." + suf` with no dot in `i` or `suf` |
| `ServiceDiscoverer.DiscoverSlot` | service_discoverer.py:109-115 | a slot holds `i + "." + suf` if and only if `i` is a stripped registered instance of the service and that name is a port of that kind; otherwise the slot is absent. An instance registered under two services is reported under both |
| `ServiceDiscoverer.MalformedNeverReported` | service_discoverer.py:113 | a name that does not split into exactly two parts, such as `bar.bad.pattern.ignored`, is never a stored value |
| `ServiceDiscoverer.ResultIsRegistered` | service_discoverer.py:109-115 | every result service is a registry key, and every instance key is one of its stripped registered names |
| `ServiceDiscoverer.ServiceKeyOrder` | service_discoverer.py:96-99 | the service keys follow first occurrence across pub, sub, cln and srv of the services that have a match, each kind in registry order |
| `ServiceDiscoverer.InstanceKeyOrder` | service_discoverer.py:96-99 | a registered service's instance keys follow first occurrence across the four kinds of its matching instances, in registry order |
| `ServiceDiscoverer.SuffixKeyOrder` | service_discoverer.py:112 | a registered slot's suffixes follow the order of that kind's port list; an unregistered slot has none |
| `ServiceDiscoverer.EmptyRegistry` | service_discoverer.py:109 | an empty registry gives an empty result, whatever the ports |
| `UdralPnp.Pick` | udral_pnp.py:48 | one comprehension `{k: cp.<kind>[k] for k in self.<kind>.values()}`; specification function whose contract is `PickSucceeds`, `PickContents` and `PickFailure` |
| `UdralPnp.Match` | udral_pnp.py:42-52 | `PortMapping.match`, in its intended form; specification function whose contract is `MatchSucceeds`, `MatchKind`, `MatchContents`, `FailingKind` and `MatchFailure` |
| `UdralPnp.KeyOf` | udral_pnp.py:155 | `pn[len(prefix) + 1 : -(len(suf) + 1)]`; `PortHitsIff`, `MakeNameRebuilds`, `UnnamedInstance` and `UnnamedRebuildDiffers` state what it extracts |
| `UdralPnp.MakeName` | udral_pnp.py:170-171 | the name `make_item` rebuilds; `MakeNameRebuilds`, `UnnamedInstance` and `UnnamedRebuildDiffers` relate it to the port it came from |
| `UdralPnp.SortedSet` | udral_pnp.py:167 | `sorted(set(xs))`; specification function whose contract is `SortedSetSpec` |
| `UdralPnp.Detect` | udral_pnp.py:160-181 | `detect_service_instances` as a value; specification function that `DetectServiceInstances` is proved equal to and that `ResultKeys`, `ResultSlot`, `DetectIff` and `SuffixesFromCallerSet` describe |
| `UdralPnp.PickSucceeds` | udral_pnp.py:48 | one comprehension of `match` succeeds if and only if every name is a key of the argument |
| `UdralPnp.PickContents` | udral_pnp.py:48 | on success it holds exactly the names, in first-occurrence order, with the argument's IDs unchanged |
| `UdralPnp.PickFailure` | udral_pnp.py:48 | on failure the `KeyError` names the first name the argument lacks |
| `UdralPnp.MatchSucceeds` | udral_pnp.py:44-51 | `match` succeeds if and only if every full port name of the mapping is in the argument's map of the same kind |
| `UdralPnp.MatchKind` | udral_pnp.py:47-52 | on success each kind of the result is that kind's comprehension |
| `UdralPnp.MatchContents` | udral_pnp.py:47-52 | on success each kind holds exactly the mapping's names of that kind, with IDs as in the argument |
| `UdralPnp.FailingKind` | udral_pnp.py:47-52 | on failure the error is the `KeyError` of one of the four comprehensions |
| `UdralPnp.MatchFailure` | udral_pnp.py:44-45 | on failure the missing key is a name of the mapping that the argument's map of that kind lacks |
| `UdralPnp.AppendMatches` | udral_pnp.py:153-156 | the inner loop over the suffixes appends one suffix per matching suffix, under the extracted key |
| `UdralPnp.GroupPorts` | udral_pnp.py:149-157 | `group` returns the hits of all ports that start with `prefix.`, collected by key in port order |
| `UdralPnp.CollectShape` | udral_pnp.py:156 | the keys of `group`'s result follow first occurrence of the hits, and each key's list holds its hits' suffixes in order |
| `UdralPnp.PortHitsIff` | udral_pnp.py:153-155 | a port yields a hit exactly for the suffixes it ends with, under the extracted key |
| `UdralPnp.HitsIff` | udral_pnp.py:151-156 | a hit occurs if and only if some port starts with `prefix.`, ends with `.suf` for a suffix of the set, and has that key |
| `UdralPnp.GroupedKeyIff` | udral_pnp.py:149-157 | a key is in `group`'s result if and only if some port provides it |
| `UdralPnp.DetectServiceInstances` | udral_pnp.py:160-181 | the method returns the four groups assembled into sorted instances |
| `UdralPnp.InsertSpec` | udral_pnp.py:167 | inserting into a strictly increasing list keeps it strictly increasing and adds exactly that element |
| `UdralPnp.SortedSetSpec` | udral_pnp.py:167 | `sorted(set(xs))` is strictly increasing and has exactly the elements of `xs` |
| `UdralPnp.IncreasingNoDup` | udral_pnp.py:167 | a strictly increasing list has no repeats |
| `UdralPnp.KindDictShape` | udral_pnp.py:175-178 | `dict(make_item(…) for …)` has the suffixes in first-occurrence order, each mapped to its rebuilt name |
| `UdralPnp.InstancesShape` | udral_pnp.py:173-181 | the comprehension has exactly the keys, in order, each with its `PortMapping` |
| `UdralPnp.ResultKeys` | udral_pnp.py:167 | the result keys are strictly increasing, and they are exactly the keys of the four groups together |
| `UdralPnp.ResultSlot` | udral_pnp.py:173-178 | each kind map of an instance lists that key's suffixes in port order without repeats, each mapped to its rebuilt name |
| `UdralPnp.DetectIff` | udral_pnp.py:152-156 | an instance has a suffix in a kind if and only if some port of that kind starts with `prefix.`, ends with `.suf` for a suffix of the caller's set, and has that key; other ports are ignored |
| `UdralPnp.SuffixesFromCallerSet` | udral_pnp.py:153-156 | every suffix of a returned mapping belongs to the caller's set for that kind |
| `UdralPnp.MakeNameRebuilds` | udral_pnp.py:170-171 | for a non-empty extracted key, `make_item` rebuilds the original port name |
| `UdralPnp.UnnamedInstance` | udral_pnp.py:170-171 | the port `prefix.suf` has the empty key and is rebuilt as itself |
| `UdralPnp.UnnamedRebuildDiffers` | udral_pnp.py:155 | `a..x` gets the empty key under prefix `a` and suffix `x` but is rebuilt as `a.x` |
| `NodeProxy.Normalize` | node_proxy.py:68 | `strip().lower()`; its contract is `NormalizeIdempotent`, `UnnormalizedCookieNeverMatches` and `DefaultCookieIsNormal` |
| `NodeProxy.CookieVerdict` | node_proxy.py:64-74 | the three early returns of the cookie check, in the source's order; `EarlyReturn` ties them to the run |
| `NodeProxy.Enumerate` | node_proxy.py:79-93 | the enumeration loop as a value; specification function whose contract is `EnumerateSpec` and `EnumerateReadOnly` |
| `NodeProxy.ExtractPorts` | node_proxy.py:97-101 | `extract_ports`; specification function whose contract is `ExtractPortsComplete`, `ExtractPortsSound`, `ExtractPortsConcat`, `PortPartKeepsDot` and `BarePortRegister` |
| `NodeProxy.ReadIds` | node_proxy.py:109-113 | one comprehension of `read_port_id` calls; specification function that `ReadPortIds` is proved equal to and that `ReadKindResult` describes |
| `NodeProxy.ReadPorts` | node_proxy.py:109-114 | `original_ports`; specification function whose contract is `ReadPortsResult` and `ReadPortsPhase` |
| `NodeProxy.PortsToRegisters` | node_proxy.py:124-128 | `ports_to_registers`; specification function whose contract is `PortsToRegistersShape` |
| `NodeProxy.FinalRegisters` | node_proxy.py:130-135 | `final_registers`; specification function whose contract is `FinalRegistersKeys`, `FinalRegistersValues` and `CookieLastItem` |
| `NodeProxy.WriteAll` | node_proxy.py:137-141 | the write loop as a value; specification function that `WriteRegisters` is proved equal to and that `WriteAllSpec` and `AppliedLast` describe |
| `NodeProxy.Configure` | node_proxy.py:97-158 | the run after the enumeration; specification function whose contract is `ConfigureOutcomes`, `ConfigureSpec` and `ConfigureCookieLast` |
| `NodeProxy.Allocation` | node_proxy.py:48-158 | the whole run as a value; specification function that `PerformAutomaticPortIdAllocation` is proved equal to and that `EarlyReturn`, `RunAnswers`, `AbortedRunWritesNothing`, `AbortedRunKeepsCookie`, `CookieWrittenLast` and `RerunStopsAtCookie` describe |
| `NodeProxy.Round` | node_proxy.py:54-61 | `access`: without a response it raises and leaves the registers as they were; a read returns what the node holds; after a write the node holds, and returns, what it accepted; either way the request is appended to the trace |
| `NodeProxy.ReadId` | node_proxy.py:104-107 | `read_port_id` reads `uavcan.<kind>.<name>.id`; it fails by timeout without a response and by coercion failure when the value is not an integer |
| `NodeProxy.ReadPortIds` | node_proxy.py:110-113 | the comprehension loop stops at the first failure and otherwise returns the read IDs |
| `NodeProxy.WriteRegisters` | node_proxy.py:137-141 | the write loop writes the entries in order and stops only when a write gets no response; a changed echo does not stop it |
| `NodeProxy.PerformAutomaticPortIdAllocation` | node_proxy.py:48-160 | the step-by-step sequence returns exactly the session `Allocation` defines |
| `NodeProxy.EarlyReturn` | node_proxy.py:63-74 | the run ends at the cookie check if and only if the cookie read is answered and either the value is not a string or its normalised text is the expected cookie or `reject`; the outcome is then not capable, already configured or rejected, in that order of checks, after only the cookie read and with the registers unchanged |
| `NodeProxy.ConfiguredPassedCookie` | node_proxy.py:64-74 | a configuring run had its cookie read answered and got no verdict from it |
| `NodeProxy.EnumerateSpec` | node_proxy.py:82-92 | enumeration sends `List(0)`, `List(1)`, … up to the first empty name or the first missing response; it returns the names before the empty one, in order, or the timeout of the unanswered request |
| `NodeProxy.EnumerateReadOnly` | node_proxy.py:83-92 | enumeration changes no register and fails only by timeout |
| `NodeProxy.ConfiguredEnumerationAnswered` | node_proxy.py:84-86 | in a configuring run every list request, the last one included, was answered |
| `NodeProxy.ConfiguredEnumerated` | node_proxy.py:89-91 | in a configuring run the enumeration stopped at an empty name |
| `NodeProxy.ConfiguredAfterEnumeration` | node_proxy.py:82-101 | a configuring run continues from the enumerated names and the cookie read plus the list requests |
| `NodeProxy.ExtractPortsComplete` | node_proxy.py:99 | every listed register that starts with `uavcan.<kind>.` and ends with `.id` contributes its slice |
| `NodeProxy.ExtractPortsSound` | node_proxy.py:99 | every extracted name is the slice of such a listed register |
| `NodeProxy.ExtractPortsConcat` | node_proxy.py:99 | extraction keeps the enumeration order |
| `NodeProxy.PortPartKeepsDot` | node_proxy.py:97-105 | the slice starts one character early, so a name keeps a leading `.`, and `read_port_id` then reads `uavcan.<kind>..<name>.id` |
| `NodeProxy.ReadNameIsNotListed` | node_proxy.py:105 | the register `read_port_id` reads is never the listed register its name came from |
| `NodeProxy.BarePortRegister` | node_proxy.py:98-99 | `uavcan.<kind>.id` passes the filter and yields the empty name |
| `NodeProxy.ReadKindResult` | node_proxy.py:109-113 | a successful comprehension has the names in first-occurrence order, each with the coerced value of its register, and sent one read per occurrence of a name, in order |
| `NodeProxy.ReadPortsResult` | node_proxy.py:109-114 | `original_ports` has, for each kind, the extracted names with their IDs, after reads for pub, then sub, cln and srv |
| `NodeProxy.ReadPortsPhase` | node_proxy.py:104-114 | the read phase changes no register and fails only by timeout or coercion failure |
| `NodeProxy.RegisterNameInjective` | node_proxy.py:126 | register names of kinds of equal length decide the kind and the port name |
| `NodeProxy.CookieIsNoPortRegister` | node_proxy.py:126-135 | no port register is the cookie register |
| `NodeProxy.KindsApart` | node_proxy.py:131-134 | registers of two different kinds never collide |
| `NodeProxy.PortsToRegistersShape` | node_proxy.py:124-128 | `ports_to_registers` has one natural16 entry `uavcan.<kind>.<name>.id` per port, in the ports' order |
| `NodeProxy.UpdateWithKeys` | node_proxy.py:131-134 | `update` with new keys appends them in the order of the update |
| `NodeProxy.UpdateWithValues` | node_proxy.py:131-134 | after `update` the updated keys hold the new values and the others keep theirs |
| `NodeProxy.FinalRegistersKeys` | node_proxy.py:130-135 | `final_registers` lists the pub, sub, cln and srv registers in the allocator's order, then the cookie last |
| `NodeProxy.FinalRegistersValues` | node_proxy.py:130-135 | every allocated port has its natural16 entry, and the cookie entry is the expected string |
| `NodeProxy.CookieLastItem` | node_proxy.py:123-135 | the last item of `final_registers` is the cookie with the expected value |
| `NodeProxy.WriteAllSpec` | node_proxy.py:137-141 | the writes of a finished loop are one per entry, in order, and the node holds what it accepted of each; a failure is a write that timed out |
| `NodeProxy.AppliedLast` | node_proxy.py:137-138 | after the writes, the register written last holds what the node accepted for it |
| `NodeProxy.ConfigureOutcomes` | node_proxy.py:104-158 | after the enumeration, a run ends by timeout, by coercion failure, or configured |
| `NodeProxy.ConfigureSpec` | node_proxy.py:118-158 | a configuring run writes `final_registers` of the allocator's result in order after the reads, then sends persist and restart |
| `NodeProxy.ConfigureCookieLast` | node_proxy.py:135-158 | a configuring run's last three requests are the cookie write and the two commands, and the node then holds what it accepted for the cookie |
| `NodeProxy.CookieWrittenLast` | node_proxy.py:135-158 | the same for the whole run from the cookie check on |
| `NodeProxy.RunAnswers` | node_proxy.py:57-58 | a run that times out stops at the first unanswered request; any other failed run had every request answered; a configuring run had every register request answered, and the command responses do not matter |
| `NodeProxy.AbortedRunWritesNothing` | node_proxy.py:57-58 | a run that does not end configured changes no register, unless it stopped at a write that got no response |
| `NodeProxy.WriteFailKeeps` | node_proxy.py:137-141 | a write loop that stops on a write with no response leaves unchanged every register that no entry but the last one names |
| `NodeProxy.CookieOnlyLast` | node_proxy.py:123-135 | no entry of `final_registers` but the last one is the cookie |
| `NodeProxy.ConfigureKeepsCookie` | node_proxy.py:97-141 | past the enumeration, a run that does not end configured, a write timeout included, leaves the cookie as it was |
| `NodeProxy.AbortedRunKeepsCookie` | node_proxy.py:123-141 | any run that does not end configured, a write timeout included, leaves the cookie register as it was, so a partly written node still reads as unconfigured |
| `NodeProxy.NormalizeIdempotent` | node_proxy.py:68 | normalising a normalised cookie changes nothing |
| `NodeProxy.UnnormalizedCookieNeverMatches` | node_proxy.py:68-69 | an expected cookie that `strip().lower()` would change can never mark a node as configured |
| `NodeProxy.DefaultCookieIsNormal` | udral_pnp.py:191-192 | the default cookie `autoconfigured <digits>` is already normalised |
| `NodeProxy.RerunStopsAtCookie` | node_proxy.py:144 | after a configuring run whose node kept the cookie as written, a rerun against the node's new registers ends at the cookie check as already configured |
| `Supervisor.Without` | udral_pnp.py:201 | `del d[x]` removes `x` from the key order and keeps every other key |
| `Supervisor.Unfinished` | udral_pnp.py:217-224 | the keys left after the sweep are exactly those whose task is still pending |
| `Supervisor.AllocationTasks.constructor` | udral_pnp.py:185 | `alloc_tasks` starts empty |
| `Supervisor.AllocationTasks.Forget` | udral_pnp.py:201 | `del alloc_tasks[node_id]` removes that node's task and key |
| `Supervisor.AllocationTasks.OnNodeStatusChange` | udral_pnp.py:194-210 | offline cancels and forgets the node's task, and does nothing for an unknown node; online starts a run only for a node without a task; there is at most one task per node |
| `Supervisor.AllocationTasks.Sweep` | udral_pnp.py:215-224 | the sweep forgets exactly the finished tasks, failed or not, and keeps the others in their order |

## Left out

- ServiceDiscoverer.DiscoverServiceInstances: the four port collections are sequences that can be read again (lists, tuples, the `()` default). `_split` iterates over `port_names` once per registered (service, instance) pair (service_discoverer.py:109-112), so a one-shot iterable such as a generator would be used up by the first registered instance, and no later instance could match; `DiscoverSlot` does not hold for such inputs. The detector reads each collection once (service_detector.py:106), so it is not affected.
- The transport: pyuavcan clients, `make_client`, priorities, response timeouts and DSDL types. A round trip is an answer-or-timeout oracle (`Net.answers`), indexed by the request's position in the run.
- `register.ValueProxy`'s integer coercion (node_proxy.py:107). It is the parameter `toInt`, whose `None` case stands for the exception this library conversion raises.
- `repr` comparison of the echoed value, which is only logged (node_proxy.py:139). The node's answer to a write is the parameter `accept`, and a changed echo does not stop the loop.
- NodeProxy.Round: a write that gets no response is modelled as leaving the register unchanged, though the real node may have applied it.
- Command responses: persist and restart are appended to the trace and never fail. Their responses and the warning when there is none are not modelled.
- Write timeouts: a write that gets no response aborts the whole run, because `access` raises (node_proxy.py:57-58, 138); writes are not isolated per key, and the model does the same.
- NodeProxy.PortsToRegisters and NodeProxy.FinalRegisters: the 0..65535 range of `register.Natural16` is not modelled. An allocator ID outside it is written as is and the run can end `Configured`, where the library would reject or truncate the value (node_proxy.py:126).
- NodeProxy.Enumerate: the uint16 range of the `List_1_0` request index (node_proxy.py:83-84, fed by an unbounded `count()`) is not modelled, so an index past 65535 is sent as is. `Net.listing` is finite, which is what makes the enumeration end: a node that lists names without end is not represented.
- UTF-8 decoding of `tobytes().decode()` (node_proxy.py:68, 89): names and cookies are already strings.
- Strings.Lower: case mapping covers ASCII `A`-`Z` only, where Python's `str.lower` uses the full Unicode tables. `Strip` removes exactly the characters for which `str.isspace` holds.
- Logging, including the malformed format string of node_proxy.py:155.
- UdralPnp.Match: `NonFixedPorts` is neither defined nor imported in `udral_pnp.py` (imports at lines 4-24, uses at lines 42, 47, 55 and 72). `from __future__ import annotations` keeps the annotations from failing, but as written `PortMapping.match` raises `NameError` at line 47 on every call, before any comprehension or `KeyError`; the doctest at line 72 fails the same way. `Match`, `Pick` and their lemmas (`MatchSucceeds`, `MatchKind`, `MatchContents`, `FailingKind`, `MatchFailure`, `PickSucceeds`, `PickContents`, `PickFailure`) model the intended behaviour, with `NonFixedPorts` taken as the four name → ID dicts of `PortAssignment`.
- The suffix sets of `udral_pnp.detect_service_instances` are sequences taken in their iteration order. A port that matches several suffixes therefore orders them in one fixed way, where Python's set order is unspecified.
- `main`'s call passes three arguments to a function that takes four (udral_pnp.py:207-209 against node_proxy.py:31-34). As written, the call raises `TypeError` in the handler before any task exists. The model keeps the intended bookkeeping: a run is started and recorded.
- The asyncio machinery of `main`: `create_task`, `cancel`, `sleep`, the event loop and cancellation points. A task is its serial number and its node, and a cancellation is recorded in `cancelled`. Which tasks are done is the parameter `done` of `Sweep`, and `t.result()` with its exception logging is left out.
- The node tracker's `Entry` is reduced to online or offline.
- `make_node`, the local registry's `setdefault` and `random.getrandbits` (udral_pnp.py:187-192): I/O and randomness. Only the form of the default cookie is stated, in `DefaultCookieIsNormal`.
- The `__main__` entry point.
