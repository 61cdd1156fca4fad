# Traffic steering HAL: a verified model

This project models the parts of the traffic-steering hardware abstraction layer that keep state or do
arithmetic, and proves what they promise over whole runs. Everything the environment decides (replies of the
device, clocks, the network, the order in which Go iterates a map) is a parameter, so each theorem holds for
every such choice.

- **Steering** (`AclModel`, `AclRuns`, `AclTheorems`, `AclContents`, `AclAgreement`, `AclTexts`, `SteerRules`, `Reload`,
  `RuleMeaning`, `Readback`, `Controller`). `Steer`, `RemoveSteer`, the cleanup, the start-up reload and `GetSteerInterface` are
  methods of a class over a device with a candidate and a running datastore (sections 7.2 and 8.3 of RFC 6241).
  Each method is proved to make one step of a transition system, and the theorems are about all runs of that
  system, with edits and commits failing at any point. The model keeps beside the texts of a rule the key it was
  written or loaded for; `AclTexts` shows that nothing depends on it.
- **Flow keys** (`Text`, `IpAddress`, `IpParse`, `FlowKeys`, `FlowBorders`): the printed key of a flow, through
  decimal, dotted-quad and IPv6 printing, with parsers that undo it.
- **Interface registry** (`SortedNames`, `Registry`, `InterfaceMap`): four maps of shared interface objects and two
  sorted name lists, updated in place.
- **Flow accounting** (`FlowWindows`, `FlowMessages`, `FlowNames`, `FlowRates`, `FlowTable`): the aggregation window, its swap-and-drain, the
  64-bit rates and the threshold.
- **TWAMP** (`Calendar`, `Timestamps`, `Wire`, `TwampSession`, `TwampTest`, `TwampStats`, `TwampTheorems`): calendar
  timestamps, message layouts (RFC 5357), sequence checking, round-trip times and statistics.
- **Client accumulator** (`Accumulator`): the averages of the batch client.

What the code does not keep, shown by a theorem that says exactly when it does:

- A call that fails after its edit may leave a trace in the candidate; the next accepted commit of any call puts
  it into force behind the cache (`AclAgreement.RefusedCommitSurfaces`). Cache and device agree throughout a run
  exactly when no call does (`AclAgreement.MirrorsExactly`), and it is said which calls leave none.
- A failed start-up cleanup is only logged. The state after start-up is good exactly when nothing was left
  uncommitted, every rule parses and the listing is safe (`Reload.StartedIsInitialExactly`,
  `Reload.FailedCleanupStartExactly`).
- The reload compares every id with the allocator's first value, so only some listings are safe
  (`Reload.AheadExactly`); a table with the single id 10 is not (`Reload.ReloadOfTenCollides`).
- A call that repeats an uncached flow gives it two ids. The cache keeps one id per flow exactly as long as no
  accepted call does that (`AclTheorems.InjectiveAlways`), and such a flow may be read back wrongly
  (`Readback.RepeatedFlowMisreads`). When an accepted call is read back is stated exactly
  (`Readback.ReadYourWritesExactly`).
- A rule for an IPv6 host is written with the length 32 and covers a whole network (`IpParse.HostCoversExactlyV6`);
  one for an IPv4 flow selects just that flow (`RuleMeaning.RuleSelectsExactly`).
- Printed keys of flows between IPv6 addresses may collide (`FlowKeys.AsKeyCollides`), exactly when the border
  between the addresses can move (`FlowBorders.BorderExactly`).
- Distinct lower names of the interfaces registered now do not make them all findable: the whole history counts
  (`Registry.DistinctNowIsNotEnough`, `Registry.CompleteExactly`).
- The rate computation wraps for large counters (`FlowRates.RateExactly`, `FlowRates.WrappedRateFalls`).
- A timestamp taken on a 29 February reads back as 1 March, so a round-trip time comes out a day too small
  (`Timestamps.LeapDayReadsAsMarch`, `TwampTheorems.EndToEnd`).
- The client compares its own number with the number the reflector puts first in a reply. Section 4.2.1 of
  RFC 5357 lets the reflector count its replies; against such a reflector one probe lost on the way out makes
  every later reply count as lost (`TwampTheorems.AcceptedUntilFirstLoss`).
- A lost first probe makes the reported minimum zero (`TwampTheorems.StatisticsBounds`), and the average is wrong
  once the sum of the times leaves 63 bits (`TwampStats.AverageExactly`), which three probes can do
  (`TwampTheorems.ZeroStampsTurnAverageNegative`).
- An averaged sample loses its time, so from the third update of a key on the accumulated value is the latest
  reading alone (`Accumulator.ValueByAge`).

`dafny verify dfyconfig.toml` checks the project.

## Model

| member | source | states |
|---|---|---|
| Text.NumeralRoundTrip | pkg/hal/hal.go:740-743 | printing a number in base 10 or 16 and reading it gives the number back |
| Text.NoLeadingZero | pkg/hal/hal.go:740-743 | a positive number is printed without leading zeros |
| Text.SplitJoin | pkg/hal/hal.go:740-743 | splitting a separator-joined list of printed numbers gives the printed numbers back |
| Text.JoinInjective | pkg/hal/hal.go:740-743 | a joined list of printed numbers determines the numbers, and their count |
| IpAddress.EqualIsSameMeaning | pkg/hal/hal.go:1073 | address equality holds exactly when both byte slices mean the same address, 4-byte and 16-byte IPv4 forms included |
| IpAddress.IpStringIdentifies | pkg/hal/hal.go:742 | two addresses, nil, IPv4, IPv6 with its compressed zero run, or malformed, print alike exactly when they mean the same |
| IpAddress.LongestRunExactly | pkg/hal/hal.go:742 | what the IPv6 text compresses is the longest run of zero groups, the first of several as long |
| IpParse.DottedReadsBack | pkg/hal/hal.go:217 | a dotted quad parses to the bytes it prints |
| IpParse.V6ReadsBack | pkg/hal/hal.go:217 | the printed form of eight groups, with or without a compressed zero run, parses to these groups |
| IpParse.HostCidrReadsBack | pkg/hal/hal.go:944-945 | the host text in a rule parses exactly when the address is IPv4 or IPv6, and then to the same address |
| IpParse.HostCoversExactly | pkg/hal/hal.go:944-945 | the network written for an IPv4 host covers that address and no other |
| IpParse.HostCoversExactlyV6 | pkg/hal/hal.go:944-945 | that of an IPv6 host, written with the same length, covers exactly the IPv6 addresses with its first two groups |
| FlowKeys.KeyFields | pkg/hal/hal.go:739-744 | equal keys have equal protocol, ports and address texts, for flows of any kind |
| FlowKeys.AsKeyIdentifies | pkg/hal/hal.go:739-744 | a key with at least one address that is not IPv6 equals another key exactly when the five-tuples are the same |
| FlowKeys.AsKeyIdentifiesExactly | pkg/hal/hal.go:739-744 | by kind of addresses, keys identify flows exactly unless both addresses are IPv6 |
| FlowKeys.AsKeyCollides | pkg/hal/hal.go:739-744 | the flows 1::2 to 3:4::5 and 1::2:3 to 4::5 have one key, for every protocol and port |
| FlowKeys.KeySplits | pkg/hal/hal.go:739-744 | between its colons a key shows protocol, source, destination, source port and destination port, in this order |
| FlowKeys.KnownTexts | pkg/hal/hal.go:742 | 10.0.0.1 and 2001:db8::1 from their bytes |
| FlowBorders.PrintedExactly | pkg/hal/hal.go:742 | the texts that print some IPv6 address are exactly those that parse and print the same again |
| FlowBorders.BorderExactly | pkg/hal/hal.go:739-744 | the key of a flow between IPv6 addresses names its flow exactly when its address text can be cut at one colon only into two printed addresses |
| FlowBorders.FullAddressFixesBorder | pkg/hal/hal.go:739-744 | so it does whenever one of the addresses prints without a compressed zero run |
| AclRuns.FlushedIsInitial | pkg/hal/hal.go:1100-1147 | the state after a successful cleanup satisfies the run invariant |
| AclRuns.StepBinds | pkg/hal/hal.go:924-939 | a step extends the binding of ids to keys, chooses every id for the key it is bound to, and keeps all of them below the allocator |
| AclRuns.StepKeepsBound | pkg/hal/hal.go:902-1034 | every call, with any failure, keeps ids bound to one key in cache, candidate and running, the default rule aside |
| AclRuns.StepKeepsAgreement | pkg/hal/hal.go:902-1034 | every call keeps cache, candidate and running agreeing on all ids but those of a call that failed after sending its edit |
| AclRuns.RunInvariant | pkg/hal/hal.go:902-1034 | both invariants hold after every run of calls |
| AclTheorems.OneKeyPerId | pkg/hal/hal.go:924-982 | from any table whatever its ids: an id found in cache, candidate or running at any two moments of a run has the same key at both |
| AclTheorems.ChoicesNeverReuse | pkg/hal/hal.go:924-939 | two choices of the same id in a run are for the same key, the one it had at the start if any |
| AclTheorems.AllocatorAhead | pkg/hal/netconf_api.go:218 | the allocator never decreases and exceeds every id in cache, candidate and running but the default one |
| AclTheorems.CacheMatchesDevice | pkg/hal/hal.go:980-982 | after every run cache and both datastores agree, in membership and key, on each id no failed call has edited |
| AclAgreement.StepAgreesExactly | pkg/hal/hal.go:970-982 | a call keeps cache and device in agreement exactly when it is accepted or leaves no trace in the candidate |
| AclAgreement.MirrorsExactly | pkg/hal/hal.go:902-1034 | cache and device agree at every moment of a run exactly when no call that commits without being accepted leaves a trace in the candidate |
| AclAgreement.RemoveLeavesNoTraceExactly | pkg/hal/hal.go:1014-1027 | a failing removal leaves none exactly when the device stops before the first deletion |
| AclAgreement.SteerLeavesNoTraceExactly | pkg/hal/hal.go:965-978 | a failing steer call leaves none exactly when the candidate held every rule the device applied before it stopped |
| AclAgreement.TunnelLeavesNoTrace | pkg/hal/hal.go:1276-1323 | a failing tunnel call leaves none among the rules |
| AclAgreement.RefusedCommitSurfaces | pkg/hal/hal.go:975-978 | a concrete two-call run after which a rule is in force that the cache does not hold |
| AclTexts.RunKeepsTexts | pkg/hal/hal.go:940-957 | the key that the model keeps beside the texts of a rule makes no difference: states that differ in it only go through the same runs |
| AclTheorems.DefaultRuleSurvives | pkg/hal/hal.go:1098 | from an allocator on a multiple of ten, no run hands out the default rule's id, and every datastore keeps the rule it has under it |
| AclTheorems.DefaultIdHandedOutExactly | pkg/hal/hal.go:933-936 | a run hands out that id exactly when it starts a multiple of ten below it and gets past it |
| AclTheorems.FreshIdsInOrder | pkg/hal/hal.go:933-936 | the fresh ids of a run are the allocator's start value and every tenth number after it, in order, and the allocator has moved past exactly these |
| AclTheorems.FirstFreshIdsPrecedeDefault | pkg/hal/hal.go:1098 | from a flushed device exactly the first 6543 fresh ids lie below the default rule |
| AclTheorems.SteerThenRemoveCache | pkg/hal/hal.go:980-1031 | steering and then removing the same flows leaves the old cache restricted to other flows |
| AclTheorems.SteerThenRemoveRestores | pkg/hal/hal.go:902-1034 | if none of them was cached, it restores the cache, and both datastores exactly unless the call was handed the id of an existing default rule |
| AclTheorems.KeepsInjective | pkg/hal/hal.go:924-939 | an accepted call keeps one id per key exactly when it repeats no uncached key |
| AclTheorems.InjectiveAlways | pkg/hal/hal.go:924-939 | over a run the cache has one id per key at every moment exactly when no accepted call repeats an uncached key |
| AclTheorems.SizeCountsFlows | pkg/hal/stats_server.go:48-50 | the reported cache size counts the steered flows exactly when no flow has two ids |
| AclContents.MergeStoresSent | pkg/hal/hal.go:940-957 | merging a rule into the id of its key stores exactly that rule although zero ports are not sent |
| AclContents.SteerContents | pkg/hal/hal.go:940-970 | each id of a call holds the last rule the call sent for it |
| AclContents.RunContents | pkg/hal/hal.go:902-1034 | over every run, each rule keeps the text of some flow steered under its key |
| AclContents.AcceptedRules | pkg/hal/hal.go:902-985 | an accepted call with distinct flows leaves exactly the rules it sent in force |
| SteerRules.ProtocolReadsBack | pkg/hal/fmt.go:11-21 | a protocol text reads back as its protocol exactly for TCP, UDP and zero, and as zero otherwise |
| SteerRules.ReadsBackExactly | pkg/hal/hal.go:1059-1067 | the rule of a flow is read back under the flow's key exactly when the protocol is TCP, UDP or zero and no address is malformed |
| SteerRules.LoadsBackExactly | pkg/hal/hal.go:217-237 | the reload loads it under the flow's key exactly when moreover both addresses are given |
| SteerRules.ReadsAsOnlyIfKeyed | pkg/hal/hal.go:1059-1067 | only rules cached under its key are read back as an IPv4 TCP or UDP flow |
| SteerRules.DefaultReadsAsNoFlow | pkg/hal/hal.go:1114-1129 | the default rule is never read back as a TCP or UDP flow |
| RuleMeaning.ProtocolSelectsExactly | pkg/hal/hal.go:954 | the protocol text of a rule selects that protocol and no other |
| RuleMeaning.RuleSelectsExactly | pkg/hal/hal.go:940-957 | the rule written for an IPv4 flow selects exactly the five-tuples with its protocol and addresses, and its ports where they are not zero |
| RuleMeaning.AcceptedRuleSelects | pkg/hal/hal.go:902-985 | an accepted call with distinct flows leaves under each item's id an allow rule that selects exactly the item's flow, with the address of the interface named |
| RuleMeaning.DefaultSelectsAll | pkg/hal/hal.go:1114-1129 | the default rule allows everything |
| Reload.ReloadCacheIs | pkg/hal/hal.go:213-237 | the reload caches exactly the listed rules that parse, but the default one, each under the key it loads under |
| Reload.AheadExactly | pkg/hal/hal.go:212-240 | whatever ids are listed, the reload leaves the allocator above all of them exactly when each is less than the last listed one above 10, plus 10, or all are below 10 |
| Reload.AscendingListing | pkg/hal/hal.go:238-240 | an ascending listing is safe exactly when its largest id is not 10 |
| Reload.StartedIsInitialExactly | pkg/hal/hal.go:211-241 | a start without cleanup gives a state from which the run theorems hold exactly when every rule but the default one parses, the listing is safe and nothing was left uncommitted |
| Reload.ReloadIsInitialExactly | pkg/hal/hal.go:211-241 | the same with no leftovers: the listing alone decides, for tables of any ids, with or without a default rule |
| Reload.ReloadOfTenCollides | pkg/hal/hal.go:238-240 | after the reload of any single rule with id 10 the next new flow takes its id |
| Reload.CleanStart | pkg/hal/hal.go:258-267 | a start with a successful cleanup gives the flushed state |
| Reload.FailedCleanupStartExactly | pkg/hal/hal.go:258-267 | a start whose cleanup fails after deleting the candidate's rules is good exactly when there was no rule; if it fails before, it is as good as a start without cleanup |
| Reload.FailedCleanupSurfaces | pkg/hal/hal.go:258-267 | after such a start the next accepted commit removes every running rule while the cache still holds it |
| Reload.RestartExactly | pkg/hal/hal.go:211-241 | a program that starts after one that ended in agreement recovers its cache exactly when every steered flow has protocol TCP, UDP or zero and two addresses |
| Reload.RestartInRun | pkg/hal/hal.go:211-241 | the same after any run from a flushed device without a trace |
| Readback.AnyAnswerHappens | pkg/hal/hal.go:1057-1079 | whatever a stored rule can answer, some order of rules and interfaces makes it the reply |
| Readback.OnlyAnswer | pkg/hal/hal.go:1069-1077 | if all rules under a key answer the same, that is the reply in every order |
| Readback.ReadYourWritesExactly | pkg/hal/hal.go:902-1096 | an accepted call with distinct IPv4 TCP or UDP flows is read back in every order exactly when no other interface has an address asked for and no further rule under a flow's key answers with another interface |
| Readback.ReadYourWrites | pkg/hal/hal.go:902-1096 | so it is with distinct addresses and flows that had at most one id before |
| Readback.ReadYourWritesInRun | pkg/hal/hal.go:902-1096 | the same exact condition after any run that left no trace |
| Readback.FirstSteerReadsBack | pkg/hal/hal.go:902-1096 | from a flushed device the first call, for any one IPv4 TCP or UDP flow and WAN interface, is possible and is read back |
| Readback.RepeatedFlowMisreads | pkg/hal/hal.go:924-939 | a flow listed twice in one call and then moved may be reported at its old interface |
| Controller.Device.EditConfig | pkg/hal/hal.go:970-973 | an edit applies to the candidate all its operations, or a prefix when it fails, and nothing to running |
| Controller.Device.Commit | pkg/hal/hal.go:827-841 | a commit copies candidate to running or changes nothing |
| Controller.Device.GetConfig | pkg/hal/hal.go:1045-1054 | lists the running rules, each once, in any order |
| Controller.Controller.CommitChanges | pkg/hal/hal.go:827-841 | succeeds exactly when the device accepts, an empty commit included |
| Controller.Controller.FindRule | pkg/hal/hal.go:925-932 | finds an id cached for the key, or -1 exactly when there is none |
| Controller.Controller.PlanRules | pkg/hal/hal.go:907-958 | ids, cache entries, rules and allocator follow the plan up to the first unknown next hop |
| Controller.Controller.CacheRules | pkg/hal/hal.go:980-982 | writes the planned ids into the cache and nothing else |
| Controller.Controller.Steer | pkg/hal/hal.go:902-985 | the method makes exactly one enabled step of the transition system and reports failure exactly when that step fails; a failure leaves cache and running unchanged |
| Controller.Controller.SelectRules | pkg/hal/hal.go:990-1007 | selects exactly the ids cached for the given keys |
| Controller.Controller.UncacheRules | pkg/hal/hal.go:1029-1031 | removes exactly the selected ids |
| Controller.Controller.RemoveSteer | pkg/hal/hal.go:987-1034 | the method makes exactly one enabled step and reports its failure; a failure leaves cache and running unchanged |
| Controller.Controller.TunnelCall | pkg/hal/hal.go:1276-1323 | a tunnel call commits whatever the candidate holds |
| Controller.Controller.SteeringAclCleanup | pkg/hal/hal.go:1100-1147 | on success the running rules are the default rule alone; on failure they are unchanged and the candidate is what got applied |
| Controller.Controller.InitNetConf | pkg/hal/hal.go:211-243 | the reload loop, over the device's listing, leaves the state that the start-up theorems are about |
| Controller.Controller.Init | pkg/hal/hal.go:255-267 | a failed cleanup does not stop the start: the reload follows whatever it left |
| Controller.Controller.ReadReply | pkg/hal/hal.go:1057-1079 | the reply loop builds a map in which each key has the answer of the last rule under it that answers |
| Controller.Controller.CompareItems | pkg/hal/hal.go:1081-1095 | one name per item, empty where the reply differs, and success exactly when none differs |
| Controller.Controller.GetSteerInterface | pkg/hal/hal.go:1036-1096 | the device's listing and the two loops together: one name per item and success exactly when the reply matches all |
| Controller.Controller.SteerAndVerify | cmd/client/main.go:93-98 | steering and then asking: when the call can be read back, the check succeeds and names exactly the interfaces asked for |
| SortedNames.SortSorted | pkg/hal/hal.go:370-374 | sorting gives a sorted list |
| SortedNames.AtMostExactly | pkg/hal/hal.go:370-374 | the order is by the first differing character, a prefix coming first |
| SortedNames.SortedUnique | pkg/hal/hal.go:370-374 | a sorted permutation is unique, so the choice of algorithm does not matter |
| SortedNames.Remove | pkg/hal/hal.go:382-390 | the loop returns the list without the first occurrence of the name |
| SortedNames.AppendSortRemove | pkg/hal/hal.go:367-390 | append, sort, remove gives the sorted list back |
| SortedNames.AppendSortKeeps | pkg/hal/hal.go:367-375 | appending a new name and sorting keeps the list sorted and duplicate-free and adds just that name |
| SortedNames.RemoveKeeps | pkg/hal/hal.go:382-390 | removal keeps the list sorted and duplicate-free and removes just that name |
| Registry.WanExactly | pkg/hal/hal.go:331-341 | an interface is WAN exactly when its next hop is neither all-zero address |
| Registry.AlwaysSound | pkg/hal/hal.go:343-422 | after every run of additions and removals no index entry dangles, each carries its index value, and the name lists are sorted, duplicate-free, disjoint and cover the live interfaces |
| Registry.AddKeepsCompleteExactly | pkg/hal/hal.go:357-365 | an addition keeps every live interface findable exactly when it takes no lower name or NetFlow id in use |
| Registry.RemoveKeepsComplete | pkg/hal/hal.go:392-415 | a removal keeps every live interface findable |
| Registry.CompleteExactly | pkg/hal/hal.go:343-422 | over a run every live interface is findable at every moment exactly when no addition clashed |
| Registry.DistinctNowIsNotEnough | pkg/hal/hal.go:406 | a concrete run after which the only live interface is not found by its lower name |
| Registry.AddRemoveRestoresExactly | pkg/hal/hal.go:343-422 | adding and removing restores all maps and lists exactly when lower name and NetFlow id were unused |
| Registry.VisitsEachOnce | pkg/hal/hal.go:708-737 | after every run LAN names followed by WAN names, each by name, list every live interface once and no missing one |
| InterfaceMap.Interfaces.NewInterface | pkg/hal/hal.go:343-380 | returns no interface exactly for a failed option or duplicate upper name and then changes nothing; otherwise all maps and lists gain it and a running monitor is asked to watch it |
| InterfaceMap.Interfaces.RemoveInterface | pkg/hal/hal.go:392-422 | all maps and lists lose the interface's keys, also when the monitor refuses and the call fails; nothing changes for an unknown name |
| InterfaceMap.Interfaces.FindInterfaceByLower | pkg/hal/hal.go:559-570 | what it finds is live and has that lower name |
| InterfaceMap.Interfaces.FindInterfaceByNetFlowId | pkg/hal/hal.go:572-583 | what it finds is live and has that valid id |
| InterfaceMap.Interfaces.FindInterfaceByNextHop | pkg/hal/hal.go:585-596 | finds exactly the WAN interfaces, by upper name |
| InterfaceMap.Interfaces.CopyInterfaces | pkg/hal/hal.go:537-557 | one live interface per name, in order |
| InterfaceMap.Interfaces.StartMonitor | pkg/hal/hal.go:617-628 | a starting monitor is asked to watch every live interface, LAN before WAN |
| InterfaceMap.Interfaces.VisitAll | pkg/hal/hal.go:719-737 | visits in order and stops after the first rejected call |
| InterfaceMap.Interfaces.GetInterfaces | pkg/hal/hal.go:708-717 | LAN before WAN; a visitor that never fails sees each live interface exactly once |
| FlowWindows.PublishedSums | pkg/hal/hal.go:746-792 | a window holds, per key with messages, the sums of its own messages modulo 2^64, the first flow and the last interfaces, and nothing else |
| FlowMessages.FiledExactly | pkg/hal/hal.go:748-773 | a message is filed under a flow's key exactly when it has the flow's addresses and, cut to their widths, its protocol and ports; IPv6 to IPv6 aside |
| FlowMessages.WindowAccounts | pkg/hal/hal.go:746-792 | per key, a window holds the sum of the bytes and that of the packets of its own messages modulo 2^64, the first one's five-tuple, and the registry's names for the last one's ingress and egress ids |
| FlowMessages.FlowAccounts | pkg/hal/hal.go:746-792 | for a flow, its own messages are exactly those with its five-tuple |
| FlowMessages.MessagesConserved | pkg/hal/hal.go:746-821 | over every run, bytes in live and drained windows are those of all messages received, and so for packets: modulo 2^64 and exactly below it |
| FlowMessages.TotalsOfWindow | pkg/hal/hal.go:746-821 | the totals of a window are the sums of its byte and of its packet counters |
| FlowNames.NameIsLive | pkg/hal/hal.go:760-769 | a flow is named after a live interface that has the id |
| FlowNames.NamedExactly | pkg/hal/hal.go:760-769 | if no index was ever taken twice, an id has a name exactly when a live interface has it, and then that one's |
| FlowWindows.BatchesCompose | pkg/hal/hal.go:746-747 | how messages are cut into batches does not matter |
| FlowWindows.Conservation | pkg/hal/hal.go:746-821 | over every run of publishing and draining, live and drained totals equal what was published, modulo 2^64 and exactly below it |
| FlowWindows.IntervalsCover | pkg/hal/hal.go:799-800 | the intervals of the drains cover the run without gap or overlap |
| FlowWindows.PartsAddUp | pkg/hal/hal.go:812-817 | any selection of a window's flows and the rest add up to the window |
| FlowRates.Millis | pkg/hal/hal.go:46-49 | the interval in whole milliseconds, at least one; a negative one wraps |
| FlowRates.RateExactly | pkg/hal/hal.go:52-54 | the rate is floor((1000x+999)/m) for every interval exactly when 1000x+999 fits 64 bits |
| FlowRates.RateIsExactly | pkg/hal/hal.go:52-54 | the rate r of a counter x over m is the one number with r*m <= 1000x+999 < (r+1)*m |
| FlowRates.RateBounds | pkg/hal/hal.go:52-54 | at least the floor of the true rate, at most its ceiling from one second on, exact over one second |
| FlowRates.PassesExactly | pkg/hal/hal.go:814 | a flow reaches the threshold exactly when 1000*bytes+999 >= threshold*m |
| FlowRates.PassesMonotone | pkg/hal/hal.go:814 | more bytes never lose delivery below the wrap |
| FlowRates.WrappedRateFalls | pkg/hal/hal.go:54 | one byte beyond the largest counter that fits, delivery is lost |
| FlowTable.DeliveredPlusSuppressed | pkg/hal/hal.go:812-817 | delivered and suppressed flows of a drain add up to its window |
| FlowTable.ReportedExactly | pkg/hal/hal.go:814 | a flow of a window is reported exactly when 1000*bytes+999 >= threshold*m |
| FlowTable.TelemetryDelivers | pkg/hal/hal.go:45-67 | telemetry shows an aggregate's own counters and names, and of each counter its own rate |
| FlowTable.DeliveriesAddUp | pkg/hal/hal.go:812-817 | the bytes and the packets delivered add up to those of the delivered flows |
| FlowTable.Flows.Publish | pkg/hal/hal.go:746-792 | the method leaves the window that the declarative sum describes |
| FlowTable.Flows.Record | pkg/hal/hal.go:771-790 | the loop over prepared messages, absorbed one by one |
| FlowTable.Flows.GetFlows | pkg/hal/hal.go:794-821 | empties the window, restarts the clock and delivers exactly the flows at or above the threshold, each once, with its own counters, names and rates; the totals delivered are those of the reported part of the window |
| Calendar.YearsByFormula | pkg/twamp/timestamp.go:17 | the days before a year, summed year by year, by the closed Gregorian formula |
| Calendar.DateOf | pkg/twamp/timestamp.go:17 | a day number becomes a valid date with that number |
| Calendar.DateOfNumber | pkg/twamp/timestamp.go:17 | a valid date is recovered from its day number |
| Calendar.ShiftMonotone | pkg/twamp/timestamp.go:17-26 | shifting by whole years keeps the order of days, strictly unless the earlier is a 29 February |
| Calendar.SeventyAndBack | pkg/twamp/timestamp.go:17-26 | seventy years on and back returns every day, except a 29 February, which returns as 1 March |
| Timestamps.EncodesExactly | pkg/twamp/timestamp.go:15-22 | the shifted seconds fit 32 bits exactly for 1900-01-01T00:00:00 to 2036-02-07T06:28:15 |
| Timestamps.RoundTripExactly | pkg/twamp/timestamp.go:15-36 | decoding an encoded instant gives it back to the nanosecond exactly when it is in that range and no 29 February |
| Timestamps.LeapDayReadsAsMarch | pkg/twamp/timestamp.go:15-36 | a 29 February in range reads as 1 March of the same year at the same time of day |
| Timestamps.InRangeReadsSettled | pkg/twamp/timestamp.go:15-36 | in range, decoding gives the instant, moved a day only from 29 February |
| Timestamps.FractionCarries | pkg/twamp/timestamp.go:24-28 | fractions of whole seconds and more are carried into the seconds |
| Timestamps.OrderExactly | pkg/twamp/timestamp.go:15-22 | timestamps compare as the instants they stand for; encoding is strictly monotone off 29 February |
| Wire.PutU16 | pkg/twamp/connection.go:144-145 | writes a big-endian number that reads back, and no other byte |
| Wire.PutU32 | pkg/twamp/connection.go:146-153 | the same for 32 bits |
| Wire.U32Identifies | pkg/twamp/test.go:111 | two 32-bit fields read as the same number exactly when their bytes are the same |
| Wire.U16Order | pkg/twamp/test.go:118 | 16-bit numbers compare as their bytes do, the first byte first |
| Wire.U32Order | pkg/twamp/test.go:111 | so do 32-bit numbers |
| Wire.Filled | pkg/twamp/client.go:80-90 | one read into a zeroed buffer: excess bytes cut, missing ones zero |
| Wire.Buffer.Next | pkg/twamp/test.go:111-131 | hands out the next bytes, fewer when fewer remain, and keeps the rest |
| TwampSession.Encode | pkg/twamp/connection.go:126-154 | every field of the Request-TW-Session message reads back from the array, and no byte outside the fields changes |
| TwampSession.MessagesIdentify | pkg/twamp/connection.go:126-154 | two encoded messages are equal exactly when their fields are: fields do not overlap and nothing else varies |
| TwampSession.CarriesExactly | pkg/twamp/connection.go:126-154 | a message encodes a request exactly when it is the sequence of fields of section 3.5 of RFC 5357, in order, unset fields zero |
| TwampSession.RequestBytes | pkg/twamp/connection.go:141-154 | which byte carries what: command 5, the client's address before the server's, each figure of the configuration cut to its width |
| TwampSession.ServerReadsExactly | pkg/twamp/connection.go:141-154 | a server reads the client's configuration exactly when it fits the widths, and its clock exactly when the instant round-trips |
| TwampSession.SameMessageExactly | pkg/twamp/connection.go:141-154 | two clients send the same message exactly when addresses and start agree and the fields agree modulo 2^16 or 2^32 |
| TwampSession.NewTwampAcceptSession | pkg/twamp/connection.go:187-194 | accept code, port and session id at their offsets |
| TwampSession.CreateSession | pkg/twamp/connection.go:156-179 | sends the 112-byte message, zero outside its fields; a session exists exactly when the read succeeds and the code is 0 or above 5, on the port of the answer |
| TwampStats.Jitter | pkg/twamp/results.go:64-79 | the loop returns the mean step between successive times, fraction dropped, and zero below two results |
| TwampStats.JitterExactly | pkg/twamp/results.go:64-79 | of n times, at least two, the jitter is the one number j with (n-1)*j <= the sum of the steps < (n-1)*(j+1) |
| TwampStats.JitterOfEqualSteps | pkg/twamp/results.go:64-79 | steps of one length have that length as their jitter |
| TwampStats.JitterOfOneWay | pkg/twamp/results.go:64-79 | the jitter is at least the distance from first to last divided by n-1, and exactly that for times that never turn round |
| TwampStats.JitterBound | pkg/twamp/results.go:64-79 | the jitter is at most the spread of the times |
| TwampStats.VariationCovers | pkg/twamp/results.go:71-77 | the steps add up to at least the distance from first to last, and to exactly that distance when, and only when, the times never turn round |
| TwampStats.VariationJoins | pkg/twamp/results.go:71-77 | the lengths of the steps add up wherever the times are cut |
| TwampStats.ExtremesStep | pkg/twamp/test.go:263-272 | one more time keeps minimum and maximum those of all times so far |
| TwampStats.SumJoins | pkg/twamp/test.go:274 | the total adds up wherever the times are cut |
| TwampStats.AverageExactly | pkg/twamp/test.go:280 | with non-negative times the average is the sum over the probes sent exactly when the sum fits a duration |
| TwampStats.AverageNegativeExactly | pkg/twamp/test.go:280 | up to a sum of 2^64 it turns negative exactly from a sum of 2^63 to one of 2^64 less the probes sent |
| TwampStats.AverageBounds | pkg/twamp/test.go:280 | the average is between zero and the largest time, and at least the smallest when nothing is lost |
| TwampTest.TwampTest.SendTestMessage | pkg/twamp/test.go:143-170 | number, timestamp, error estimate and filling at their offsets; the number advances modulo 2^32 |
| TwampTest.TwampTest.Run | pkg/twamp/test.go:93-141 | a result exactly when the read succeeds and the reply carries the probe's number, with every field from its offset |
| TwampTest.NextReply | pkg/twamp/test.go:109-131 | consuming the buffer field by field reads every field of the reply at its offset |
| TwampTest.TwampTest.RunX | pkg/twamp/test.go:253-286 | results are the accepted outcomes in order; the statistics summarize exactly these; the number advances by the probes sent |
| TwampTest.TallyStep | pkg/twamp/test.go:259-277 | what the loop does with one outcome keeps its running figures those of all outcomes so far |
| TwampTheorems.TestMessageExactly | pkg/twamp/test.go:146-165 | what the client writes at offsets is exactly the test message of section 4.1.2 of RFC 5357, field after field |
| TwampTheorems.ReplyDecodes | pkg/twamp/test.go:109-131 | a reply laid out field after field as in section 4.2.1 of RFC 5357 decodes to its own fields, whatever its unused bytes and padding |
| TwampTheorems.ReplyJudged | pkg/twamp/test.go:93-141 | of a reply with three clocks, each is read exactly when it fits a timestamp and is no 29 February; number, error estimates and time to live are each its own |
| TwampTheorems.WaitOfReply | pkg/twamp/results.go:25-27 | the reported wait is the time from receiving the probe to answering it |
| TwampTheorems.KeptExactly | pkg/twamp/test.go:259-277 | the results of a run are exactly the accepted outcomes |
| TwampTheorems.AcceptedIncreasing | pkg/twamp/test.go:93-141 | whatever replies arrive, accepted results of fewer than 2^32 sends have strictly increasing numbers, each that of its own probe |
| TwampTheorems.NumbersRepeatExactly | pkg/twamp/test.go:168 | two accepted results share a number exactly when a multiple of 2^32 sends lies between them |
| TwampTheorems.RunsCompose | pkg/twamp/test.go:253-260 | successive runs on one test are one run over all their probes |
| TwampTheorems.AcceptedUntilFirstLoss | pkg/twamp/test.go:134-138 | against a reflector that numbers its own replies a reply is accepted exactly when every probe up to it arrived |
| TwampTheorems.EchoedFields | pkg/twamp/test.go:124-128 | a reply that echoes the first twelve bytes of a probe carries its number and timestamp |
| TwampTheorems.SubExactly | pkg/twamp/results.go:29-31 | the saturating difference equals the true one exactly when the instant read is the instant sent |
| TwampTheorems.SubIsNearest | pkg/twamp/results.go:29-31 | of all durations the difference is the nearest to the true one |
| TwampTheorems.EndToEnd | pkg/twamp/test.go:93-170 | with an echoing reflector the round-trip time is finish minus send exactly when the send instant is in range and no 29 February, and a day less on a 29 February |
| TwampTheorems.StatisticsBounds | pkg/twamp/test.go:253-286 | counts, extremes and when they are taken on, and the jitter, which is the mean step rounded down and lies between the mean distance from first to last and the spread, of any run with non-negative times |
| TwampTheorems.AverageInBounds | pkg/twamp/test.go:280 | the average of a run whose times add up to a duration is between zero and the maximum, and at least the minimum when nothing is lost |
| TwampTheorems.ZeroStampsTurnAverageNegative | pkg/twamp/test.go:253-286 | against a reflector that leaves the sender's timestamp zero, any three probes are accepted with positive times and a negative average |
| Accumulator.AverageF64.U64 | cmd/client/main.go:319-321 | an integer average lies between its two values and is the second when the first has no weight |
| Accumulator.AverageBalances | cmd/client/main.go:315-317 | the distances of the average to its two values are inversely as their weights |
| Accumulator.BalanceUnique | cmd/client/main.go:315-317 | no other number has that property |
| Accumulator.CountBalances | cmd/client/main.go:319-321 | the integer average r satisfies r*(wA+wB) <= a*wA + b*wB < (r+1)*(wA+wB) |
| Accumulator.AverageBetween | cmd/client/main.go:315-317 | a real average lies within any bounds of its two values |
| Accumulator.UpdateAcc | cmd/client/main.go:323-366 | the two loops leave, for exactly the old and the new keys, the updated sample of each, the last one listed deciding |
| Accumulator.Batch | cmd/client/main.go:425-454 | each log entry is the accumulation of the entries so far |
| Accumulator.KeysAreUnion | cmd/client/main.go:372-416 | the keys are exactly those of all entries so far |
| Accumulator.AccOf | cmd/client/main.go:418-423 | every accumulated sample stands under its own key |
| Accumulator.NeverOvershoots | cmd/client/main.go:323-423 | bounds on all samples of a key bound its accumulated figure, if they include zero or the key stays present |
| Accumulator.ValueByAge | cmd/client/main.go:327-330 | the accumulated value is the sample, then figure by figure the average of two weighted by their times, then the latest reading alone |
| Accumulator.LatestIsLast | cmd/client/main.go:324-346 | of several samples of a key in one entry the last one counts |
| Accumulator.TextsFromLatest | cmd/client/main.go:324-365 | the texts of an accumulated sample are those of the last entry that held its key |

## Left out

- Transport and formats: SSH, NETCONF framing, gRPC, gNMI, XML, templates and JSON; rules and replies are data.
- Tunnels: `AddTunnel` and `DeleteTunnel` only as an edit elsewhere in the candidate followed by a commit.
- `SetAclRuleIndex`, which lets a caller move the allocator: the run theorems start from a flush or a reload.
- Controller.Device.Commit: does not model a commit that takes effect while its reply is lost.
- Controller.Controller.CommitChanges: the text search for an empty commit in the error is an answer of the device.
- Controller.Controller.Steer: ids are unbounded; the overflow of a 64-bit `int` after 10^18 fresh ids is not modelled, nor nil rule pointers.
- RuleMeaning.RuleSelectsExactly: what a device makes of a rule is the meaning of its texts; the order in which it tries rules is not modelled.
- Readback.ReadYourWritesExactly: for IPv4 TCP or UDP flows steered to named interfaces, from a state in which cache and device agree and the id of the default rule holds that rule or none; flows of other protocols are read back under another key (`SteerRules.ReadsBackExactly`).
- Controller.Controller.InitNetConf: rule ids are natural numbers; failures to reach or read the device, which end the program, are not steps.
- Reload.RestartExactly: ids of rules removed before a restart may be handed out again after it; that an id has one key for ever is promised within one program run.
- InterfaceMap.Interfaces.NewInterface: options are the four values and one failing lookup; what the monitor does with its requests is not modelled.
- Interface telemetry fields and `updateInterfaceDelayJitter`: plain assignments.
- Locks and data races: each message and each call is one atomic step.
- FlowTable.Flows.GetFlows: the debug dump and the ignored error of the visitor are not modelled.
- FlowTable.Flows.Publish: the registry is fixed while one batch is published.
- Timestamps.RoundTripExactly: instants are UTC; time zones with jumps are not modelled.
- Timestamps.EncodesExactly: the fraction holds nanoseconds, as the code has it, not the binary fraction of NTP.
- TwampStats.Jitter: floats are reals, so rounding beyond 2^53 and the conversion of values beyond 63 bits are not modelled.
- TwampTest.TwampTest.RunX: a zero count divides by zero in the program and is excluded; `stdDev` and the loss percentage are floats and not modelled.
- TwampTheorems.AverageInBounds: assumes a sum that fits a duration; `TwampStats.AverageExactly` and `TwampStats.AverageNegativeExactly` say what happens otherwise.
- TwampTheorems.EndToEnd: assumes a difference of less than 292 years, beyond which the library saturates.
- `Ping`, which repeats the loop of `RunX` with printing.
- TWAMP greeting, set-up and stop messages, authenticated modes, sockets and their options, and TCP answers that arrive in pieces.
- TwampSession.Encode: the addresses of the connection are given as numbers; parsing them is not modelled. The IP version field, which RFC 4656 puts in the second byte, stays zero, as in the code.
- Accumulator.UpdateAcc: one function stands for the interface and the flow update, which differ in the list of figures; a sample must carry a positive time, as the ticks of `batch` do.
- Accumulator.NeverOvershoots: floats are reals.
- Command lines, configuration, terminal output and the mock HAL.
