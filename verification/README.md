# Verification of the monitoring pipeline

A Dafny model of a host-monitoring system and proofs about it. Kernel programs count packets per CPU in an eBPF map; a
monitor on each host turns counters into rates and percentages and pushes one message for each round to a server; a
poller fetches all messages, stores them in SQL tables, and once an hour writes one summary row for each host.
`dafny verify dfyconfig.toml` checks everything.

The files follow the data:

* `if_stats.dfy` — the two TC programs and the per-CPU map as atomic steps that interleave freely, and a reader that
  copies one word at a time. Programs arrive on any CPU at any time; a step is a lookup, an insert, or one atomic
  addition.
* `net_monitor.dfy` — the walk over the map's keys while new ones come in, the per-CPU sum, and the rates of successive
  polls, with unsigned 64-bit subtraction written out. `traffic.dfy` joins it to the steps: a whole
  poll over the stepping map, and rates against packets.
* `netlink.dfy`, `netlink_format.dfy`, `netlink_roundtrip.dfy` — the parser of the link dump over a byte array, what any
  bytes mean to it, and an encoder.
* `tc_hooks.dfy` — attaching, rolling back and removing the two programs of every interface, over a hook and filter
  state machine in which an oracle may make any call fail. Every theorem covers two kinds of library: one hook for each
  direction, which a destroy call removes, or one queueing discipline that both directions share, where creating one hook
  brings the other and destroying one only empties it.
* `cpu_stat.dfy`, `disk_stat.dfy`, `read_file.dfy` — the CPU and disk monitors and the line reader.
* `rpc_server.dfy`, `host_ids.dfy`, `summary.dfy`, `buckets.dfy`, `scores.dfy`, `client.dfy` — the server's map and the
  poller: host ids, the join query, hourly buckets, scores, and the store loop that uses them.
* `pipeline.dfy` — the whole protocol as steps: push, fetch, failed fetch, storing one host, restarts of either process.
* `words.dfy`, `interfaces.dfy`, `proto.dfy` — shared definitions.

Objects whose methods update fields are classes; each method is proved against a specification function or a relation,
and the theorems are about those. `float` and `double` are exact reals. A clock reading, a return code, a received
buffer, the order of a hash map and the success of an SQL statement are parameters, so a theorem holds for all of them.

Results where the code does not meet what one would expect, each with the exact condition:

* A host name gets a second row exactly when a SELECT is not executed, the name has a row that is not cached, and the
  INSERT goes through (`HostIds.NamesStayUniqueExactlyWhen`, over runs `HostIds.NamesUniqueExactlyWhen`, with
  `HostIds.FailedSelectDuplicates`).
* The steal share computed by the poller is right exactly when time has passed since a cached sample. Otherwise all
  percentages sent are 0 and the poller takes the CPU for 100 percent stolen (`CpuStats.StealRecovered`).
* An attach visit ends with one program only exactly when, seen from before the visit, the ingress attach will go
  through, the egress attach will not, the detach that follows will fail, and so will the destruction of the ingress
  hook if the visit created it (`TcHooks.AllOrNothing`, with `TcHooks.FailedRollbackStaysHalfAttached`).
* After the destructor a program is still attached exactly when its detach fails and its hook's flag is not set or the
  hook's destruction fails as well; the destructor ignores return codes, so any of this can happen unnoticed
  (`TcHooks.TearDownLeaves`, `TcHooks.RunLeaves`, with `TcHooks.RefusedTearDownLeavesBoth`). With shared hooks the egress
  flag is not even set after a good set-up, so a refused detach alone keeps the egress program
  (`TcHooks.RefusedDetachLeavesEgress`); and no teardown removes a shared hook that the set-up created
  (`TcHooks.TearDownUndoesSetUp`).
* The copy of an interface name stays inside the buffer exactly when the rest of the buffer holds a NUL or at least 15
  bytes (`Netlink.CopyStaysInside`); the parser can be led
  to an attribute where it does not (`Netlink.NameBehindBuffer`).
* Every hour the poller spans is updated, whatever its clock readings, exactly when they are guaranteed to be at most a
  minute apart. The loop sleeps a whole minute and then works, so this is not guaranteed by the code
  (`Buckets.GuaranteeExactlyUpToAMinute`).
* Running an update again in the same hour sees the same rows exactly when none was stamped at the bucket time itself
  (`Buckets.SameRowsUnlessAtBucket`).
* Network rates account for all traffic exactly when every poll without elapsed time repeats the reading before it
  (`NetMonitoring.RatesAccountForTraffic`, `NetMonitoring.SameInstantLosesTraffic`).

Where comments and code disagree, the model follows the code: the load score falls from a load of 0 on (the comment says
2), the latency score is 0 from an average of 50 ms on (the comment says 100), and `send_rate_mbps` holds kilobytes per
second. The walk over the map starts behind key 0, so keys up to and including a key 0 are skipped
(`NetMonitoring.WalkVisitsEachOnce`).

Assumptions, stated as preconditions where they are needed: CPU and disk counters do not decrease and CPU totals stay
below 2^64; between two polls a network counter grows by less than 2^64; the snapshot bounds are stated below
wrap-around; every encoded interface name is NUL-terminated or fills the 15 bytes that are copied; before the run no
program of it is attached; keys are only added to the eBPF map, at most 128, and adding one keeps the order of the
others.

## Model

| member | source | states |
|---|---|---|
| IfStats.Conservation | bpf/net_monitor.bpf.c:15-51 | In every interleaving on any number of CPUs, for each interface and counter, ingress packets counting as received and egress packets as sent: the slots summed over CPUs plus what is in flight equal everything that arrived, in 64-bit arithmetic; nothing is counted for an interface outside the map |
| IfStats.MissedOnlyWhenFull | bpf/net_monitor.bpf.c:21-27 | A packet goes uncounted only if the map holds 128 keys without its own, and then no packet of that interface was ever counted |
| IfStats.ProgramsFinish | bpf/net_monitor.bpf.c:21-31 | In every interleaving a program is through after five steps of its own |
| IfStats.QuiescentIsExact | bpf/net_monitor.bpf.c:15-51 | Once all programs are through, the slots of an interface in the map, summed over CPUs, are all that ever arrived for it |
| IfStats.RunKeepsInv | bpf/net_monitor.bpf.c:8-51 | Every step keeps the map within 128 keys and each slot equal to the wrapped tally of its own CPU's additions; an insert never erases a count |
| IfStats.SumOverCpus | monitor/src/net_monitor.cpp:203-209 | The tallies of the single CPUs add up to the tally over all CPUs |
| IfStats.SlotGrows | bpf/net_monitor.bpf.c:28-29 | Below wrap-around no step decreases a slot or removes a key |
| IfStats.SnapshotBounds | monitor/src/net_monitor.cpp:200-209 | A read that copies word by word while packets keep arriving returns a sum between the true totals at its start and at its end |
| IfStats.ReadsFinish | monitor/src/net_monitor.cpp:200-200 | A read is through once it has copied four words for each CPU, whatever the programs do meanwhile |
| IfStats.PollsNeverDecrease | monitor/src/net_monitor.cpp:198-209 | Below wrap-around a later poll of an interface never returns less than an earlier one |
| IfStats.IfStatsMap.UpdateElemNoExist | bpf/net_monitor.bpf.c:23-23 | Insert if absent: a present key and a full map are left alone, a new key gets zeroed slots |
| IfStats.IfStatsMap.OnEgress | bpf/net_monitor.bpf.c:15-32 | The program as straight-line code leaves the table that its atomic steps leave when nothing intervenes: in the own CPU's slot of the interface, sent bytes and packets grow by the length and 1 and the received ones stay; nothing else changes; on a full map without the interface nothing does |
| IfStats.IfStatsMap.OnIngress | bpf/net_monitor.bpf.c:34-51 | The mirror image: received bytes and packets grow and the sent ones stay |
| IfStats.EgressIsSent | bpf/net_monitor.bpf.c:28-29 | The atomic steps of an egress program, run alone, change exactly those fields of the counter block |
| IfStats.IngressIsReceived | bpf/net_monitor.bpf.c:48-49 | So do those of an ingress program |
| IfStats.AloneAddsOnePacket | bpf/net_monitor.bpf.c:15-51 | Run alone, a program adds its packet's length and 1 to the words of its direction in its own CPU's slot and changes nothing else; on a full map without the interface it changes nothing |
| Words.SubLow64 | monitor/src/net_monitor.cpp:590-593 | The wrapped difference of two 64-bit readings is the true increment when that increment is below 2^64 |
| Words.Sum64OfLow64 | monitor/src/net_monitor.cpp:203-209 | Adding wrapped per-CPU words in a 64-bit register gives the wrapped true sum |
| NetMonitoring.WalkVisitsEachOnce | monitor/src/net_monitor.cpp:172-242 | While packets of new interfaces add keys in any place, the walk ends, visits no key twice and none that is not in the map, and of the keys there at its start exactly those behind a key 0 |
| NetMonitoring.NetMonitor.EbpfGetNetStats | monitor/src/net_monitor.cpp:163-253 | Every call for the next key may find a grown map; the loop ends, the readings are those of the visited keys, and the running total re-adds each reported reading; without BPF or memory nothing changes |
| NetMonitoring.NetMonitor.ReportKey | monitor/src/net_monitor.cpp:200-240 | A key is reported unless its lookup fails, its name is gone or its interface is virtual; adding only non-zero sums to the total is the same as adding all |
| NetMonitoring.AddUp | monitor/src/net_monitor.cpp:203-209 | The loop over CPUs computes the four 64-bit column sums |
| NetMonitoring.SumCpusFields | monitor/src/net_monitor.cpp:203-209 | In the fields of the counter block: no CPU sums to zeros, and one CPU more adds its four fields to the four sums |
| NetMonitoring.ReadingNames | monitor/src/net_monitor.cpp:198-242 | Exactly the names of reported keys appear |
| NetMonitoring.ReportedExactly | monitor/src/net_monitor.cpp:200-223 | A key is left out exactly if its lookup failed, it has no name any more, or the name is `lo` or begins with one of six prefixes |
| Interfaces.VirtualExactly | monitor/src/net_monitor.cpp:47-52 | A name is virtual exactly if it is `lo`, or veth, docker, br, virbr, tun or tap and anything more |
| NetMonitoring.ReadingsExact | monitor/src/net_monitor.cpp:198-242 | The names that appear are those that some visited key reports last, each with the per-CPU sum of the last visited key of that name |
| NetMonitoring.TotalGrows | monitor/src/net_monitor.cpp:225-236 | The running total grows by the sums of all reported keys |
| NetMonitoring.NetMonitor.UpdateOnce | monitor/src/net_monitor.cpp:524-637 | One message for each interface read, in some order, rated against the reading cached before the call; the cache is replaced for those interfaces and kept for all others, and untouched without eBPF data |
| NetMonitoring.RatesTelescope | monitor/src/net_monitor.cpp:576-636 | Over any run, with the interface missing from any polls: rates times the times between the polls' own clocks, plus what polls without elapsed time swallow, equal last minus first counter modulo 2^64, for bytes and packets both ways |
| NetMonitoring.VolumeIsTrueTraffic | monitor/src/net_monitor.cpp:588-600 | When each true increment is below 2^64, that sum is the growth of the unbounded counter however often the readings wrap |
| NetMonitoring.RatesAccountForTraffic | monitor/src/net_monitor.cpp:586-600 | The rates account for all traffic if and only if every poll without elapsed time brings the reading already cached; with a strictly advancing clock that is every run |
| Traffic.ReadBounds | monitor/src/net_monitor.cpp:198-209 | A reading of a key lies between what the programs had counted when its read began and when it ended |
| Traffic.WholePoll | monitor/src/net_monitor.cpp:197-242 | A poll of all keys while the programs go on: the keys visited are keys of the stepping map, each once, and of those there at the first call exactly the ones ahead of a key 0; every name reported has in each counter a reading within the bounds of its own key's read |
| Traffic.VolumeOfRounds | monitor/src/net_monitor.cpp:576-636 | Over any number of such polls the rates times their times are the last reading less the first |
| Traffic.RatesMatchPackets | monitor/src/net_monitor.cpp:524-637 | However programs and reads interleave, below wrap-around: the rates of all polls after the first account for no more than what was counted from the beginning of the first read to the end of the last, and for no less than from the end of the first to the beginning of the last |
| NetMonitoring.NothingUnreported | monitor/src/net_monitor.cpp:586-588 | A strictly advancing clock leaves nothing unreported |
| NetMonitoring.SameInstantLosesTraffic | monitor/src/net_monitor.cpp:586-635 | Two polls at one instant: the second overwrites the cache and seven packets are never reported |
| NetMonitoring.CacheHoldsLastRead | monitor/src/net_monitor.cpp:624-635 | Over any run the cache holds for each interface the counters, error counts and clock of the last poll that read it |
| NetMonitoring.MessageFromClocks | monitor/src/net_monitor.cpp:576-621 | Over any run: a message carries its interface's name and error counts, and each of its eight rates times the time since the last poll that read the interface is its own counter's increment since that poll, in terms of the polls alone; without elapsed time all rates are zero |
| NetMonitoring.FirstMessage | monitor/src/net_monitor.cpp:577-583 | The first message for an interface has no rates |
| Netlink.GetNetworkInterfaces | monitor/src/net_monitor.cpp:118-149 | On every buffer and received length the parser ends, reads header words only inside the received bytes, returns what the bytes mean, and no virtual or over-long name |
| NetlinkFormat.ParserFollowsMessages | monitor/src/net_monitor.cpp:120-148 | For any bytes, however malformed: what they mean is what the links at a chain of offsets add in turn; the chain goes from message to message by their lengths and ends at DONE or where no message fits |
| NetlinkFormat.ScanFollowsAttributes | monitor/src/net_monitor.cpp:132-146 | For any bytes: the name of a link is the one at the end of a chain of attribute offsets, none of which before is a name, or there is none if the chain ends where no attribute fits |
| Netlink.ParseMessages | monitor/src/net_monitor.cpp:122-148 | The message loop, whose remaining length may drop below zero through alignment, yields the map that the received bytes denote |
| Netlink.ParseLink | monitor/src/net_monitor.cpp:127-147 | One link message adds its index and first name unless the interface is virtual, and nothing when it is shorter than a link template |
| Netlink.FindIfName | monitor/src/net_monitor.cpp:132-146 | The attribute loop finds the first interface name within the message, or none |
| Netlink.Strncpy | monitor/src/net_monitor.cpp:134-136 | The name is the bytes in order, up to the first NUL, the limit or the end of the buffer; with one of them inside the buffer it is the same whatever lies behind the buffer |
| Netlink.CopyNameExactly | monitor/src/net_monitor.cpp:134-136 | Character for character, the name is the bytes before the first NUL, at most 15 of them |
| Netlink.CopyStaysInside | monitor/src/net_monitor.cpp:134-136 | The copy looks at no byte behind the buffer, and depends on none, if and only if the rest of the buffer holds a NUL or at least 15 bytes |
| Netlink.NameBehindBuffer | monitor/src/net_monitor.cpp:132-136 | A full 4096-byte buffer holds a message that the parser accepts and whose name attribute ends with the buffer: its name is whatever lies behind |
| Netlink.LinksNamesOk | monitor/src/net_monitor.cpp:134-141 | For any bytes: no name in the result is virtual, longer than 15 characters or contains NUL |
| NetlinkRoundTrip.RoundTrip | monitor/src/net_monitor.cpp:118-149 | Parsing any encoded list of messages, whatever lies behind it in the buffer, yields exactly the map from index to first name of the non-virtual links before the first DONE |
| NetlinkRoundTrip.NamesRoundTrip | monitor/src/net_monitor.cpp:118-149 | A dump of any interfaces, each with its name as a string among other attributes, ended by DONE and followed by anything, is parsed to exactly those strings by index, without the virtual ones |
| NetlinkRoundTrip.LinkRoundTrip | monitor/src/net_monitor.cpp:127-147 | Parsing one encoded link message recovers its signed index and its first name |
| NetlinkRoundTrip.AttrsRoundTrip | monitor/src/net_monitor.cpp:132-146 | The attribute scan over encoded, padded attributes finds the first name attribute's string |
| TcHooks.AllOrNothing | monitor/src/net_monitor.cpp:433-491 | For every sequence of return codes, foretold from the state before the visit: both programs are attached exactly when hooks are usable and both attach calls will go through, and both or neither exactly unless only the egress attach will fail and then detach and hook destruction too |
| TcHooks.VisitExactly | monitor/src/net_monitor.cpp:433-491 | For every sequence of return codes, foretold from the state before the visit and its exit: which flags are set, which hooks are there afterwards, and how many calls were made |
| TcHooks.FailedRollbackStaysHalfAttached | monitor/src/net_monitor.cpp:477-484 | Without hooks before, calls failing from the sixth on leave the ingress program alone attached |
| TcHooks.VisitLeaves | monitor/src/net_monitor.cpp:433-491 | A visit touches no other interface and leaves at most its own program in its own slot; a new hook has its created flag set, and a shared one is there exactly if it was before or one of the two flags is set |
| TcHooks.EveryInterfaceSettled | monitor/src/net_monitor.cpp:430-491 | After the whole loop what `AllOrNothing` and `VisitLeaves` state holds for every interface at once, each foretold from the state its own visit finds |
| TcHooks.TearDownLeaves | monitor/src/net_monitor.cpp:642-650 | For every sequence of return codes: a program is gone exactly when it was not there, its detach goes through, or its flagged hook is destroyed; a hook is gone exactly when it was not there, or is not shared, flagged and its destruction goes through |
| TcHooks.TearDownAllLeaves | monitor/src/net_monitor.cpp:639-650 | The same for every interface at once, each from the state its own teardown finds, leaving others alone |
| TcHooks.RunLeaves | monitor/src/net_monitor.cpp:430-650 | For every sequence of return codes over set-up and teardown: what `EveryInterfaceSettled` and `TearDownAllLeaves` state, the teardown with the flags that the set-up left |
| TcHooks.TearDownUndoesSetUp | monitor/src/net_monitor.cpp:639-650 | In particular, whatever happened while attaching, a teardown whose own calls go through leaves none of the run's programs, although flags of rolled-back hooks stay set; it leaves no hook that was not there before, except that shared hooks are there exactly if they were before or the set-up flagged one |
| TcHooks.RefusedTearDownLeavesBoth | monitor/src/net_monitor.cpp:639-650 | After a set-up that went through, a teardown whose every call fails leaves both programs attached |
| TcHooks.SetUpGoesThrough | monitor/src/net_monitor.cpp:442-489 | Without hooks before, six calls that go through attach both programs also when the egress call answers that the shared hook exists; then only the ingress flag is set |
| TcHooks.RefusedDetachLeavesEgress | monitor/src/net_monitor.cpp:642-650 | With shared hooks, after such a set-up, a teardown in which only the two detach calls fail removes the ingress program and leaves the egress program |
| TcHooks.TcAttachments.constructor | monitor/src/net_monitor.cpp:394-491 | Filling the arrays and looping with a hand-kept index performs exactly one visit of each interface in order and records its flags |
| TcHooks.TcAttachments.NameHooks | monitor/src/net_monitor.cpp:395-428 | After the filling loop index i names interface i in both hook arrays |
| TcHooks.TcAttachments.AttachAll | monitor/src/net_monitor.cpp:432-491 | The index always names the interface being visited, and every flag is the one of its visit |
| TcHooks.TcAttachments.AttachInterface | monitor/src/net_monitor.cpp:434-490 | Each of the five exits moves the index on by one and leaves kernel and flags as the visit says |
| TcHooks.TcAttachments.AttachBoth | monitor/src/net_monitor.cpp:464-487 | The two attach calls and their rollbacks |
| TcHooks.TcAttachments.TearDown | monitor/src/net_monitor.cpp:639-650 | The destructor performs the teardown of every interface in order |
| CpuStats.CpuStatMonitor.UpdateOnce | monitor/src/cpu_stat_monitor.cpp:6-110 | One message for each slot before the first unnamed one, each against the sample cached last for its name; without a mapping nothing changes |
| CpuStats.NamedIsPrefix | monitor/src/cpu_stat_monitor.cpp:26-29 | The samples taken are those before the first slot without a name, or all |
| CpuStats.MessageFromSamples | monitor/src/cpu_stat_monitor.cpp:30-106 | Over any run, in terms of the samples alone: message i carries sample i's name, and each of its eight percentages times the time since the last sample of that CPU is 100 times its own counter's increment; all are zero without elapsed time or an earlier sample |
| CpuStats.CallsCompose | monitor/src/cpu_stat_monitor.cpp:26-107 | Several calls in a row send and cache what one call on all their samples would |
| CpuStats.DeltaIsExact | monitor/src/cpu_stat_monitor.cpp:36-70 | For growing counters the 64-bit differences are the true increments, and busy, idle and I/O wait add up to the elapsed total |
| CpuStats.StealRecovered | performance_server/src/performance_server.cpp:104-110 | 100 minus the seven percentages is exactly the steal share if and only if time has passed since a cached sample; otherwise it is 100 |
| CpuStats.SharesInRange | monitor/src/cpu_stat_monitor.cpp:47-93 | Every percentage lies in 0..100, and the busy one is what idle and I/O wait leave when time has passed |
| CpuStats.OneSample | monitor/src/cpu_stat_monitor.cpp:47-93 | Each percentage times the elapsed total is 100 times its own counter's increment, also when nothing elapsed |
| CpuStats.SharesTelescope | monitor/src/cpu_stat_monitor.cpp:30-106 | Over any run of any number of CPUs, for each of the eight percentages: weighted with elapsed totals they add up to 100 times last minus first of their counter |
| DiskStats.DiskMonitor.UpdateOnce | monitor/src/disk_monitor.cpp:6-71 | The two caches always know the same disks and together hold the last reading of each; one message for each non-virtual line, rated against the reading before |
| DiskStats.DiskMonitor.Process | monitor/src/disk_monitor.cpp:19-69 | One line: a virtual disk changes nothing, any other replaces its own entry in both caches only |
| DiskStats.RatesTelescope | monitor/src/disk_monitor.cpp:36-69 | Over any run: bytes, operations and busy time reported as rates over the times between the lines add up to the counters' growth less what fell into readings of the same second |
| DiskStats.MessageFromClocks | monitor/src/disk_monitor.cpp:11-69 | Over any run, in terms of the lines alone: one message for each line that is not a loop or ram disk, with the line's counters; each rate times the time since the last line of that disk is its own counter's increment, average latencies times operations are the times spent, and everything is zero without elapsed time or an earlier line |
| DiskStats.CallsCompose | monitor/src/disk_monitor.cpp:11-70 | Several calls in a row send and cache what one call on all their lines would |
| ReadFiles.ReadFile.ReadLine | monitor/src/read_file.cpp:4-19 | One line is consumed; its words are appended exactly when it is non-empty and terminated |
| ReadFiles.ReadFile.Split | monitor/src/read_file.cpp:12-17 | The extraction loop ends and yields the line's words, and one empty word after trailing blanks |
| ReadFiles.ReadFile.Extract | monitor/src/read_file.cpp:14-15 | One extraction skips blanks, takes the run that follows, and reports whether it met the end |
| ReadFiles.RunsAreMaximal | monitor/src/read_file.cpp:13-17 | The runs found are maximal stretches without blanks, in order, and cover every other character |
| ReadFiles.MaximalRunsUnique | monitor/src/read_file.cpp:13-17 | A line has only one such list of runs |
| ReadFiles.WordsAreTheRuns | monitor/src/read_file.cpp:13-17 | The words are the texts of those runs |
| ReadFiles.TokensExactly | monitor/src/read_file.cpp:12-17 | For any description of the maximal stretches: the words are their texts, and one empty word more exactly if the line is empty or ends in a blank |
| ReadFiles.BlankExactly | monitor/src/read_file.cpp:15-15 | Blanks are the space and the characters 9 to 13 |
| ReadFiles.LastLine | monitor/src/read_file.cpp:6-9 | A last line without newline is consumed and refused, and so is every read after it |
| ReadFiles.SplitUndoesJoin | monitor/src/read_file.cpp:12-17 | Splitting words joined with single spaces gives them back |
| ReadFiles.ReadsUntilEmptyOrUnterminated | monitor/src/read_file.cpp:6-18 | A caller that reads until the first refusal gets the words of every line before the first empty or unterminated one |
| RpcServer.RpcServerImpl.SetMonitorInfo | grpc/server/src/server.cpp:9-14 | The message replaces the one of its name, all others stay, and every message stays under its own name |
| RpcServer.RpcServerImpl.GetMonitorInfo | grpc/server/src/server.cpp:113-123 | The response has as many entries as the map, each of them the map's, with no name twice |
| RpcServer.ListsEveryName | grpc/server/src/server.cpp:117-121 | Such a response leaves no name of the map out |
| HostIds.HostIdInjective | performance_server/src/performance_server.cpp:427-428 | Different names or times make different ids |
| HostIds.HostIdExactly | performance_server/src/performance_server.cpp:427-428 | An id is `host_`, the name, an underscore and the time |
| HostIds.DecimalIsDecimal | performance_server/src/performance_server.cpp:428-428 | The time is written in digits, with its own value and no leading zero |
| HostIds.GetOrCreateExactly | performance_server/src/performance_server.cpp:395-440 | Exactly what a call answers and leaves: a cached name is answered from the cache; else the first row that an executed SELECT finds; else a row is added by an executed INSERT whose id is not taken; else nothing changes and the answer is empty |
| HostIds.EmptyExactlyWhen | performance_server/src/performance_server.cpp:395-440 | The answer is empty if and only if the name is not cached, no row of it is found, and none can be added |
| HostIds.WorkingCallsAnswer | performance_server/src/performance_server.cpp:409-437 | With both statements executed there is always an answer |
| HostIds.IdDeterminesName | performance_server/src/performance_server.cpp:427-433 | Two rows with one id have one name, and no id is empty |
| HostIds.GetOrCreateAgrees | performance_server/src/performance_server.cpp:395-440 | Whatever fails, every cached id stays a row of the table for its name, nothing is removed, and what is returned is empty or the id of a row of the name asked for |
| HostIds.NamesStayUniqueExactlyWhen | performance_server/src/performance_server.cpp:409-437 | A call keeps one row for each name, except exactly when its SELECT is not executed, the name has an uncached row and the INSERT goes through |
| HostIds.FailedSelectDuplicates | performance_server/src/performance_server.cpp:409-437 | After a restart a failing SELECT gives a known host a second row |
| HostIds.RunAgrees | performance_server/src/performance_server.cpp:395-440 | Over any run with restarts and failures cache and table agree, rows are only added, and every non-empty answer is a row for the name asked for |
| HostIds.NamesUniqueExactlyWhen | performance_server/src/performance_server.cpp:409-437 | Over any such run names stay unique if and only if no request, in the state it finds, gives a name a second row |
| HostIds.WorkingSelectsDuplicateNone | performance_server/src/performance_server.cpp:409-424 | While SELECTs are executed no request does |
| HostIds.IdsAreStable | performance_server/src/performance_server.cpp:395-440 | Over any run after which names are unique, two non-empty answers are equal if and only if they were asked for one name |
| Summaries.WhereBeforeJoin | performance_server/src/performance_server.cpp:724-754 | Filtering on the left-hand side may be done before a LEFT JOIN |
| Summaries.JoinIsProduct | performance_server/src/performance_server.cpp:725-745 | For one host a join on host and window only is a product with the matching rows, or with one NULL row |
| Summaries.AggregatesIgnoreStutter | performance_server/src/performance_server.cpp:714-721 | AVG, MAX and MIN do not change when every value is repeated n times in place |
| Summaries.AggregatesIgnoreTile | performance_server/src/performance_server.cpp:714-721 | Nor when the whole column is repeated n times |
| Summaries.FanOutIsHarmless | performance_server/src/performance_server.cpp:706-755 | For all tables each of the twelve aggregates over the joined rows equals the same aggregate over its own table alone, and without CPU rows nothing is selected |
| Summaries.QueryExactly | performance_server/src/performance_server.cpp:706-755 | For all tables: there is a summary exactly if the host has CPU rows in the window, and each of the twelve columns is the average, the largest or the smallest of the matching values of its own table |
| Summaries.MatchesExactly | performance_server/src/performance_server.cpp:724-754 | A row matches if it is the host's and its time lies in the hour up to the bucket, both ends included |
| Summaries.AvgExactly | performance_server/src/performance_server.cpp:714-720 | AVG times the number of values that are not NULL is their sum; it is NULL without any |
| Summaries.ExtremeExactly | performance_server/src/performance_server.cpp:714-721 | MAX and MIN are among the values that are not NULL and bound them all; they are NULL without any |
| Summaries.NullExactlyWhenEmpty | performance_server/src/performance_server.cpp:714-721 | An aggregate is NULL if and only if its own table has no row of the host in the window |
| Buckets.WindowsOfTime | performance_server/src/performance_server.cpp:726-754 | A time inside an hour lies in exactly one bucket's window, a time on the hour in exactly two |
| Buckets.SameRowsUnlessAtBucket | performance_server/src/performance_server.cpp:746-754 | Rows added later change what an update sees if and only if one of the host is stamped at the bucket time |
| Buckets.RerunSelectsTheSame | performance_server/src/performance_server.cpp:706-755 | Without such rows a second update in the hour selects the same summary |
| Buckets.NoHourMissed | performance_server/src/performance_server.cpp:832-842 | Clock readings at most 60 seconds apart hit the first minute of every hour they span |
| Buckets.GuaranteeExactlyUpToAMinute | performance_server/src/performance_server.cpp:832-842 | A spacing guarantees that no hour is missed if and only if it is at most a minute |
| Buckets.EveryLocalHourGetsItsBucket | performance_server/src/performance_server.cpp:660-664 | In local time, for any zone offset of whole minutes, every hour spanned gets an update under its own bucket |
| Scores.CalculateCpuScore | performance_server/src/performance_server.cpp:189-223 | The loop computes the mean of the core scores, 0 without cores |
| Scores.CalculateDiskScore | performance_server/src/performance_server.cpp:267-306 | The loop computes the mean of the disk scores, 0 without disks |
| Scores.CalculateNetworkScore | performance_server/src/performance_server.cpp:308-349 | The loop computes the mean of the interface scores, 0 without interfaces |
| Scores.CalculateOverallPerformanceScore | performance_server/src/performance_server.cpp:351-370 | The weighted and clamped combination of the four scores |
| Scores.ScoresInRange | performance_server/src/performance_server.cpp:189-370 | For non-negative inputs and available memory at most the total, all scores lie in 0..100 and the final clamp changes nothing |
| Scores.BusierScoresNoHigher | performance_server/src/performance_server.cpp:189-370 | Raising any CPU usages, the load, disk utilisations, latencies or queue lengths, in any combination, never raises the overall score |
| Scores.CacheShape | performance_server/src/performance_server.cpp:249-258 | The cache score is continuous with slope at most 10, rises to 10 percent, is flat to 30 and falls from there |
| Scores.ThroughputShape | performance_server/src/performance_server.cpp:320-329 | The throughput score is continuous with slope at most 1, rises to 100 and falls from there, and reaches 100 only at 100 |
| Scores.PiecesExactly | performance_server/src/performance_server.cpp:203-339 | Every piece in numbers, on each of its linear stretches |
| Scores.CoreExactly | performance_server/src/performance_server.cpp:203-217 | Usage counts 70 and load 30 percent of a core's score |
| Scores.DiskExactly | performance_server/src/performance_server.cpp:279-300 | Utilisation counts 40, latency 30 and queue length 30 percent of a disk's score |
| Scores.QueueExactly | performance_server/src/performance_server.cpp:138-145 | Queue length times I/O time is the weighted I/O time |
| Scores.NetExactly | performance_server/src/performance_server.cpp:320-343 | Throughput counts 60 and packet size 40 percent of an interface's score |
| Scores.PacketSizeExactly | performance_server/src/performance_server.cpp:166-176 | Packet size times the packet rate is 1024 times the KB rate |
| Scores.MemoryExactly | performance_server/src/performance_server.cpp:233-264 | Usage counts 50, available memory 30 and caches 20 percent of the memory score, half of the memory and a tenth of it scoring in full |
| Scores.MemoryWithCaches | performance_server/src/performance_server.cpp:249-254 | From a tenth to three tenths in caches score in full |
| Scores.MeanExactly | performance_server/src/performance_server.cpp:195-222 | A mean times the number of parts is their sum, and 0 without parts |
| Scores.OverallExactly | performance_server/src/performance_server.cpp:351-369 | In the overall score CPUs count 30, memory 25, disks 25 and interfaces 20 percent, clamped to 0..100 |
| Scores.OnePartAlone | performance_server/src/performance_server.cpp:351-369 | What each part contributes when it is the only one |
| PerformanceClient.PerformanceMonitorClient.GetOrCreateHostId | performance_server/src/performance_server.cpp:395-440 | Cache, SELECT and INSERT in turn leave cache and table as the specification of the lookup says |
| PerformanceClient.PerformanceMonitorClient.InsertCpuMetrics | performance_server/src/performance_server.cpp:442-488 | The rows up to the first failing INSERT are added and stay; success means all of them |
| PerformanceClient.PerformanceMonitorClient.InsertSoftIrqMetrics | performance_server/src/performance_server.cpp:490-529 | As for CPUs, for soft-IRQ counts |
| PerformanceClient.PerformanceMonitorClient.InsertDiskMetrics | performance_server/src/performance_server.cpp:568-619 | As for CPUs, for disks |
| PerformanceClient.PerformanceMonitorClient.InsertNetworkMetrics | performance_server/src/performance_server.cpp:621-656 | As for CPUs, for interfaces |
| PerformanceClient.PerformanceMonitorClient.UpdatePerformanceSummary | performance_server/src/performance_server.cpp:658-772 | The search for the score and the upsert leave cache, host table and summaries as specified |
| PerformanceClient.PerformanceMonitorClient.StoreOne | performance_server/src/performance_server.cpp:788-844 | One host: no id skips it; a failed insert does not stop the others; the summary is updated when due |
| PerformanceClient.PerformanceMonitorClient.StoreToDatabase | performance_server/src/performance_server.cpp:774-852 | Without a connection nothing changes; otherwise all entries are stored in order and success means that all inserts succeeded |
| PerformanceClient.FindsItsOwnScore | performance_server/src/performance_server.cpp:673-690 | The search by id ends at the message of the host that has the id, whatever its own SELECTs and INSERTs meet |
| PerformanceClient.SummaryScoresTheStoredMessage | performance_server/src/performance_server.cpp:832-842 | The summary row written while an entry is stored carries that very message's score and the per-table aggregates of the tables with its rows in them |
| PerformanceClient.StoreEntryLeavesAlone | performance_server/src/performance_server.cpp:788-844 | Outside the first minute of an hour a store leaves every summary and, but for its own id, cache and hosts alone; so it does with summaries if the upsert is not executed; without an id it leaves tables alone and fails; else the rows are appended and success means that all were |
| PerformanceClient.StoreSucceedsExactly | performance_server/src/performance_server.cpp:788-851 | A store run succeeds if and only if every host got an id and all its rows were inserted |
| PerformanceClient.RowsExactly | performance_server/src/performance_server.cpp:442-656 | A message's rows: one for each CPU, soft-IRQ set, disk and interface, in order, with their names and figures, under one id and time |
| PerformanceClient.SummaryOfOneMessage | performance_server/src/performance_server.cpp:442-656 | When one message is all that the window holds of a host, its summary is that message's own CPU, load, memory, disk and network figures, 0 for a load or memory part it does not have |
| PerformanceClient.RerunKeepsOneRow | performance_server/src/performance_server.cpp:756-769 | A second update in the hour keeps one row for host and bucket with the same aggregates and every other row |
| PerformanceClient.StoreEntryAgrees | performance_server/src/performance_server.cpp:788-844 | Storing an entry, search included, keeps cache and host table in agreement and removes no host |
| Pipeline.RunKeepsInv | performance_server/src/performance_server.cpp:859-894 | Every run of pushes, fetches, failed fetches, store steps and restarts keeps the invariant behind the next four rows |
| Pipeline.FetchIsASnapshot | performance_server/src/performance_server.cpp:83-92 | After any run a successful fetch holds each name the server knows once, with the last message pushed under it |
| Pipeline.StoreRunIgnoresPushes | performance_server/src/performance_server.cpp:782-830 | A store run has the effect of `StoreToDatabase` on the data fetched last, whatever is pushed and however the server restarts in the middle of it |
| Pipeline.SummariesChangeOnlyWhenDue | performance_server/src/performance_server.cpp:832-842 | A step changes summaries only if it stores a host in the first minute of an hour and its upsert is executed |
| Pipeline.StoreStepStores | performance_server/src/performance_server.cpp:788-830 | Storing a fetched entry whose id statements are executed adds it to what has been stored, under an id |
| Pipeline.PollStoresEveryName | performance_server/src/performance_server.cpp:870-876 | After a fetch and a full store run whose id statements are executed, the last message pushed under each name the server knew has been stored, whatever was pushed meanwhile |
| Pipeline.StoredRowsArePresent | performance_server/src/performance_server.cpp:801-830 | In every run all rows that a stored message added are in the tables |
| Pipeline.VersionsNeverGoBack | performance_server/src/performance_server.cpp:782-830 | For each host, by id or by name, the messages stored are in push order, with failures and restarts anywhere and also when the name has got a second id |
| Pipeline.EveryRowHasAnOrigin | performance_server/src/performance_server.cpp:788-830 | In every run each CPU, soft-IRQ, memory, disk and network row is made from a message that was pushed under the only name that owns the row's id, and each summary score is the score of such a message |

## Left out

- Floating-point rounding, and `std::to_string`, which writes six decimals into SQL: all figures are exact reals.
- gRPC channels, protobuf encoding, MySQL connections, SQL text and its escaping, and all printing.
- The columns no summary reads (the other load averages, the memory fields, raw disk counters and latencies, packet
  rates): copies of fields only.
- libbpf and the kernel behind it: hook create and destroy, attach and detach are small state machines of two kinds.
  Detach calls get options that still name a program; whether the library refuses them is one of the return codes.
- The early exits and exceptions of the `NetMonitor` constructor, its allocations, and loading of the BPF object.
- Keys removed from the eBPF map, or put in another order, while user space walks it: the programs only add keys.
- The member `total`: modelled as the code updates it, but not claimed to be traffic, since each poll adds the
  cumulative counts again.
- Netlink socket set-up and the request. A name that is not NUL-terminated within 15 bytes is copied from the bytes that
  follow it; the model's copy ends with the buffer, where the code would read on. Words are little-endian.
- Error and drop rates of an interface that vanishes from `/proc/net/dev`: its counts are taken for 0, as in the code,
  so its next rates come from wrapped differences.
- Parsing of `/proc/diskstats` and `/proc/net/dev`: numbers are inputs, and their columns are not claimed to be the
  kernel's.
- The thread of `startMonitoring` and `stopMonitoring`: its iterations are the events of the pipeline; sleeping and
  stopping are not modelled.
- Host names are compared exactly: no collation, no limit on their length, no escaping. A SELECT or INSERT that fails
  leaves the tables alone.
- Changes of the time zone's offset during a run.
- `ensureHostExists`, `calculateDerivedMetrics`, the SQL view and the cleanup event: unused or easy.
- The memory, load and soft-IRQ monitors and the kernel modules: field copies and platform calls.
