/** `PerformanceMonitorClient`: storing a fetched response and updating the hourly summaries. The SQL server answers
    as `EntryCalls` says; a statement that is not executed changes nothing. */
module PerformanceClient {
  import opened Words
  import opened Proto
  import opened HostIds
  import opened Summaries
  import opened Buckets
  import Scores

  /** `performance_summary`, by host and hourly bucket. */
  datatype SummaryRow = SummaryRow(summary: Summary, score: Option<real>)

  type SummaryTable = map<(string, int), SummaryRow>

  datatype ClientState = ClientState(host: HostState, tables: Tables, summaries: SummaryTable)

  /** What the statements for one host meet: clocks (`...At`, local seconds; `tick`, UTC seconds), how many rows an
      insert loop gets through before a statement fails, and what the calls of the score search meet. */
  datatype EntryCalls = EntryCalls(host: Calls, cpuAt: int, cpuRows: nat, softIrqAt: int, softIrqRows: nat,
                                   memAt: int, memOk: bool,
                                   diskAt: int, diskRows: nat, netAt: int, netRows: nat,
                                   tick: int, summaryAt: int, search: nat -> Calls, upsertOk: bool)

  // ---------------------------------------------------------------- rows of one message

  function CpuRows(info: MonitorInfo, id: string, at: int): seq<Row<CpuVal>> {
    var load := if info.cpuLoad.Some? then info.cpuLoad.value.loadAvg1 else 0.0;
    seq(|info.cpuStat|, i requires 0 <= i < |info.cpuStat| =>
      Row(id, at, CpuVal(info.cpuStat[i].name, info.cpuStat[i].cpu, load)))
  }

  function SoftIrqRows(info: MonitorInfo, id: string, at: int): seq<Row<SoftIrq>> {
    seq(|info.softIrq|, i requires 0 <= i < |info.softIrq| => Row(id, at, info.softIrq[i]))
  }

  function MemRow(info: MonitorInfo, id: string, at: int): Row<MemVal> {
    Row(id, at, if info.memInfo.Some? then MemVal(info.memInfo.value.usedPercent, info.memInfo.value.avail)
                else MemVal(0.0, 0.0))
  }

  function DiskRows(info: MonitorInfo, id: string, at: int): seq<Row<DiskVal>> {
    seq(|info.diskInfo|, i requires 0 <= i < |info.diskInfo| =>
      var d := info.diskInfo[i];
      Row(id, at, DiskVal(d.info.name, d.utilPercent, d.readIops, d.writeIops,
                          d.readBytesPerSec / 1048576.0, d.writeBytesPerSec / 1048576.0)))
  }

  function NetRows(info: MonitorInfo, id: string, at: int): seq<Row<NetVal>> {
    seq(|info.netInfo|, i requires 0 <= i < |info.netInfo| =>
      Row(id, at, NetVal(info.netInfo[i].name, info.netInfo[i].sendRate, info.netInfo[i].rcvRate)))
  }

  function UpTo<V>(rows: seq<V>, n: nat): (some: seq<V>)
    ensures some <= rows && |some| == if n < |rows| then n else |rows|
  {
    if n < |rows| then rows[..n] else rows
  }

  /** The rows that one message adds. */
  function RowsOf(info: MonitorInfo, id: string, c: EntryCalls): Tables {
    Tables(UpTo(CpuRows(info, id, c.cpuAt), c.cpuRows),
           UpTo(SoftIrqRows(info, id, c.softIrqAt), c.softIrqRows),
           if c.memOk then [MemRow(info, id, c.memAt)] else [],
           UpTo(DiskRows(info, id, c.diskAt), c.diskRows),
           UpTo(NetRows(info, id, c.netAt), c.netRows))
  }

  predicate AllInserted(info: MonitorInfo, c: EntryCalls) {
    && |info.cpuStat| <= c.cpuRows && |info.softIrq| <= c.softIrqRows && c.memOk
    && |info.diskInfo| <= c.diskRows && |info.netInfo| <= c.netRows
  }

  // ---------------------------------------------------------------- the summary

  /** The search by id for the message to score, from index `j` on. */
  function FindScore(h: HostState, current: seq<MonitorInfo>, id: string, search: nat -> Calls, j: nat)
    : (HostState, Option<real>)
    requires j <= |current|
    decreases |current| - j
  {
    if j == |current| then (h, None)
    else
      var (h', found) := GetOrCreate(h, current[j].name, search(j));
      if found == id then (h', Some(Scores.Overall(current[j])))
      else FindScore(h', current, id, search, j + 1)
  }

  /** INSERT ... SELECT ... ON DUPLICATE KEY UPDATE. */
  function Upsert(summaries: SummaryTable, t: Tables, id: string, bucket: int, score: Option<real>): SummaryTable {
    var q := Query(t, id, bucket);
    if q.None? then summaries else summaries[(id, bucket) := SummaryRow(q.value, score)]
  }

  function UpdateSummary(s: ClientState, current: seq<MonitorInfo>, id: string, c: EntryCalls): ClientState {
    var (h, score) := FindScore(s.host, current, id, c.search, 0);
    ClientState(h, s.tables,
                if c.upsertOk then Upsert(s.summaries, s.tables, id, BucketOf(c.summaryAt), score) else s.summaries)
  }

  // ---------------------------------------------------------------- storing

  /** One iteration of the store loop: the state after it and whether everything was inserted. */
  function StoreEntry(s: ClientState, current: seq<MonitorInfo>, info: MonitorInfo, c: EntryCalls)
    : (ClientState, bool)
  {
    var (h, id) := GetOrCreate(s.host, info.name, c.host);
    if id == "" then (s.(host := h), false)
    else
      var s1 := ClientState(h, Append(s.tables, RowsOf(info, id, c)), s.summaries);
      (if UpdateDue(c.tick) then UpdateSummary(s1, current, id, c) else s1, AllInserted(info, c))
  }

  function StoreAll(s: ClientState, current: seq<MonitorInfo>, n: nat, calls: nat -> EntryCalls): (ClientState, bool)
    requires n <= |current|
  {
    if n == 0 then (s, true)
    else
      var (s1, ok) := StoreAll(s, current, n - 1, calls);
      var (s2, ok') := StoreEntry(s1, current, current[n - 1], calls(n - 1));
      (s2, ok && ok')
  }

  class PerformanceMonitorClient {
    var hostIdCache: map<string, string>
    var currentData: seq<MonitorInfo>
    var hosts: seq<HostRow>
    var tables: Tables
    var summaries: SummaryTable
    const connected: bool

    function State(): ClientState
      reads this
    {
      ClientState(HostState(hostIdCache, hosts), tables, summaries)
    }

    /** A new process on an existing database. */
    constructor (connected: bool, hosts: seq<HostRow>, tables: Tables, summaries: SummaryTable)
      ensures this.connected == connected && currentData == []
      ensures State() == ClientState(HostState(map[], hosts), tables, summaries)
    {
      this.connected := connected;
      hostIdCache, currentData := map[], [];
      this.hosts, this.tables, this.summaries := hosts, tables, summaries;
    }

    /** `response` is what the RPC left: a listing of the server's map, or nothing when the call failed. */
    method FetchMonitorData(response: seq<MonitorInfo>) returns (ok: bool)
      modifies this`currentData
      ensures ok && currentData == response
    {
      currentData := response;
      return true;
    }

    method GetOrCreateHostId(name: string, c: Calls) returns (id: string)
      modifies this`hostIdCache, this`hosts
      ensures (State().host, id) == GetOrCreate(old(State().host), name, c)
    {
      if name in hostIdCache {
        return hostIdCache[name];
      }
      if c.selectOk {
        var row := Select(hosts, name);
        if row.Some? {
          hostIdCache := hostIdCache[name := row.value];
          return row.value;
        }
      }
      var newId := HostId(name, c.now);
      if c.insertOk && forall r :: r in hosts ==> r.id != newId {
        hosts := hosts + [HostRow(newId, name)];
        hostIdCache := hostIdCache[name := newId];
        return newId;
      }
      return "";
    }

    method InsertCpuMetrics(info: MonitorInfo, id: string, c: EntryCalls) returns (ok: bool)
      modifies this`tables
      ensures tables == old(tables).(cpu := old(tables).cpu + UpTo(CpuRows(info, id, c.cpuAt), c.cpuRows))
      ensures ok == (|info.cpuStat| <= c.cpuRows)
    {
      var rows := CpuRows(info, id, c.cpuAt);
      ghost var before := tables;
      for i := 0 to |rows|
        invariant i <= c.cpuRows && tables == before.(cpu := before.cpu + rows[..i])
      {
        if i == c.cpuRows {
          return false;
        }
        tables := tables.(cpu := tables.cpu + [rows[i]]);
      }
      assert rows[..|rows|] == rows;
      return true;
    }

    method InsertSoftIrqMetrics(info: MonitorInfo, id: string, c: EntryCalls) returns (ok: bool)
      modifies this`tables
      ensures tables == old(tables).(softIrq := old(tables).softIrq
                                                + UpTo(SoftIrqRows(info, id, c.softIrqAt), c.softIrqRows))
      ensures ok == (|info.softIrq| <= c.softIrqRows)
    {
      var rows := SoftIrqRows(info, id, c.softIrqAt);
      ghost var before := tables;
      for i := 0 to |rows|
        invariant i <= c.softIrqRows && tables == before.(softIrq := before.softIrq + rows[..i])
      {
        if i == c.softIrqRows {
          return false;
        }
        tables := tables.(softIrq := tables.softIrq + [rows[i]]);
      }
      assert rows[..|rows|] == rows;
      return true;
    }

    method InsertMemoryMetrics(info: MonitorInfo, id: string, c: EntryCalls) returns (ok: bool)
      modifies this`tables
      ensures tables == old(tables).(mem := old(tables).mem + if c.memOk then [MemRow(info, id, c.memAt)] else [])
      ensures ok == c.memOk
    {
      if c.memOk {
        tables := tables.(mem := tables.mem + [MemRow(info, id, c.memAt)]);
      }
      return c.memOk;
    }

    method InsertDiskMetrics(info: MonitorInfo, id: string, c: EntryCalls) returns (ok: bool)
      modifies this`tables
      ensures tables == old(tables).(disk := old(tables).disk + UpTo(DiskRows(info, id, c.diskAt), c.diskRows))
      ensures ok == (|info.diskInfo| <= c.diskRows)
    {
      var rows := DiskRows(info, id, c.diskAt);
      ghost var before := tables;
      for i := 0 to |rows|
        invariant i <= c.diskRows && tables == before.(disk := before.disk + rows[..i])
      {
        if i == c.diskRows {
          return false;
        }
        tables := tables.(disk := tables.disk + [rows[i]]);
      }
      assert rows[..|rows|] == rows;
      return true;
    }

    method InsertNetworkMetrics(info: MonitorInfo, id: string, c: EntryCalls) returns (ok: bool)
      modifies this`tables
      ensures tables == old(tables).(net := old(tables).net + UpTo(NetRows(info, id, c.netAt), c.netRows))
      ensures ok == (|info.netInfo| <= c.netRows)
    {
      var rows := NetRows(info, id, c.netAt);
      ghost var before := tables;
      for i := 0 to |rows|
        invariant i <= c.netRows && tables == before.(net := before.net + rows[..i])
      {
        if i == c.netRows {
          return false;
        }
        tables := tables.(net := tables.net + [rows[i]]);
      }
      assert rows[..|rows|] == rows;
      return true;
    }

    method UpdatePerformanceSummary(id: string, c: EntryCalls) returns (ok: bool)
      modifies this`hostIdCache, this`hosts, this`summaries
      ensures State() == UpdateSummary(old(State()), currentData, id, c) && ok == c.upsertOk
    {
      hide Upsert, GetOrCreate, BucketOf;
      var copy := currentData;
      var score: Option<real> := None;
      ghost var h0 := State().host;
      for i := 0 to |copy|
        invariant score.None? && summaries == old(summaries)
        invariant FindScore(State().host, copy, id, c.search, i) == FindScore(h0, copy, id, c.search, 0)
      {
        var found := GetOrCreateHostId(copy[i].name, c.search(i));
        if found == id {
          var s := Scores.CalculateOverallPerformanceScore(copy[i]);
          score := Some(s);
          break;
        }
      }
      assert (State().host, score) == FindScore(h0, copy, id, c.search, 0);
      if c.upsertOk {
        summaries := Upsert(summaries, tables, id, BucketOf(c.summaryAt), score);
      }
      return c.upsertOk;
    }

    method StoreOne(info: MonitorInfo, c: EntryCalls) returns (ok: bool)
      modifies this`hostIdCache, this`hosts, this`tables, this`summaries
      ensures (State(), ok) == StoreEntry(old(State()), currentData, info, c)
    {
      var id := GetOrCreateHostId(info.name, c.host);
      if id == "" {
        return false;
      }
      var cpuOk := InsertCpuMetrics(info, id, c);
      var softIrqOk := InsertSoftIrqMetrics(info, id, c);
      var memOk := InsertMemoryMetrics(info, id, c);
      var diskOk := InsertDiskMetrics(info, id, c);
      var netOk := InsertNetworkMetrics(info, id, c);
      ok := cpuOk && softIrqOk && memOk && diskOk && netOk;
      if UpdateDue(c.tick) {
        var updated := UpdatePerformanceSummary(id, c);
      }
    }

    method StoreToDatabase(calls: nat -> EntryCalls) returns (ok: bool)
      modifies this`hostIdCache, this`hosts, this`tables, this`summaries
      ensures connected ==> (State(), ok) == StoreAll(old(State()), currentData, |currentData|, calls)
      ensures !connected ==> State() == old(State()) && !ok
    {
      hide StoreEntry;
      if !connected {
        return false;
      }
      ok := true;
      var copy := currentData;
      ghost var s0 := State();
      for i := 0 to |copy|
        invariant (State(), ok) == StoreAll(s0, copy, i, calls)
      {
        var stored := StoreOne(copy[i], calls(i));
        ok := ok && stored;
      }
    }
  }

  // ---------------------------------------------------------------- the right score

  ghost predicate DistinctNames(infos: seq<MonitorInfo>) {
    forall i, j :: 0 <= i < j < |infos| ==> infos[i].name != infos[j].name
  }

  /** The search by id ends at the message of the host that has the id, whatever its own statements meet. */
  lemma {:induction false} FindsItsOwnScore(h: HostState, current: seq<MonitorInfo>, id: string, search: nat -> Calls,
                                            j: nat, i: nat)
    requires Agrees(h) && DistinctNames(current) && j <= i < |current|
    requires id != "" && current[i].name in h.cache && h.cache[current[i].name] == id
    ensures var (h', score) := FindScore(h, current, id, search, j);
            && score == Some(Scores.Overall(current[i]))
            && Agrees(h') && h.hosts <= h'.hosts
            && forall n :: n in h.cache ==> n in h'.cache && h'.cache[n] == h.cache[n]
    decreases i - j
  {
    hide Scores.Overall;
    var (h1, found) := GetOrCreate(h, current[j].name, search(j));
    GetOrCreateAgrees(h, current[j].name, search(j));
    if j < i {
      if found == id {
        IdDeterminesName(h1, HostRow(found, current[j].name), HostRow(id, current[i].name));
        assert false;
      } else {
        FindsItsOwnScore(h1, current, id, search, j + 1, i);
      }
    }
  }

  /** The summary row written while entry `i` is stored carries the score of that very message, and the aggregates of
      the host's own rows including the ones just inserted. */
  lemma SummaryScoresTheStoredMessage(s: ClientState, current: seq<MonitorInfo>, i: nat, c: EntryCalls)
    requires Agrees(s.host) && DistinctNames(current) && i < |current|
    requires GetOrCreate(s.host, current[i].name, c.host).1 != "" && UpdateDue(c.tick) && c.upsertOk
    ensures var id := GetOrCreate(s.host, current[i].name, c.host).1;
            var s' := StoreEntry(s, current, current[i], c).0;
            var key := (id, BucketOf(c.summaryAt));
            var q := PerTable(s'.tables, id, key.1);
            && s'.tables == Append(s.tables, RowsOf(current[i], id, c))
            && s'.summaries == if q.None? then s.summaries
                               else s.summaries[key := SummaryRow(q.value, Some(Scores.Overall(current[i])))]
  {
    hide Scores.Overall, Query, PerTable, RowsOf, Append;
    var (h, id) := GetOrCreate(s.host, current[i].name, c.host);
    GetOrCreateAgrees(s.host, current[i].name, c.host);
    FindsItsOwnScore(h, current, id, c.search, 0, i);
    FanOutIsHarmless(Append(s.tables, RowsOf(current[i], id, c)), id, BucketOf(c.summaryAt));
  }

  /** Outside the first minute of an hour a store leaves all summaries alone and searches for nobody; so it does, but
      for the search, when the upsert is not executed. Without an id it leaves tables and summaries alone and fails. */
  lemma StoreEntryLeavesAlone(s: ClientState, current: seq<MonitorInfo>, info: MonitorInfo, c: EntryCalls)
    ensures var (s', ok) := StoreEntry(s, current, info, c);
            var (h, id) := GetOrCreate(s.host, info.name, c.host);
            && (c.tick / 60 % 60 != 0 ==> s'.summaries == s.summaries && s'.host == h)
            && (!c.upsertOk ==> s'.summaries == s.summaries)
            && (id == "" ==> !ok && s' == ClientState(h, s.tables, s.summaries))
            && (id != "" ==>
                  && s'.tables == Append(s.tables, RowsOf(info, id, c))
                  && (ok <==> && |info.cpuStat| <= c.cpuRows && |info.softIrq| <= c.softIrqRows && c.memOk
                              && |info.diskInfo| <= c.diskRows && |info.netInfo| <= c.netRows))
  {
    hide GetOrCreate, FindScore, RowsOf, Append, Upsert;
  }

  /** A store run succeeds exactly if every host got an id and every row was inserted. */
  lemma {:induction false} StoreSucceedsExactly(s: ClientState, current: seq<MonitorInfo>, n: nat,
                                                calls: nat -> EntryCalls)
    requires n <= |current|
    ensures StoreAll(s, current, n, calls).1 <==>
            forall i: nat :: i < n ==> EntryOkAt(s, current, calls, i)
  {
    hide StoreAll, EntryOkAt;
    AllButTheLast(s, current, n, calls);
    if n > 0 {
      StoreSucceedsExactly(s, current, n - 1, calls);
    }
  }

  /** Entry `i`, in the state that the store run reaches it in. */
  ghost predicate EntryOkAt(s: ClientState, current: seq<MonitorInfo>, calls: nat -> EntryCalls, i: nat)
    requires i < |current|
  {
    EntryOk(StoreAll(s, current, i, calls).0, current[i], calls(i))
  }

  lemma AllButTheLast(s: ClientState, current: seq<MonitorInfo>, n: nat, calls: nat -> EntryCalls)
    requires n <= |current|
    ensures StoreAll(s, current, n, calls).1 <==>
            n == 0 || (StoreAll(s, current, n - 1, calls).1 && EntryOkAt(s, current, calls, n - 1))
  {
    hide StoreEntry, EntryOk;
    if n > 0 {
      EntryOkIs(StoreAll(s, current, n - 1, calls).0, current, n - 1, calls(n - 1));
    }
  }

  ghost predicate EntryOk(s: ClientState, info: MonitorInfo, c: EntryCalls) {
    && GetOrCreate(s.host, info.name, c.host).1 != ""
    && |info.cpuStat| <= c.cpuRows && |info.softIrq| <= c.softIrqRows && c.memOk
    && |info.diskInfo| <= c.diskRows && |info.netInfo| <= c.netRows
  }

  lemma EntryOkIs(s: ClientState, current: seq<MonitorInfo>, i: nat, c: EntryCalls)
    requires i < |current|
    ensures StoreEntry(s, current, current[i], c).1 <==> EntryOk(s, current[i], c)
  {
    StoreEntryLeavesAlone(s, current, current[i], c);
    hide StoreEntry, GetOrCreate;
  }

  /** The rows of a message: one for each CPU, soft-IRQ set, disk and interface, in the message's order and with its
      names, all under one id and time. */
  lemma RowsExactly(info: MonitorInfo, id: string, at: int)
    ensures var cpu, irq, disk, net :=
              CpuRows(info, id, at), SoftIrqRows(info, id, at), DiskRows(info, id, at), NetRows(info, id, at);
            && |cpu| == |info.cpuStat| && |irq| == |info.softIrq|
            && |disk| == |info.diskInfo| && |net| == |info.netInfo|
            && (forall i :: 0 <= i < |cpu| ==>
                  && cpu[i].hostId == id && cpu[i].ts == at && cpu[i].v.cpuName == info.cpuStat[i].name
                  && cpu[i].v.cpuPercent == info.cpuStat[i].cpu && cpu[i].v.load1 == LoadOf(info))
            && (forall i :: 0 <= i < |irq| ==> irq[i].hostId == id && irq[i].ts == at && irq[i].v == info.softIrq[i])
            && (forall i :: 0 <= i < |disk| ==>
                  var d := info.diskInfo[i];
                  && disk[i].hostId == id && disk[i].ts == at && disk[i].v.diskName == d.info.name
                  && disk[i].v.util == d.utilPercent && disk[i].v.readIops == d.readIops
                  && disk[i].v.writeIops == d.writeIops && disk[i].v.readMbps * 1048576.0 == d.readBytesPerSec
                  && disk[i].v.writeMbps * 1048576.0 == d.writeBytesPerSec)
            && (forall i :: 0 <= i < |net| ==>
                  && net[i].hostId == id && net[i].ts == at && net[i].v.interfaceName == info.netInfo[i].name
                  && net[i].v.sendRate == info.netInfo[i].sendRate && net[i].v.rcvRate == info.netInfo[i].rcvRate)
    ensures MemRow(info, id, at) == Row(id, at, MemVal(UsedOf(info), AvailableOf(info)))
  {
  }

  /** Updating again in the same hour keeps the one row of host and bucket and its aggregates, and every other row,
      unless rows stamped exactly at the bucket time came in between. */
  lemma RerunKeepsOneRow(summaries: SummaryTable, t: Tables, more: Tables, id: string, b: int,
                         score: Option<real>, score': Option<real>)
    requires NoneAt(more.cpu, id, b) && NoneAt(more.mem, id, b) && NoneAt(more.disk, id, b) && NoneAt(more.net, id, b)
    ensures var once := Upsert(summaries, t, id, b, score);
            var twice := Upsert(once, Append(t, more), id, b, score');
            && twice.Keys == once.Keys
            && (forall k :: k in once ==> twice[k].summary == once[k].summary)
            && (forall k :: k in once && k != (id, b) ==> twice[k] == once[k])
  {
    hide Query;
    RerunSelectsTheSame(t, more, id, b);
  }

  lemma {:induction false} AllMatch<V(!new)>(rows: seq<Row<V>>, id: string, b: int)
    requires forall r :: r in rows ==> r.hostId == id && InWindow(r.ts, b)
    ensures |Matches(rows, id, b)| == |rows|
    ensures forall i :: 0 <= i < |rows| ==> Matches(rows, id, b)[i] == rows[i].v
  {
    if rows != [] {
      assert rows[0] in rows && forall r :: r in rows[1..] ==> r in rows;
      AllMatch(rows[1..], id, b);
    }
  }

  /** When the whole table matches, an aggregated column is the expression over all its rows. */
  lemma OwnOfAll<V(!new)>(rows: seq<Row<V>>, id: string, b: int, e: V -> real, values: seq<Option<real>>)
    requires forall r :: r in rows ==> r.hostId == id && InWindow(r.ts, b)
    requires |values| == |rows| && forall i :: 0 <= i < |rows| ==> values[i] == Some(e(rows[i].v))
    ensures Own(rows, id, b, e) == values
  {
    AllMatch(rows, id, b);
  }

  lemma {:induction false} ConstantColumn(vs: seq<Option<real>>, x: real)
    requires vs != [] && forall v :: v in vs ==> v == Some(x)
    ensures Avg(vs) == Some(x) && Extreme(vs, true) == Extreme(vs, false) == Some(x)
  {
    ExtremeBeatsAll(vs, true);
    ExtremeBeatsAll(vs, false);
    assert vs[0] in vs;
    SumsOfConstant(vs, x);
    TimesIsProduct(|vs|, x);
    MeanOf(Times(|vs|, x), |vs| as real, x);
  }

  lemma MeanOf(s: real, n: real, x: real)
    requires n > 0.0 && s == n * x
    ensures s / n == x
  {
  }

  lemma {:induction false} SumsOfConstant(vs: seq<Option<real>>, x: real)
    requires forall v :: v in vs ==> v == Some(x)
    ensures Count(vs) == |vs| && Total(vs) == Times(|vs|, x)
  {
    if vs != [] {
      assert vs[0] in vs && forall v :: v in vs[1..] ==> v in vs;
      SumsOfConstant(vs[1..], x);
    }
  }

  lemma CpuOfOne(info: MonitorInfo, id: string, at: int, b: int)
    requires InWindow(at, b)
    ensures |Matches(CpuRows(info, id, at), id, b)| == |info.cpuStat|
    ensures Own(CpuRows(info, id, at), id, b, CpuPercent) == CpusOf(info)
    ensures info.cpuStat != [] ==>
              var loads := Own(CpuRows(info, id, at), id, b, Load1);
              Avg(loads) == Extreme(loads, true) == Some(LoadOf(info))
  {
    hide InWindow;
    var rows := CpuRows(info, id, at);
    AllMatch(rows, id, b);
    OwnOfAll(rows, id, b, CpuPercent, CpusOf(info));
    if info.cpuStat != [] {
      var x := LoadOf(info);
      var loads := seq(|rows|, _ => Some(x));
      OwnOfAll(rows, id, b, Load1, loads);
      ConstantColumn(loads, x);
    }
  }

  lemma MemOfOne(info: MonitorInfo, id: string, at: int, b: int)
    requires InWindow(at, b)
    ensures var rows := [MemRow(info, id, at)];
            && Avg(Own(rows, id, b, UsedPercent)) == Extreme(Own(rows, id, b, UsedPercent), true) == Some(UsedOf(info))
            && Extreme(Own(rows, id, b, AvailableGb), false) == Some(AvailableOf(info))
  {
    var rows := [MemRow(info, id, at)];
    OwnOfAll(rows, id, b, UsedPercent, [Some(UsedOf(info))]);
    OwnOfAll(rows, id, b, AvailableGb, [Some(AvailableOf(info))]);
    ConstantColumn([Some(UsedOf(info))], UsedOf(info));
    ConstantColumn([Some(AvailableOf(info))], AvailableOf(info));
  }

  lemma DiskOfOne(info: MonitorInfo, id: string, at: int, b: int)
    requires InWindow(at, b)
    ensures Own(DiskRows(info, id, at), id, b, Util) == UtilsOf(info)
    ensures Own(DiskRows(info, id, at), id, b, Iops) == IopsOf(info)
    ensures Own(DiskRows(info, id, at), id, b, DiskMbps) == DiskMbpsOf(info)
  {
    hide InWindow;
    OwnOfAll(DiskRows(info, id, at), id, b, Util, UtilsOf(info));
    OwnOfAll(DiskRows(info, id, at), id, b, Iops, IopsOf(info));
    OwnOfAll(DiskRows(info, id, at), id, b, DiskMbps, DiskMbpsOf(info));
  }

  lemma NetOfOne(info: MonitorInfo, id: string, at: int, b: int)
    requires InWindow(at, b)
    ensures Own(NetRows(info, id, at), id, b, NetMbps) == NetMbpsOf(info)
  {
    hide InWindow;
    OwnOfAll(NetRows(info, id, at), id, b, NetMbps, NetMbpsOf(info));
  }

  // A message's figures: one value for each CPU, disk or interface, and 0 for a part that it does not have.

  function LoadOf(info: MonitorInfo): real {
    if info.cpuLoad.Some? then info.cpuLoad.value.loadAvg1 else 0.0
  }

  function UsedOf(info: MonitorInfo): real {
    if info.memInfo.Some? then info.memInfo.value.usedPercent else 0.0
  }

  function AvailableOf(info: MonitorInfo): real {
    if info.memInfo.Some? then info.memInfo.value.avail else 0.0
  }

  function CpusOf(info: MonitorInfo): seq<Option<real>> {
    seq(|info.cpuStat|, i requires 0 <= i < |info.cpuStat| => Some(info.cpuStat[i].cpu))
  }

  function UtilsOf(info: MonitorInfo): seq<Option<real>> {
    seq(|info.diskInfo|, i requires 0 <= i < |info.diskInfo| => Some(info.diskInfo[i].utilPercent))
  }

  function IopsOf(info: MonitorInfo): seq<Option<real>> {
    seq(|info.diskInfo|, i requires 0 <= i < |info.diskInfo| =>
      Some(info.diskInfo[i].readIops + info.diskInfo[i].writeIops))
  }

  function DiskMbpsOf(info: MonitorInfo): seq<Option<real>> {
    seq(|info.diskInfo|, i requires 0 <= i < |info.diskInfo| =>
      Some(info.diskInfo[i].readBytesPerSec / 1048576.0 + info.diskInfo[i].writeBytesPerSec / 1048576.0))
  }

  function NetMbpsOf(info: MonitorInfo): seq<Option<real>> {
    seq(|info.netInfo|, i requires 0 <= i < |info.netInfo| => Some(info.netInfo[i].sendRate + info.netInfo[i].rcvRate))
  }

  /** The columns of a summary that rests on one message alone, in the message's own terms. */
  ghost predicate SummarizesOne(q: Summary, info: MonitorInfo) {
    && q.avgCpu == Avg(CpusOf(info)) && q.maxCpu == Extreme(CpusOf(info), true)
    && q.avgLoad == q.maxLoad == Some(LoadOf(info))
    && q.avgMemory == q.maxMemory == Some(UsedOf(info)) && q.minAvailable == Some(AvailableOf(info))
    && q.maxDiskUtil == Extreme(UtilsOf(info), true) && q.avgIops == Avg(IopsOf(info))
    && q.peakDisk == Extreme(DiskMbpsOf(info), true)
    && q.avgNet == Avg(NetMbpsOf(info)) && q.peakNet == Extreme(NetMbpsOf(info), true)
  }

  /** From message to summary: when one message is all that the window holds of a host, the summary is that message's
      own figures. */
  lemma SummaryOfOneMessage(info: MonitorInfo, id: string, c: EntryCalls, b: int)
    requires AllInserted(info, c)
    requires InWindow(c.cpuAt, b) && InWindow(c.memAt, b) && InWindow(c.diskAt, b) && InWindow(c.netAt, b)
    ensures var q := Query(RowsOf(info, id, c), id, b);
            && (q.Some? <==> info.cpuStat != [])
            && (q.Some? ==> SummarizesOne(q.value, info))
  {
    var t := RowsOf(info, id, c);
    assert t == Tables(CpuRows(info, id, c.cpuAt), SoftIrqRows(info, id, c.softIrqAt), [MemRow(info, id, c.memAt)],
                       DiskRows(info, id, c.diskAt), NetRows(info, id, c.netAt));
    hide Query, Avg, Extreme, Own, Matches, RowsOf, CpuRows, SoftIrqRows, DiskRows, NetRows, MemRow;
    FanOutIsHarmless(t, id, b);
    CpuOfOne(info, id, c.cpuAt, b);
    DiskOfOne(info, id, c.diskAt, b);
    NetOfOne(info, id, c.netAt, b);
    MemOfOne(info, id, c.memAt, b);
  }

  /** Storing an entry keeps cache and table in agreement and only adds host rows. */
  lemma StoreEntryAgrees(s: ClientState, current: seq<MonitorInfo>, i: nat, c: EntryCalls)
    requires Agrees(s.host) && DistinctNames(current) && i < |current|
    ensures var s' := StoreEntry(s, current, current[i], c).0;
            Agrees(s'.host) && s.host.hosts <= s'.host.hosts
  {
    hide Scores.Overall, Query, RowsOf, Append;
    var (h, id) := GetOrCreate(s.host, current[i].name, c.host);
    GetOrCreateAgrees(s.host, current[i].name, c.host);
    if id != "" {
      FindsItsOwnScore(h, current, id, c.search, 0, i);
    }
  }
}
