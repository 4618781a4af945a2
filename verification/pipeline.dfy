/** The whole push/pull pipeline as atomic steps: clients push under the server's lock, the one polling thread fetches
    a listing and stores it host by host while pushes go on, and either process may restart. `log` records all pushes
    in lock order; a version is a position in it. */
module Pipeline {
  import opened Words
  import opened Proto
  import opened RpcServer
  import opened HostIds
  import opened Summaries
  import opened Buckets
  import opened PerformanceClient

  /** One host stored: which push, under which id, and what its statements met. */
  datatype Stored = Stored(version: nat, id: string, calls: EntryCalls)

  datatype System = System(
    log: seq<MonitorInfo>,
    server: Infos, serverVersion: map<string, nat>,
    current: seq<MonitorInfo>, currentVersion: seq<nat>,
    job: seq<MonitorInfo>, jobVersion: seq<nat>, next: nat,
    client: ClientState,
    history: seq<Stored>)

  datatype Event =
    | Push(info: MonitorInfo)
    | Fetch(response: seq<MonitorInfo>)
    | FetchFailed
    | BeginStore
    | StoreNext(calls: EntryCalls)
    | PollerRestart
    | ServerRestart

  const NO_TABLES := Tables([], [], [], [], [])

  function Init(): System {
    System([], map[], map[], [], [], [], [], 0, ClientState(HostState(map[], []), NO_TABLES, map[]), [])
  }

  /** Is the polling thread between two store runs? */
  predicate Idle(s: System) {
    s.next >= |s.job|
  }

  function VersionsOf(response: seq<MonitorInfo>, version: map<string, nat>): seq<nat> {
    seq(|response|, i requires 0 <= i < |response| =>
      if response[i].name in version then version[response[i].name] else 0)
  }

  ghost function Step(s: System, e: Event): System {
    match e
    case Push(info) =>
      s.(log := s.log + [info], server := s.server[info.name := info],
         serverVersion := s.serverVersion[info.name := |s.log|])
    case Fetch(response) =>
      if Idle(s) && Lists(response, s.server)
      then s.(current := response, currentVersion := VersionsOf(response, s.serverVersion)) else s
    case FetchFailed => if Idle(s) then s.(current := [], currentVersion := []) else s
    case BeginStore => if Idle(s) then s.(job := s.current, jobVersion := s.currentVersion, next := 0) else s
    case StoreNext(calls) => if Idle(s) || s.next >= |s.jobVersion| then s else StoreOne(s, calls)
    case PollerRestart =>
      s.(current := [], currentVersion := [], job := [], jobVersion := [], next := 0,
         client := s.client.(host := s.client.host.(cache := map[])))
    case ServerRestart => s.(server := map[], serverVersion := map[])
  }

  ghost function StoreOne(s: System, calls: EntryCalls): System
    requires s.next < |s.job| && s.next < |s.jobVersion|
  {
    var info := s.job[s.next];
    var id := GetOrCreate(s.client.host, info.name, calls.host).1;
    s.(client := StoreEntry(s.client, s.current, info, calls).0, next := s.next + 1,
       history := s.history + if id == "" then [] else [Stored(s.jobVersion[s.next], id, calls)])
  }

  ghost function Run(s: System, es: seq<Event>): System {
    if es == [] then s else Step(Run(s, es[..|es| - 1]), es[|es| - 1])
  }

  // ---------------------------------------------------------------- the invariant

  /** The server's message for `n` is the last one pushed under that name. */
  ghost predicate Served(s: System, n: string)
    requires n in s.server && n in s.serverVersion
  {
    && s.server[n].name == n && s.serverVersion[n] < |s.log| && s.log[s.serverVersion[n]] == s.server[n]
    && forall v :: s.serverVersion[n] < v < |s.log| ==> s.log[v].name != n
  }

  /** The server holds, for each name it knows, the last message pushed under that name. */
  ghost predicate ServerOk(s: System) {
    && s.server.Keys == s.serverVersion.Keys
    && forall n :: n in s.server ==> Served(s, n)
  }

  /** The fetched data are pushed messages, one for each name, none newer than the server's. */
  ghost predicate CurrentOk(s: System) {
    && |s.currentVersion| == |s.current| && DistinctNames(s.current)
    && forall i :: 0 <= i < |s.current| ==>
         && s.currentVersion[i] < |s.log| && s.log[s.currentVersion[i]] == s.current[i]
         && (s.current[i].name in s.serverVersion ==> s.currentVersion[i] <= s.serverVersion[s.current[i].name])
  }

  /** While it is being stored, the store loop's copy is the fetched data. */
  ghost predicate JobOk(s: System) {
    |s.job| == |s.jobVersion| && (!Idle(s) ==> s.job == s.current && s.jobVersion == s.currentVersion)
  }

  /** What was stored was pushed, under the name that owns the id; nothing older is still to come for that name. */
  ghost predicate StoredOk(s: System, h: Stored) {
    && h.version < |s.log|
    && HostRow(h.id, s.log[h.version].name) in s.client.host.hosts
    && var n := s.log[h.version].name;
       && (n in s.serverVersion ==> h.version <= s.serverVersion[n])
       && forall i :: 0 <= i < |s.current| && i < |s.currentVersion| && s.current[i].name == n ==>
            h.version <= s.currentVersion[i]
  }

  ghost predicate Forward(log: seq<MonitorInfo>, history: seq<Stored>) {
    forall a, b :: 0 <= a < b < |history| && history[a].version < |log| && history[b].version < |log|
                   && log[history[a].version].name == log[history[b].version].name
                   ==> history[a].version <= history[b].version
  }

  /** The tables that a history of stores leaves. */
  function TablesOf(history: seq<Stored>, log: seq<MonitorInfo>): Tables {
    if history == [] then NO_TABLES
    else
      var h, before := history[|history| - 1], TablesOf(history[..|history| - 1], log);
      if h.version < |log| then Append(before, RowsOf(log[h.version], h.id, h.calls)) else before
  }

  /** Some stored message of the host has this score. */
  ghost predicate Scored(s: System, id: string, score: Option<real>) {
    exists h :: h in s.history && h.id == id && h.version < |s.log| && score == Some(Scores.Overall(s.log[h.version]))
  }

  ghost predicate Inv(s: System) {
    && ServerOk(s) && CurrentOk(s) && JobOk(s) && Agrees(s.client.host)
    && (forall h :: h in s.history ==> StoredOk(s, h))
    && Forward(s.log, s.history)
    && s.client.tables == TablesOf(s.history, s.log)
    && (forall k :: k in s.client.summaries ==> Scored(s, k.0, s.client.summaries[k].score))
  }

  lemma {:induction false} TablesKeepUnderPush(history: seq<Stored>, log: seq<MonitorInfo>, info: MonitorInfo)
    requires forall h :: h in history ==> h.version < |log|
    ensures TablesOf(history, log + [info]) == TablesOf(history, log)
  {
    hide RowsOf;
    if history != [] {
      assert forall h :: h in history[..|history| - 1] ==> h in history;
      TablesKeepUnderPush(history[..|history| - 1], log, info);
      assert history[|history| - 1] in history;
    }
  }

  /** Scores stay explained while log and history only grow. */
  lemma ScoredKeeps(s: System, s': System)
    requires s.log <= s'.log && s.history <= s'.history && s'.client.summaries == s.client.summaries
    requires forall k :: k in s.client.summaries ==> Scored(s, k.0, s.client.summaries[k].score)
    ensures forall k :: k in s'.client.summaries ==> Scored(s', k.0, s'.client.summaries[k].score)
  {
    hide Scores.Overall;
    forall k | k in s'.client.summaries ensures Scored(s', k.0, s'.client.summaries[k].score) {
      assert Scored(s, k.0, s.client.summaries[k].score);
      var h :| h in s.history && h.id == k.0 && h.version < |s.log|
               && s.client.summaries[k].score == Some(Scores.Overall(s.log[h.version]));
      assert h in s'.history;
    }
  }

  lemma ServerKeeps(s: System, e: Event)
    requires ServerOk(s) && !e.StoreNext?
    ensures ServerOk(Step(s, e))
  {
    if e.Push? {
      PushIsServed(s, e.info);
    }
  }

  lemma PushIsServed(s: System, info: MonitorInfo)
    requires ServerOk(s)
    ensures ServerOk(Step(s, Push(info)))
  {
    var s' := Step(s, Push(info));
    assert s'.log == s.log + [info];
    assert s'.server == s.server[info.name := info] && s'.serverVersion == s.serverVersion[info.name := |s.log|];
    hide Step;
    forall n | n in s'.server ensures Served(s', n) {
      if n != info.name {
        assert Served(s, n);
      }
    }
  }

  lemma CurrentKeeps(s: System, e: Event)
    requires ServerOk(s) && CurrentOk(s) && !e.StoreNext?
    ensures CurrentOk(Step(s, e))
  {
    if e.Fetch? {
      FetchIsCurrent(s, e.response);
    }
  }

  lemma FetchIsCurrent(s: System, response: seq<MonitorInfo>)
    requires ServerOk(s) && CurrentOk(s)
    ensures CurrentOk(Step(s, Fetch(response)))
  {
  }

  lemma StoredKeeps(s: System, e: Event, h: Stored)
    requires ServerOk(s) && StoredOk(s, h) && !e.StoreNext?
    ensures StoredOk(Step(s, e), h)
  {
    hide TablesOf;
  }

  lemma ForwardKeeps(log: seq<MonitorInfo>, log': seq<MonitorInfo>, history: seq<Stored>)
    requires Forward(log, history) && log <= log' && forall h :: h in history ==> h.version < |log|
    ensures Forward(log', history)
  {
    forall h | h in history ensures log'[h.version] == log[h.version] { }
  }

  lemma TablesKeep(s: System, e: Event)
    requires !e.StoreNext? && forall h :: h in s.history ==> h.version < |s.log|
    ensures var s' := Step(s, e); TablesOf(s'.history, s'.log) == TablesOf(s.history, s.log)
  {
    hide TablesOf;
    if e.Push? {
      TablesKeepUnderPush(s.history, s.log, e.info);
    }
  }

  lemma AgreesKeeps(s: System, e: Event)
    requires Agrees(s.client.host) && !e.StoreNext?
    ensures Agrees(Step(s, e).client.host)
  {
    hide Made;
  }

  /** What every step except a store leaves alone. */
  lemma OtherStep(s: System, e: Event)
    requires JobOk(s) && !e.StoreNext? && |s.currentVersion| == |s.current|
    ensures var s' := Step(s, e);
            && s.log <= s'.log && s'.history == s.history && JobOk(s')
            && s'.client.tables == s.client.tables && s'.client.summaries == s.client.summaries
  {
  }

  lemma OtherStepKeepsInv(s: System, e: Event)
    requires Inv(s) && !e.StoreNext?
    ensures Inv(Step(s, e))
  {
    var s' := Step(s, e);
    assert forall h :: h in s.history ==> StoredOk(s, h);
    assert forall h :: h in s.history ==> h.version < |s.log|;
    assert |s.currentVersion| == |s.current|;
    hide Step, ServerOk, CurrentOk, JobOk, StoredOk, Forward, TablesOf, Scored, Agrees;
    OtherStep(s, e);
    ServerKeeps(s, e);
    CurrentKeeps(s, e);
    AgreesKeeps(s, e);
    TablesKeep(s, e);
    ForwardKeeps(s.log, s'.log, s.history);
    ScoredKeeps(s, s');
    forall h | h in s'.history ensures StoredOk(s', h) {
      StoredKeeps(s, e, h);
    }
  }

  /** What storing an entry does to tables and summaries. */
  lemma StoreEntryEffect(s: ClientState, current: seq<MonitorInfo>, i: nat, c: EntryCalls)
    requires Agrees(s.host) && DistinctNames(current) && i < |current|
    ensures var (s', id) := (StoreEntry(s, current, current[i], c).0, GetOrCreate(s.host, current[i].name, c.host).1);
            && (id == "" ==> s'.tables == s.tables && s'.summaries == s.summaries)
            && (id != "" ==>
                  && s'.tables == Append(s.tables, RowsOf(current[i], id, c))
                  && HostRow(id, current[i].name) in s'.host.hosts
                  && forall k :: k in s'.summaries ==>
                       || (k in s.summaries && s'.summaries[k] == s.summaries[k])
                       || (k.0 == id && s'.summaries[k].score == Some(Scores.Overall(current[i]))))
  {
    hide Scores.Overall, Query, RowsOf, Append;
    var (h, id) := GetOrCreate(s.host, current[i].name, c.host);
    GetOrCreateAgrees(s.host, current[i].name, c.host);
    if id != "" {
      FindsItsOwnScore(h, current, id, c.search, 0, i);
    }
  }

  lemma StoreNextHistory(s: System, calls: EntryCalls)
    requires Inv(s) && !Idle(s)
    ensures var s' := Step(s, StoreNext(calls));
            && Agrees(s'.client.host)
            && (forall h :: h in s'.history ==> StoredOk(s', h))
            && Forward(s'.log, s'.history)
  {
    hide Scores.Overall, TablesOf, Agrees, StoreEntry, GetOrCreate;
    var s' := Step(s, StoreNext(calls));
    StoreEntryAgrees(s.client, s.current, s.next, calls);
    StoreEntryEffect(s.client, s.current, s.next, calls);
    forall h | h in s'.history ensures StoredOk(s', h) {
      if h in s.history {
        assert StoredOk(s, h);
      }
    }
    assert forall h :: h in s.history ==> StoredOk(s, h);
    var n := |s.history|;
    forall a, b | 0 <= a < b < |s'.history| && s'.history[a].version < |s'.log| && s'.history[b].version < |s'.log|
                  && s'.log[s'.history[a].version].name == s'.log[s'.history[b].version].name
      ensures s'.history[a].version <= s'.history[b].version
    {
      assert a < n && s'.history[a] == s.history[a];
      assert s.history[a] in s.history;
      if b < n {
        assert s'.history[b] == s.history[b] && s.history[b] in s.history;
      } else {
        assert s'.history[b].version == s.currentVersion[s.next];
      }
    }
  }

  lemma StoreNextData(s: System, calls: EntryCalls)
    requires Inv(s) && !Idle(s)
    ensures var s' := Step(s, StoreNext(calls));
            && s'.client.tables == TablesOf(s'.history, s'.log)
            && forall k :: k in s'.client.summaries ==> Scored(s', k.0, s'.client.summaries[k].score)
  {
    hide Scores.Overall, Agrees, StoreEntry, GetOrCreate, RowsOf, Append, StoredOk, Forward, ServerOk;
    var s' := Step(s, StoreNext(calls));
    StoreEntryEffect(s.client, s.current, s.next, calls);
    var id := GetOrCreate(s.client.host, s.current[s.next].name, calls.host).1;
    if id != "" {
      var h := Stored(s.currentVersion[s.next], id, calls);
      assert s'.history == s.history + [h] && s'.history[..|s.history|] == s.history;
      assert h in s'.history;
      forall k | k in s'.client.summaries ensures Scored(s', k.0, s'.client.summaries[k].score) {
        if k in s.client.summaries && s'.client.summaries[k] == s.client.summaries[k] {
          assert Scored(s, k.0, s.client.summaries[k].score);
        }
      }
    } else {
      assert s'.history == s.history;
      hide Scored;
      ScoredKeeps(s, s');
    }
  }

  lemma StoreNextFront(s: System, calls: EntryCalls)
    requires ServerOk(s) && CurrentOk(s) && JobOk(s)
    ensures var s' := Step(s, StoreNext(calls)); ServerOk(s') && CurrentOk(s') && JobOk(s')
  {
    hide StoreEntry, GetOrCreate;
  }

  lemma StepKeepsInv(s: System, e: Event)
    requires Inv(s)
    ensures Inv(Step(s, e))
  {
    if !e.StoreNext? {
      OtherStepKeepsInv(s, e);
    } else if !Idle(s) {
      StoreNextHistory(s, e.calls);
      StoreNextData(s, e.calls);
      StoreNextFront(s, e.calls);
      hide Scores.Overall, TablesOf, Agrees, StoreEntry, GetOrCreate, Step;
      hide ServerOk, CurrentOk, JobOk, Scored, Forward, StoredOk;
    }
  }

  lemma {:induction false} RunKeepsInv(s: System, es: seq<Event>)
    requires Inv(s)
    ensures Inv(Run(s, es))
  {
    hide Inv, Step;
    if es != [] {
      RunKeepsInv(s, es[..|es| - 1]);
      StepKeepsInv(Run(s, es[..|es| - 1]), es[|es| - 1]);
    }
  }

  lemma Reachable(es: seq<Event>)
    ensures Inv(Run(Init(), es))
  {
    RunKeepsInv(Init(), es);
  }

  // ---------------------------------------------------------------- what every run guarantees

  /** What the store steps of a run met, in order. */
  ghost function StoreCalls(es: seq<Event>): seq<EntryCalls> {
    if es == [] then []
    else
      var e := es[|es| - 1];
      StoreCalls(es[..|es| - 1]) + if e.StoreNext? then [e.calls] else []
  }

  /** `s1` is `s` with the first `n` entries of the fetched data stored; nothing else of the poller has changed. */
  ghost predicate StoredUpTo(s: System, s1: System, n: nat, calls: nat -> EntryCalls) {
    && n <= |s.current| == |s.currentVersion| && s1.next == n
    && s1.job == s1.current == s.current && s1.jobVersion == s.currentVersion
    && s1.client == StoreAll(s.client, s.current, n, calls).0
  }

  lemma OneStoreStep(s: System, s1: System, n: nat, calls: nat -> EntryCalls, e: Event)
    requires StoredUpTo(s, s1, n, calls) && (e.Push? || e.ServerRestart? || e.StoreNext?)
    requires e.StoreNext? ==> n < |s.current| && e.calls == calls(n)
    ensures StoredUpTo(s, Step(s1, e), if e.StoreNext? then n + 1 else n, calls)
  {
    hide StoreEntry, GetOrCreate;
  }

  /** A store run is `StoreToDatabase` on the data fetched last: pushes and server restarts in the middle of it change
      nothing that is stored. */
  lemma {:induction false} StoreRunIgnoresPushes(s: System, es: seq<Event>, calls: nat -> EntryCalls)
    requires Inv(s) && Idle(s) && |StoreCalls(es)| <= |s.current|
    requires forall e :: e in es ==> e.Push? || e.ServerRestart? || e.StoreNext?
    requires forall i :: 0 <= i < |StoreCalls(es)| ==> StoreCalls(es)[i] == calls(i)
    ensures StoredUpTo(s, Run(Step(s, BeginStore), es), |StoreCalls(es)|, calls)
  {
    if es != [] {
      hide Inv, Step, StoredUpTo;
      var before, e := es[..|es| - 1], es[|es| - 1];
      assert forall x :: x in before ==> x in es;
      assert e in es;
      StoreRunIgnoresPushes(s, before, calls);
      OneStoreStep(s, Run(Step(s, BeginStore), before), |StoreCalls(before)|, calls, e);
    }
  }

  /** A step changes summaries only if it stores a host in the first minute of an hour and its upsert is executed. */
  lemma SummariesChangeOnlyWhenDue(s: System, e: Event)
    requires Step(s, e).client.summaries != s.client.summaries
    ensures e.StoreNext? && e.calls.tick / 60 % 60 == 0 && e.calls.upsertOk
  {
    hide StoreEntry;
    if e.StoreNext? && !Idle(s) && s.next < |s.jobVersion| {
      StoreEntryLeavesAlone(s.client, s.current, s.job[s.next], e.calls);
      hide GetOrCreate, RowsOf, Append;
    }
  }

  lemma StoreStepIs(s: System, calls: EntryCalls)
    requires s.next < |s.job| == |s.jobVersion|
    ensures var s' := Step(s, StoreNext(calls));
            var id := GetOrCreate(s.client.host, s.job[s.next].name, calls.host).1;
            && s'.next == s.next + 1
            && s'.history == s.history + if id == "" then [] else [Stored(s.jobVersion[s.next], id, calls)]
  {
    hide StoreEntry, GetOrCreate;
  }

  /** Storing a host whose id calls are executed adds it to the history, with its fetched version and an id. */
  lemma StoreStepStores(s: System, calls: EntryCalls)
    requires Inv(s) && !Idle(s) && calls.host.selectOk && calls.host.insertOk
    ensures var s' := Step(s, StoreNext(calls));
            var n := |s.history|;
            && s'.next == s.next + 1 && |s'.history| == n + 1 && s.history <= s'.history
            && s'.history[n].version == s.currentVersion[s.next] && s'.history[n].calls == calls
            && s'.history[n].id != ""
  {
    assert s.job == s.current && s.jobVersion == s.currentVersion && |s.job| == |s.jobVersion| && Agrees(s.client.host);
    hide Inv, Step, GetOrCreate, Agrees;
    WorkingCallsAnswer(s.client.host, s.job[s.next].name, calls.host);
    StoreStepIs(s, calls);
  }

  /** The `n`-th store of the run since `before` is of entry `n` of the fetched data. */
  ghost predicate StoresEntry(s: System, before: nat, versions: seq<nat>, n: nat) {
    && n < |versions| && before + n < |s.history|
    && s.history[before + n].version == versions[n] && s.history[before + n].id != ""
  }

  /** Since `s` exactly the first `n` entries of the fetched data have been stored, in order. */
  ghost predicate StoredFirst(s: System, s1: System, n: nat) {
    |s1.history| == |s.history| + n && forall i: nat :: i < n ==> StoresEntry(s1, |s.history|, s.currentVersion, i)
  }

  lemma NoneStoredYet(s: System)
    requires Inv(s) && Idle(s)
    ensures Inv(Step(s, BeginStore)) && StoredFirst(s, Step(s, BeginStore), 0)
  {
    StepKeepsInv(s, BeginStore);
    hide Inv;
  }

  lemma StaysStored(s: System, s1: System, s': System, n: nat)
    requires StoredFirst(s, s1, n) && s1.history <= s'.history
    ensures forall i: nat :: i < n ==> StoresEntry(s', |s.history|, s.currentVersion, i)
  {
    forall i: nat | i < n ensures StoresEntry(s', |s.history|, s.currentVersion, i) {
      assert StoresEntry(s1, |s.history|, s.currentVersion, i);
      assert s'.history[|s.history| + i] == s1.history[|s.history| + i];
    }
  }

  lemma MidStore(s: System, s1: System, n: nat, calls: nat -> EntryCalls)
    requires CurrentOk(s1) && JobOk(s1) && StoredUpTo(s, s1, n, calls) && n < |s.current|
    ensures !Idle(s1) && s1.next == n && n < |s1.currentVersion| && s1.currentVersion[n] == s.currentVersion[n]
    ensures n < |s.currentVersion|
  {
    hide StoreAll;
  }

  lemma StoreOneMore(s: System, s1: System, n: nat, calls: nat -> EntryCalls, c: EntryCalls)
    requires Inv(s1) && StoredUpTo(s, s1, n, calls) && StoredFirst(s, s1, n)
    requires n < |s.current| && c.host.selectOk && c.host.insertOk
    ensures StoredFirst(s, Step(s1, StoreNext(c)), n + 1)
  {
    hide StoredUpTo, Step, CurrentOk, JobOk, StoredOk, Forward, TablesOf, Scored, Agrees, ServerOk;
    MidStore(s, s1, n, calls);
    StoreStepStores(s1, c);
    hide Inv;
    StaysStored(s, s1, Step(s1, StoreNext(c)), n);
  }

  lemma OneMoreStore(s: System, s1: System, e: Event, n: nat, calls: nat -> EntryCalls)
    requires Inv(s1) && (e.Push? || e.ServerRestart? || e.StoreNext?)
    requires StoredUpTo(s, s1, n, calls) && StoredFirst(s, s1, n)
    requires e.StoreNext? ==> n < |s.current| && e.calls.host.selectOk && e.calls.host.insertOk
    ensures Inv(Step(s1, e)) && StoredFirst(s, Step(s1, e), if e.StoreNext? then n + 1 else n)
  {
    StepKeepsInv(s1, e);
    if e.StoreNext? {
      hide Inv, Step, StoredUpTo, StoredFirst;
      StoreOneMore(s, s1, n, calls, e.calls);
    } else {
      assert JobOk(s1) && |s1.currentVersion| == |s1.current|;
      hide Inv, Step, StoredUpTo;
      OtherStep(s1, e);
      StaysStored(s, s1, Step(s1, e), n);
    }
  }

  lemma {:induction false} StoreRunStores(s: System, es: seq<Event>, calls: nat -> EntryCalls)
    requires Inv(s) && Idle(s) && |StoreCalls(es)| <= |s.current|
    requires forall e :: e in es ==> e.Push? || e.ServerRestart? || e.StoreNext?
    requires forall i :: 0 <= i < |StoreCalls(es)| ==> StoreCalls(es)[i] == calls(i)
    requires forall i :: 0 <= i < |StoreCalls(es)| ==> calls(i).host.selectOk && calls(i).host.insertOk
    ensures var s' := Run(Step(s, BeginStore), es); Inv(s') && StoredFirst(s, s', |StoreCalls(es)|)
  {
    hide Inv, Step, StoredUpTo, StoredFirst;
    if es == [] {
      NoneStoredYet(s);
    } else {
      var before, e := es[..|es| - 1], es[|es| - 1];
      assert forall x :: x in before ==> x in es;
      assert e in es;
      StoreRunStores(s, before, calls);
      StoreRunIgnoresPushes(s, before, calls);
      if e.StoreNext? {
        var n := |StoreCalls(before)|;
        assert StoreCalls(es)[n] == e.calls == calls(n);
      }
      OneMoreStore(s, Run(Step(s, BeginStore), before), e, |StoreCalls(before)|, calls);
    }
  }

  /** Some store since the first `from` ones is of this version, under an id. */
  ghost predicate StoredSince(s: System, from: nat, version: nat) {
    exists k :: from <= k < |s.history| && s.history[k].version == version && s.history[k].id != ""
  }

  lemma FetchFinds(s: System, response: seq<MonitorInfo>, n: string) returns (i: nat)
    requires Inv(s) && Idle(s) && Lists(response, s.server) && n in s.server
    ensures var s1 := Step(s, Fetch(response));
            && Inv(s1) && Idle(s1) && s1.current == response && s1.history == s.history
            && n in s.serverVersion && i < |response| == |s1.currentVersion|
            && s1.currentVersion[i] == s.serverVersion[n]
  {
    StepKeepsInv(s, Fetch(response));
    ListsEveryName(response, s.server, n);
    i :| i < |response| && response[i] == s.server[n] && response[i].name == n;
    assert s.server.Keys == s.serverVersion.Keys;
    hide Inv, Lists;
  }

  /** A whole poll whose id calls are executed reaches everybody: after a fetch and a full store run, the last message
      pushed under each name the server knew at the fetch has been stored, whatever was pushed in the meantime. */
  lemma PollStoresEveryName(es0: seq<Event>, response: seq<MonitorInfo>, es: seq<Event>, calls: nat -> EntryCalls,
                            n: string)
    requires Idle(Run(Init(), es0)) && Lists(response, Run(Init(), es0).server) && n in Run(Init(), es0).server
    requires |StoreCalls(es)| == |response|
    requires forall e :: e in es ==> e.Push? || e.ServerRestart? || e.StoreNext?
    requires forall i :: 0 <= i < |response| ==> StoreCalls(es)[i] == calls(i)
    requires forall i :: 0 <= i < |response| ==> calls(i).host.selectOk && calls(i).host.insertOk
    ensures var s := Run(Init(), es0);
            var s' := Run(Step(Step(s, Fetch(response)), BeginStore), es);
            n in s.serverVersion && StoredSince(s', |s.history|, s.serverVersion[n])
  {
    Reachable(es0);
    hide Inv, Step, Lists, Init;
    var s := Run(Init(), es0);
    var i := FetchFinds(s, response, n);
    var s1 := Step(s, Fetch(response));
    StoreRunStores(s1, es, calls);
    var s' := Run(Step(s1, BeginStore), es);
    assert StoresEntry(s', |s.history|, s1.currentVersion, i);
    assert s'.history[|s.history| + i].version == s.serverVersion[n];
  }

  /** Every row that a stored message was to add is in the tables. */
  lemma StoredRowsArePresent(es: seq<Event>, h: Stored)
    requires h in Run(Init(), es).history
    ensures var s := Run(Init(), es);
            && h.version < |s.log|
            && var rows, t := RowsOf(s.log[h.version], h.id, h.calls), s.client.tables;
               && (forall r :: r in rows.cpu ==> r in t.cpu) && (forall r :: r in rows.softIrq ==> r in t.softIrq)
               && (forall r :: r in rows.mem ==> r in t.mem) && (forall r :: r in rows.disk ==> r in t.disk)
               && (forall r :: r in rows.net ==> r in t.net)
  {
    Reachable(es);
    var s := Run(Init(), es);
    assert StoredOk(s, h);
    hide Run, Inv, RowsOf;
    RowsStay(s.history, s.log, h);
  }

  lemma {:induction false} RowsStay(history: seq<Stored>, log: seq<MonitorInfo>, h: Stored)
    requires h in history && h.version < |log|
    ensures var rows, t := RowsOf(log[h.version], h.id, h.calls), TablesOf(history, log);
            && (forall r :: r in rows.cpu ==> r in t.cpu) && (forall r :: r in rows.softIrq ==> r in t.softIrq)
            && (forall r :: r in rows.mem ==> r in t.mem) && (forall r :: r in rows.disk ==> r in t.disk)
            && (forall r :: r in rows.net ==> r in t.net)
  {
    hide RowsOf;
    var last, before := history[|history| - 1], history[..|history| - 1];
    if h in before {
      RowsStay(before, log, h);
    } else {
      assert h == last;
    }
  }

  /** A successful fetch yields the server's map at one instant: every name once, each with the latest message pushed
      under it. */
  lemma FetchIsASnapshot(es: seq<Event>, response: seq<MonitorInfo>, n: string)
    requires Idle(Run(Init(), es)) && Lists(response, Run(Init(), es).server)
    ensures var s, s' := Run(Init(), es), Step(Run(Init(), es), Fetch(response));
            && DistinctNames(s'.current)
            && (n in s.server <==> exists i :: 0 <= i < |s'.current| && s'.current[i].name == n)
            && forall i :: 0 <= i < |s'.current| && s'.current[i].name == n ==>
                 && i < |s'.currentVersion| && s'.currentVersion[i] < |s.log|
                 && s'.current[i] == s.log[s'.currentVersion[i]]
                 && forall v :: s'.currentVersion[i] < v < |s.log| ==> s.log[v].name != n
  {
    Reachable(es);
    if n in Run(Init(), es).server {
      ListsEveryName(response, Run(Init(), es).server, n);
    }
  }

  /** Two stores for one host: under one id, or of messages pushed under one name. */
  ghost predicate SameHost(s: System, x: Stored, y: Stored) {
    x.id == y.id || (x.version < |s.log| && y.version < |s.log| && s.log[x.version].name == s.log[y.version].name)
  }

  /** For each host, what is stored never goes back to an older message, whatever fails or restarts in between, and also
      when the host's name has got a second id. */
  lemma VersionsNeverGoBack(es: seq<Event>, a: nat, b: nat)
    requires a < b < |Run(Init(), es).history|
    requires SameHost(Run(Init(), es), Run(Init(), es).history[a], Run(Init(), es).history[b])
    ensures Run(Init(), es).history[a].version <= Run(Init(), es).history[b].version < |Run(Init(), es).log|
  {
    Reachable(es);
    var s := Run(Init(), es);
    var x, y := s.history[a], s.history[b];
    assert StoredOk(s, x) && StoredOk(s, y);
    if x.id == y.id {
      IdDeterminesName(s.client.host, HostRow(x.id, s.log[x.version].name), HostRow(y.id, s.log[y.version].name));
    }
  }

  /** The message behind a stored row was pushed, and its name is the only one that owns the row's id. */
  ghost predicate PushedFor(s: System, id: string, info: MonitorInfo) {
    && info in s.log
    && HostRow(id, info.name) in s.client.host.hosts
    && forall r :: r in s.client.host.hosts && r.id == id ==> r.name == info.name
  }

  lemma StoredIsPushed(s: System, h: Stored)
    requires Inv(s) && h in s.history
    ensures h.version < |s.log| && PushedFor(s, h.id, s.log[h.version])
  {
    assert StoredOk(s, h);
    forall r | r in s.client.host.hosts && r.id == h.id ensures r.name == s.log[h.version].name {
      IdDeterminesName(s.client.host, r, HostRow(h.id, s.log[h.version].name));
    }
  }

  lemma UpToMember<V>(rows: seq<V>, n: nat, r: V)
    requires r in UpTo(rows, n)
    ensures r in rows
  {
  }

  lemma {:induction false} CpuRowOrigin(history: seq<Stored>, log: seq<MonitorInfo>, r: Row<CpuVal>) returns (h: Stored)
    requires r in TablesOf(history, log).cpu
    ensures h in history && h.version < |log| && r in CpuRows(log[h.version], h.id, r.ts) && r.hostId == h.id
  {
    var last, before := history[|history| - 1], history[..|history| - 1];
    if r in TablesOf(before, log).cpu {
      h := CpuRowOrigin(before, log, r);
    } else {
      h := last;
      UpToMember(CpuRows(log[h.version], h.id, h.calls.cpuAt), h.calls.cpuRows, r);
    }
  }

  lemma {:induction false} SoftIrqRowOrigin(history: seq<Stored>, log: seq<MonitorInfo>, r: Row<SoftIrq>)
    returns (h: Stored)
    requires r in TablesOf(history, log).softIrq
    ensures h in history && h.version < |log| && r in SoftIrqRows(log[h.version], h.id, r.ts) && r.hostId == h.id
  {
    var last, before := history[|history| - 1], history[..|history| - 1];
    if r in TablesOf(before, log).softIrq {
      h := SoftIrqRowOrigin(before, log, r);
    } else {
      h := last;
      UpToMember(SoftIrqRows(log[h.version], h.id, h.calls.softIrqAt), h.calls.softIrqRows, r);
    }
  }

  lemma {:induction false} MemRowOrigin(history: seq<Stored>, log: seq<MonitorInfo>, r: Row<MemVal>) returns (h: Stored)
    requires r in TablesOf(history, log).mem
    ensures h in history && h.version < |log| && r == MemRow(log[h.version], h.id, r.ts)
  {
    var last, before := history[|history| - 1], history[..|history| - 1];
    if r in TablesOf(before, log).mem {
      h := MemRowOrigin(before, log, r);
    } else {
      h := last;
    }
  }

  lemma {:induction false} DiskRowOrigin(history: seq<Stored>, log: seq<MonitorInfo>, r: Row<DiskVal>)
    returns (h: Stored)
    requires r in TablesOf(history, log).disk
    ensures h in history && h.version < |log| && r in DiskRows(log[h.version], h.id, r.ts) && r.hostId == h.id
  {
    var last, before := history[|history| - 1], history[..|history| - 1];
    if r in TablesOf(before, log).disk {
      h := DiskRowOrigin(before, log, r);
    } else {
      h := last;
      UpToMember(DiskRows(log[h.version], h.id, h.calls.diskAt), h.calls.diskRows, r);
    }
  }

  lemma {:induction false} NetRowOrigin(history: seq<Stored>, log: seq<MonitorInfo>, r: Row<NetVal>) returns (h: Stored)
    requires r in TablesOf(history, log).net
    ensures h in history && h.version < |log| && r in NetRows(log[h.version], h.id, r.ts) && r.hostId == h.id
  {
    var last, before := history[|history| - 1], history[..|history| - 1];
    if r in TablesOf(before, log).net {
      h := NetRowOrigin(before, log, r);
    } else {
      h := last;
      UpToMember(NetRows(log[h.version], h.id, h.calls.netAt), h.calls.netRows, r);
    }
  }

  /** Every stored metric row, in any run, is made from a message that was pushed under the host name that owns the
      row's id; and every summary score is the score of such a stored message. */
  lemma EveryRowHasAnOrigin(es: seq<Event>)
    ensures var s := Run(Init(), es);
            && (forall r :: r in s.client.tables.cpu ==>
                  exists m :: PushedFor(s, r.hostId, m) && r in CpuRows(m, r.hostId, r.ts))
            && (forall r :: r in s.client.tables.softIrq ==>
                  exists m :: PushedFor(s, r.hostId, m) && r in SoftIrqRows(m, r.hostId, r.ts))
            && (forall r :: r in s.client.tables.mem ==>
                  exists m :: PushedFor(s, r.hostId, m) && r == MemRow(m, r.hostId, r.ts))
            && (forall r :: r in s.client.tables.disk ==>
                  exists m :: PushedFor(s, r.hostId, m) && r in DiskRows(m, r.hostId, r.ts))
            && (forall r :: r in s.client.tables.net ==>
                  exists m :: PushedFor(s, r.hostId, m) && r in NetRows(m, r.hostId, r.ts))
            && (forall k :: k in s.client.summaries ==>
                  exists m :: PushedFor(s, k.0, m) && s.client.summaries[k].score == Some(Scores.Overall(m)))
  {
    hide Scores.Overall, PushedFor, CpuRows, SoftIrqRows, DiskRows, NetRows;
    Reachable(es);
    var s := Run(Init(), es);
    forall r | r in s.client.tables.cpu
      ensures exists m :: PushedFor(s, r.hostId, m) && r in CpuRows(m, r.hostId, r.ts)
    {
      var h := CpuRowOrigin(s.history, s.log, r);
      StoredIsPushed(s, h);
    }
    forall r | r in s.client.tables.softIrq
      ensures exists m :: PushedFor(s, r.hostId, m) && r in SoftIrqRows(m, r.hostId, r.ts)
    {
      var h := SoftIrqRowOrigin(s.history, s.log, r);
      StoredIsPushed(s, h);
    }
    forall r | r in s.client.tables.mem
      ensures exists m :: PushedFor(s, r.hostId, m) && r == MemRow(m, r.hostId, r.ts)
    {
      var h := MemRowOrigin(s.history, s.log, r);
      StoredIsPushed(s, h);
    }
    forall r | r in s.client.tables.disk
      ensures exists m :: PushedFor(s, r.hostId, m) && r in DiskRows(m, r.hostId, r.ts)
    {
      var h := DiskRowOrigin(s.history, s.log, r);
      StoredIsPushed(s, h);
    }
    forall r | r in s.client.tables.net
      ensures exists m :: PushedFor(s, r.hostId, m) && r in NetRows(m, r.hostId, r.ts)
    {
      var h := NetRowOrigin(s.history, s.log, r);
      StoredIsPushed(s, h);
    }
    forall k | k in s.client.summaries
      ensures exists m :: PushedFor(s, k.0, m) && s.client.summaries[k].score == Some(Scores.Overall(m))
    {
      assert Scored(s, k.0, s.client.summaries[k].score);
      var h :| h in s.history && h.id == k.0 && h.version < |s.log|
               && s.client.summaries[k].score == Some(Scores.Overall(s.log[h.version]));
      StoredIsPushed(s, h);
    }
  }
}
