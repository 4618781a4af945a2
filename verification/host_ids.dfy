/** Host ids: a cache in front of the `host_info` table, and ids made from the name and the time of creation. */
module HostIds {
  import opened Words

  datatype HostRow = HostRow(id: string, name: string)

  /** The process's cache and the table, which outlives the process. */
  datatype HostState = HostState(cache: map<string, string>, hosts: seq<HostRow>)

  /** What one call meets: its clock, and whether its SELECT and its INSERT are executed. */
  datatype Calls = Calls(now: nat, selectOk: bool, insertOk: bool)

  // ---------------------------------------------------------------- making ids

  function Digit(d: nat): char
    requires d < 10
  {
    "0123456789"[d]
  }

  /** `std::to_string`. */
  function Decimal(n: nat): string {
    if n < 10 then [Digit(n)] else Decimal(n / 10) + [Digit(n % 10)]
  }

  function HostId(name: string, now: nat): string {
    "host_" + name + "_" + Decimal(now)
  }

  lemma {:induction false} DecimalHasNoUnderscore(n: nat)
    ensures '_' !in Decimal(n)
  {
    if n >= 10 { DecimalHasNoUnderscore(n / 10); }
  }

  lemma {:induction false} DecimalInjective(a: nat, b: nat)
    requires Decimal(a) == Decimal(b)
    ensures a == b
  {
    var x, y := Decimal(a), Decimal(b);
    assert x[|x| - 1] == Digit(a % 10) && y[|y| - 1] == Digit(b % 10);
    assert a % 10 == b % 10;
    if a >= 10 {
      assert |Decimal(a / 10)| > 0;
      assert b >= 10;
      assert x[..|x| - 1] == Decimal(a / 10) && y[..|y| - 1] == Decimal(b / 10);
      DecimalInjective(a / 10, b / 10);
    }
  }

  /** What follows the last underscore tells two ids apart. */
  lemma SplitAtLastUnderscore(a: string, b: string, x: string, y: string)
    requires a + "_" + x == b + "_" + y && '_' !in x && '_' !in y
    ensures a == b && x == y
  {
    var s := a + "_" + x;
    LastUnderscore(a, x);
    LastUnderscore(b, y);
    assert |a| == |b|;
    assert s[..|a|] == a && s[|a| + 1..] == x && (b + "_" + y)[..|b|] == b && (b + "_" + y)[|b| + 1..] == y;
  }

  lemma LastUnderscore(a: string, x: string)
    requires '_' !in x
    ensures var s := a + "_" + x; s[|a|] == '_' && forall p :: |a| < p < |s| ==> s[p] != '_'
  {
    var s := a + "_" + x;
    forall p | |a| < p < |s| ensures s[p] != '_' {
      assert s[p] == x[p - |a| - 1] && x[p - |a| - 1] in x;
    }
  }

  /** Different names or different times make different ids. */
  lemma HostIdInjective(n: string, t: nat, n': string, t': nat)
    requires HostId(n, t) == HostId(n', t')
    ensures n == n' && t == t'
  {
    DecimalHasNoUnderscore(t);
    DecimalHasNoUnderscore(t');
    SplitAtLastUnderscore("host_" + n, "host_" + n', Decimal(t), Decimal(t'));
    assert n == ("host_" + n)[5..] && n' == ("host_" + n')[5..];
    DecimalInjective(t, t');
  }

  function Value(digits: string): int {
    if digits == "" then 0 else 10 * Value(digits[..|digits| - 1]) + (digits[|digits| - 1] as int - '0' as int)
  }

  /** `Decimal` writes its argument: digits only, with that value, and without a leading zero. */
  lemma {:induction false} DecimalIsDecimal(n: nat)
    ensures Value(Decimal(n)) == n && Decimal(n) != ""
    ensures forall k :: 0 <= k < |Decimal(n)| ==> '0' <= Decimal(n)[k] <= '9'
    ensures |Decimal(n)| > 1 ==> Decimal(n)[0] != '0'
  {
    DigitIs(n % 10);
    if n < 10 {
      assert Value("") == 0;
    } else {
      var d := Decimal(n);
      DecimalIsDecimal(n / 10);
      assert d[..|d| - 1] == Decimal(n / 10);
      if n / 10 < 10 { DigitIs(n / 10); }
    }
  }

  lemma DigitIs(d: nat)
    requires d < 10
    ensures Digit(d) as int == '0' as int + d
  {
  }

  /** `host_`, the name, an underscore and the time. */
  lemma HostIdExactly(name: string, now: nat)
    ensures var id := HostId(name, now);
            && |id| == 6 + |name| + |Decimal(now)| && id[..5] == "host_" && id[5..5 + |name|] == name
            && id[5 + |name|] == '_' && id[6 + |name|..] == Decimal(now)
  {
  }

  // ---------------------------------------------------------------- lookup or creation

  /** `SELECT host_id FROM host_info WHERE host_name = ...`, first row. */
  function Select(hosts: seq<HostRow>, name: string): Option<string> {
    if hosts == [] then None else if hosts[0].name == name then Some(hosts[0].id) else Select(hosts[1..], name)
  }

  predicate HasId(hosts: seq<HostRow>, id: string) {
    exists r :: r in hosts && r.id == id
  }

  predicate HasName(hosts: seq<HostRow>, name: string) {
    exists r :: r in hosts && r.name == name
  }

  /** Does this call insert a row? The id is the table's primary key. */
  predicate Inserts(s: HostState, name: string, c: Calls) {
    && name !in s.cache
    && !(c.selectOk && Select(s.hosts, name).Some?)
    && c.insertOk && !HasId(s.hosts, HostId(name, c.now))
  }

  /** The id returned, empty on failure, and the state afterwards. */
  function GetOrCreate(s: HostState, name: string, c: Calls): (HostState, string) {
    if name in s.cache then (s, s.cache[name])
    else
      var found := if c.selectOk then Select(s.hosts, name) else None;
      if found.Some? then (s.(cache := s.cache[name := found.value]), found.value)
      else if Inserts(s, name, c) then
        var id := HostId(name, c.now);
        (HostState(s.cache[name := id], s.hosts + [HostRow(id, name)]), id)
      else (s, "")
  }

  lemma {:induction false} SelectFinds(hosts: seq<HostRow>, name: string)
    ensures Select(hosts, name).Some? <==> HasName(hosts, name)
    ensures Select(hosts, name).Some? ==> HostRow(Select(hosts, name).value, name) in hosts
  {
    if hosts != [] {
      SelectFinds(hosts[1..], name);
      assert hosts[0] in hosts && forall r :: r in hosts <==> r == hosts[0] || r in hosts[1..];
    }
  }

  /** The row that the SELECT finds: the first one with the name. */
  ghost predicate FirstWithName(hosts: seq<HostRow>, name: string, i: nat) {
    i < |hosts| && hosts[i].name == name && forall j :: 0 <= j < i ==> hosts[j].name != name
  }

  lemma {:induction false} SelectIsFirst(hosts: seq<HostRow>, name: string)
    ensures if Select(hosts, name).None? then forall r :: r in hosts ==> r.name != name
            else exists i: nat :: FirstWithName(hosts, name, i) && hosts[i].id == Select(hosts, name).value
  {
    if hosts != [] {
      SelectIsFirst(hosts[1..], name);
      if hosts[0].name == name {
        assert FirstWithName(hosts, name, 0);
      } else if Select(hosts[1..], name).Some? {
        var i: nat :| FirstWithName(hosts[1..], name, i) && hosts[1..][i].id == Select(hosts[1..], name).value;
        forall j | 0 <= j < i + 1 ensures hosts[j].name != name {
          if j > 0 { assert hosts[j] == hosts[1..][j - 1]; }
        }
        assert FirstWithName(hosts, name, i + 1);
      } else {
        forall r | r in hosts ensures r.name != name {
          assert r == hosts[0] || r in hosts[1..];
        }
      }
    }
  }

  /** Exactly what a call does. A cached name is answered from the cache. Else, if the SELECT is executed and the name
      has a row, the first such row is answered and cached. Else, if the INSERT is executed and its id is not taken, a
      row is added, cached and answered. Else nothing happens and the answer is empty. */
  lemma GetOrCreateExactly(s: HostState, name: string, c: Calls)
    ensures var (s', id) := GetOrCreate(s, name, c);
            var newId := HostId(name, c.now);
            if name in s.cache then s' == s && id == s.cache[name]
            else if c.selectOk && (exists r :: r in s.hosts && r.name == name) then
              && (exists i: nat :: FirstWithName(s.hosts, name, i) && id == s.hosts[i].id)
              && s' == HostState(s.cache[name := id], s.hosts)
            else if c.insertOk && (forall r :: r in s.hosts ==> r.id != newId) then
              id == newId && s' == HostState(s.cache[name := newId], s.hosts + [HostRow(newId, name)])
            else s' == s && id == ""
  {
    SelectIsFirst(s.hosts, name);
    if Select(s.hosts, name).Some? {
      var i: nat :| FirstWithName(s.hosts, name, i) && s.hosts[i].id == Select(s.hosts, name).value;
      assert s.hosts[i] in s.hosts;
    }
    hide HostId, Select;
  }

  // ---------------------------------------------------------------- agreement of cache and table

  ghost predicate Made(r: HostRow) {
    exists t: nat :: r.id == HostId(r.name, t)
  }

  /** Every id is made from its name, and every cached id is a row of the table. */
  ghost predicate Agrees(s: HostState) {
    && (forall r :: r in s.hosts ==> Made(r))
    && (forall n :: n in s.cache ==> HostRow(s.cache[n], n) in s.hosts)
  }

  ghost predicate NamesUnique(hosts: seq<HostRow>) {
    forall i, j :: 0 <= i < j < |hosts| ==> hosts[i].name != hosts[j].name
  }

  /** An id names one host only. */
  lemma IdDeterminesName(s: HostState, r: HostRow, r': HostRow)
    requires Agrees(s) && r in s.hosts && r' in s.hosts && r.id == r'.id
    ensures r.name == r'.name && r.id != ""
  {
    assert Made(r) && Made(r');
    var t: nat :| r.id == HostId(r.name, t);
    var t': nat :| r'.id == HostId(r'.name, t');
    HostIdInjective(r.name, t, r'.name, t');
  }

  /** Whatever fails, a call keeps cache and table in agreement, only adds to them, and returns nothing or the id of
      a row for the name asked for, which is then cached. */
  lemma GetOrCreateAgrees(s: HostState, name: string, c: Calls)
    requires Agrees(s)
    ensures var (s', id) := GetOrCreate(s, name, c);
            && Agrees(s')
            && s.hosts <= s'.hosts
            && (forall n :: n in s.cache ==> n in s'.cache && s'.cache[n] == s.cache[n])
            && (id != "" ==> HostRow(id, name) in s'.hosts && name in s'.cache && s'.cache[name] == id)
  {
    SelectFinds(s.hosts, name);
    assert Made(HostRow(HostId(name, c.now), name));
  }

  /** The answer is empty exactly if the name is not cached, no row of it is found, and no row can be added. */
  lemma EmptyExactlyWhen(s: HostState, name: string, c: Calls)
    requires Agrees(s)
    ensures GetOrCreate(s, name, c).1 == ""
            <==> && name !in s.cache && !(c.selectOk && (exists r :: r in s.hosts && r.name == name))
                 && !(c.insertOk && (forall r :: r in s.hosts ==> r.id != HostId(name, c.now)))
  {
    GetOrCreateExactly(s, name, c);
    GetOrCreateAgrees(s, name, c);
    if name in s.cache {
      IdDeterminesName(s, HostRow(s.cache[name], name), HostRow(s.cache[name], name));
    } else if c.selectOk && (exists r :: r in s.hosts && r.name == name) {
      var i: nat :| FirstWithName(s.hosts, name, i) && GetOrCreate(s, name, c).1 == s.hosts[i].id;
      IdDeterminesName(s, s.hosts[i], s.hosts[i]);
    } else {
      HostIdExactly(name, c.now);
    }
  }

  /** With both statements executed there is always an answer: a taken id is a row of the same name. */
  lemma WorkingCallsAnswer(s: HostState, name: string, c: Calls)
    requires Agrees(s) && c.selectOk && c.insertOk
    ensures GetOrCreate(s, name, c).1 != ""
  {
    EmptyExactlyWhen(s, name, c);
    forall r | r in s.hosts && r.id == HostId(name, c.now) ensures r.name == name {
      assert Made(r);
      var t: nat :| r.id == HostId(r.name, t);
      HostIdInjective(r.name, t, name, c.now);
    }
  }

  /** Does this call give a name that has a row already a second one? */
  predicate Duplicates(s: HostState, name: string, c: Calls) {
    !c.selectOk && HasName(s.hosts, name) && Inserts(s, name, c)
  }

  /** A call keeps one row for each name, except exactly when its SELECT is not executed, the name has a row that is
      not cached, and its INSERT goes through. */
  lemma NamesStayUniqueExactlyWhen(s: HostState, name: string, c: Calls)
    requires Agrees(s) && NamesUnique(s.hosts)
    ensures NamesUnique(GetOrCreate(s, name, c).0.hosts)
            <==> !Duplicates(s, name, c)
  {
    SelectFinds(s.hosts, name);
    if Inserts(s, name, c) {
      var hosts', n := GetOrCreate(s, name, c).0.hosts, |s.hosts|;
      assert hosts'[n].name == name;
      if HasName(s.hosts, name) {
        var r :| r in s.hosts && r.name == name;
        var i :| 0 <= i < n && s.hosts[i] == r;
        assert hosts'[i].name == hosts'[n].name;
      } else {
        forall i | 0 <= i < n ensures hosts'[i].name != name { assert s.hosts[i] in s.hosts; }
      }
    }
  }

  /** The concrete failing case: a restarted process whose SELECT fails gives a known host a second row. */
  lemma FailedSelectDuplicates()
    ensures var s := HostState(map[], [HostRow(HostId("a", 1), "a")]);
            Agrees(s) && NamesUnique(s.hosts) && !NamesUnique(GetOrCreate(s, "a", Calls(2, false, true)).0.hosts)
  {
    var s, c := HostState(map[], [HostRow(HostId("a", 1), "a")]), Calls(2, false, true);
    assert Made(HostRow(HostId("a", 1), "a"));
    assert HasName(s.hosts, "a") by { assert s.hosts[0].name == "a"; }
    if HasId(s.hosts, HostId("a", 2)) { HostIdInjective("a", 1, "a", 2); }
    NamesStayUniqueExactlyWhen(s, "a", c);
  }

  // ---------------------------------------------------------------- whole runs

  datatype Event = Request(name: string, calls: Calls) | Restart

  function Step(s: HostState, e: Event): (HostState, string) {
    match e
    case Request(name, calls) => GetOrCreate(s, name, calls)
    case Restart => (s.(cache := map[]), "")
  }

  function Run(s: HostState, es: seq<Event>): (r: (HostState, seq<string>))
    ensures |r.1| == |es|
  {
    if es == [] then (s, [])
    else
      var n := |es| - 1;
      var (s1, ids) := Run(s, es[..n]);
      var (s2, id) := Step(s1, es[n]);
      (s2, ids + [id])
  }

  ghost predicate SelectsWork(es: seq<Event>) {
    forall e :: e in es && e.Request? ==> e.calls.selectOk
  }

  /** No request of the run, in the state that it finds, gives a name a second row. */
  predicate NoneDuplicates(s: HostState, es: seq<Event>) {
    es == [] ||
    (var n := |es| - 1;
     NoneDuplicates(s, es[..n]) && (es[n].Request? ==> !Duplicates(Run(s, es[..n]).0, es[n].name, es[n].calls)))
  }

  lemma {:induction false} WorkingSelectsDuplicateNone(s: HostState, es: seq<Event>)
    requires SelectsWork(es)
    ensures NoneDuplicates(s, es)
  {
    if es != [] {
      assert forall e :: e in es[..|es| - 1] ==> e in es;
      assert es[|es| - 1] in es;
      WorkingSelectsDuplicateNone(s, es[..|es| - 1]);
    }
  }

  /** Over any run, with restarts and failures anywhere: cache and table agree, rows are only added, and every
      non-empty answer is a row for the name asked for. */
  lemma {:induction false} RunAgrees(s: HostState, es: seq<Event>)
    requires Agrees(s)
    ensures var (s', ids) := Run(s, es);
            && Agrees(s') && s.hosts <= s'.hosts
            && forall i :: 0 <= i < |es| && es[i].Request? && ids[i] != "" ==> HostRow(ids[i], es[i].name) in s'.hosts
  {
    if es != [] {
      var n := |es| - 1;
      RunAgrees(s, es[..n]);
      var (s1, ids) := Run(s, es[..n]);
      if es[n].Request? {
        GetOrCreateAgrees(s1, es[n].name, es[n].calls);
        hide Agrees, GetOrCreate;
      }
    }
  }

  /** Over any run: names stay unique exactly when no request of the run gives one a second row. */
  lemma {:induction false} NamesUniqueExactlyWhen(s: HostState, es: seq<Event>)
    requires Agrees(s) && NamesUnique(s.hosts)
    ensures NamesUnique(Run(s, es).0.hosts) <==> NoneDuplicates(s, es)
  {
    hide Agrees, GetOrCreate, Duplicates, NamesUnique;
    if es != [] {
      var n := |es| - 1;
      NamesUniqueExactlyWhen(s, es[..n]);
      RunAgrees(s, es[..n]);
      var s1 := Run(s, es[..n]).0;
      if es[n].Request? {
        var s2 := GetOrCreate(s1, es[n].name, es[n].calls).0;
        GetOrCreateAgrees(s1, es[n].name, es[n].calls);
        if NamesUnique(s1.hosts) {
          NamesStayUniqueExactlyWhen(s1, es[n].name, es[n].calls);
        } else {
          DuplicatesStay(s1.hosts, s2.hosts);
        }
      }
    }
  }

  lemma DuplicatesStay(hosts: seq<HostRow>, hosts': seq<HostRow>)
    requires !NamesUnique(hosts) && hosts <= hosts'
    ensures !NamesUnique(hosts')
  {
    var i, j :| 0 <= i < j < |hosts| && hosts[i].name == hosts[j].name;
    assert hosts'[i] == hosts[i] && hosts'[j] == hosts[j];
  }

  /** Over any run after which names are unique, with restarts and failures anywhere: a name's non-empty id never
      changes, and two names never share an id. */
  lemma IdsAreStable(s: HostState, es: seq<Event>, i: nat, j: nat)
    requires Agrees(s) && NamesUnique(Run(s, es).0.hosts)
    requires i < |es| && j < |es| && es[i].Request? && es[j].Request?
    requires Run(s, es).1[i] != "" && Run(s, es).1[j] != ""
    ensures Run(s, es).1[i] == Run(s, es).1[j] <==> es[i].name == es[j].name
  {
    RunAgrees(s, es);
    var (s', ids) := Run(s, es);
    var a, b := HostRow(ids[i], es[i].name), HostRow(ids[j], es[j].name);
    if a.name == b.name {
      var p :| 0 <= p < |s'.hosts| && s'.hosts[p] == a;
      var q :| 0 <= q < |s'.hosts| && s'.hosts[q] == b;
      assert p == q;
    }
    if a.id == b.id {
      IdDeterminesName(s', a, b);
    }
  }
}
