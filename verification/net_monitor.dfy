/** `NetMonitor`: reading the eBPF map key by key, and turning successive readings into rates. */
module NetMonitoring {
  import opened Words
  import opened IfStats
  import opened Interfaces

  // ---------------------------------------------------------------- walking the map

  /** What the system calls say about one key: the copied per-CPU values (none when the lookup fails) and the
      interface name (empty when there is none any more). */
  datatype KeyView = KeyView(values: Option<seq<Counters>>, ifname: string)

  /** `bpf_map_get_next_key`: the key after `key` in hash order, or the first key if `key` is not in the map. */
  function GetNextKey(keys: seq<int>, key: int): Option<int> {
    if key !in keys then
      if keys == [] then None else Some(keys[0])
    else
      var i := IndexOf(keys, key);
      if i + 1 < |keys| then Some(keys[i + 1]) else None
  }

  function IndexOf(keys: seq<int>, key: int): (i: nat)
    requires key in keys
    ensures i < |keys| && keys[i] == key
  {
    if keys[0] == key then 0 else 1 + IndexOf(keys[1..], key)
  }

  /** New keys may have come in, anywhere; the old ones are still there, in the old order. */
  ghost predicate KeepsOrder(was: seq<int>, now: seq<int>) {
    && (forall x :: x in was ==> x in now)
    && (forall x, y :: x in was && y in was && IndexOf(was, x) < IndexOf(was, y) ==> IndexOf(now, x) < IndexOf(now, y))
  }

  /** The keys in hash order, as each call of the walk finds them. */
  ghost predicate Grows(keys: nat -> seq<int>) {
    && (forall i: nat :: Distinct(keys(i)) && |keys(i)| <= MAX_ENTRIES)
    && (forall i: nat, j: nat :: j == i + 1 ==> KeepsOrder(keys(i), keys(j)))
  }

  /** How many places of the map are still behind `key`. */
  ghost function Behind(keys: seq<int>, key: int): nat
    requires |keys| <= MAX_ENTRIES
  {
    if key in keys then MAX_ENTRIES - IndexOf(keys, key) else MAX_ENTRIES + 1
  }

  /** The keys that the walk visits from `key` on, its next call being the `i`-th. */
  ghost function WalkFrom(keys: nat -> seq<int>, i: nat, key: int): seq<int>
    requires Grows(keys)
    decreases Behind(keys(i), key)
  {
    var next := GetNextKey(keys(i), key);
    if next.None? then []
    else
      assert KeepsOrder(keys(i), keys(i + 1));
      IndexGrows(keys(i), keys(i + 1), next.value);
      NextIsBehind(keys(i), key);
      [next.value] + WalkFrom(keys, i + 1, next.value)
  }

  /** Does the walk still come to `x` after `key`, if nothing changes? */
  ghost predicate Ahead(keys: seq<int>, key: int, x: int) {
    x in keys && (key in keys ==> IndexOf(keys, key) < IndexOf(keys, x))
  }

  lemma {:induction false} WalkVisitsAhead(keys: nat -> seq<int>, i: nat, key: int, x: int)
    requires Grows(keys) && x in WalkFrom(keys, i, key) && x in keys(i)
    ensures Ahead(keys(i), key, x)
    decreases |WalkFrom(keys, i, key)|
  {
    NextIsBehind(keys(i), key);
    var next := GetNextKey(keys(i), key).value;
    assert KeepsOrder(keys(i), keys(i + 1));
    if x != next {
      WalkVisitsAhead(keys, i + 1, next, x);
      DistinctPlaces(keys(i), x, next);
    }
  }

  lemma {:induction false} WalkMissesNone(keys: nat -> seq<int>, i: nat, key: int, x: int)
    requires Grows(keys) && Ahead(keys(i), key, x)
    ensures x in WalkFrom(keys, i, key)
    decreases Behind(keys(i), key)
  {
    NextIsBehind(keys(i), key);
    var next := GetNextKey(keys(i), key).value;
    assert KeepsOrder(keys(i), keys(i + 1));
    IndexGrows(keys(i), keys(i + 1), next);
    if x != next {
      DistinctPlaces(keys(i), x, next);
      WalkMissesNone(keys, i + 1, next, x);
    }
  }

  /** One call of the walk. */
  lemma WalkStep(keys: nat -> seq<int>, i: nat, key: int)
    requires Grows(keys)
    ensures var next := GetNextKey(keys(i), key);
            if next.None? then WalkFrom(keys, i, key) == []
            else
              && WalkFrom(keys, i, key) == [next.value] + WalkFrom(keys, i + 1, next.value)
              && next.value in keys(i) && next.value in keys(i + 1)
  {
    if GetNextKey(keys(i), key).Some? {
      NextIsBehind(keys(i), key);
      assert KeepsOrder(keys(i), keys(i + 1));
    }
  }

  lemma {:induction false} WalkIsDistinct(keys: nat -> seq<int>, i: nat, key: int)
    requires Grows(keys)
    ensures Distinct(WalkFrom(keys, i, key))
    decreases |WalkFrom(keys, i, key)|
  {
    hide Grows, WalkFrom;
    var walk := WalkFrom(keys, i, key);
    WalkStep(keys, i, key);
    if walk != [] {
      WalkIsDistinct(keys, i + 1, walk[0]);
      if walk[0] in WalkFrom(keys, i + 1, walk[0]) {
        WalkVisitsAhead(keys, i + 1, walk[0], walk[0]);
      }
    }
  }

  lemma {:induction false} WalkStaysInMap(keys: nat -> seq<int>, i: nat, key: int, m: nat)
    requires Grows(keys) && m < |WalkFrom(keys, i, key)|
    ensures WalkFrom(keys, i, key)[m] in keys(i + m)
    decreases m
  {
    hide Grows, WalkFrom;
    WalkStep(keys, i, key);
    if m > 0 {
      WalkStaysInMap(keys, i + 1, WalkFrom(keys, i, key)[0], m - 1);
      assert i + m == i + 1 + (m - 1);
    }
  }

  /** While new keys come in, the walk ends, visits no key twice and only keys of the map, and of the keys there from
      the start exactly those behind a key 0, or all if there is no key 0. */
  lemma WalkVisitsEachOnce(keys: nat -> seq<int>)
    requires Grows(keys)
    ensures var walk := WalkFrom(keys, 0, 0);
            && Distinct(walk)
            && (forall m :: 0 <= m < |walk| ==> walk[m] in keys(m))
            && (forall x :: x in keys(0) ==> (x in walk <==> Ahead(keys(0), 0, x)))
  {
    hide Grows, WalkFrom;
    var walk := WalkFrom(keys, 0, 0);
    WalkIsDistinct(keys, 0, 0);
    forall m | 0 <= m < |walk| ensures walk[m] in keys(m) { WalkStaysInMap(keys, 0, 0, m); }
    forall x | x in keys(0) ensures x in walk <==> Ahead(keys(0), 0, x) {
      if x in walk { WalkVisitsAhead(keys, 0, 0, x); }
      if Ahead(keys(0), 0, x) { WalkMissesNone(keys, 0, 0, x); }
    }
  }

  function SumCpus(values: seq<Counters>): Counters {
    Counters(Sum64(Column(values, RcvBytes)), Sum64(Column(values, RcvPackets)),
             Sum64(Column(values, SndBytes)), Sum64(Column(values, SndPackets)))
  }

  function Plus(a: Counters, b: Counters): Counters {
    Counters(Add64(a.rcvBytes, b.rcvBytes), Add64(a.rcvPackets, b.rcvPackets),
             Add64(a.sndBytes, b.sndBytes), Add64(a.sndPackets, b.sndPackets))
  }

  predicate Reported(v: KeyView) {
    v.values.Some? && v.ifname != "" && !IsVirtualInterface(v.ifname)
  }

  /** The readings of the keys visited, a later key of the same name replacing an earlier one. */
  function Readings(keys: seq<int>, view: int -> KeyView): map<string, Counters> {
    if keys == [] then map[]
    else
      var n := |keys| - 1;
      var before, v := Readings(keys[..n], view), view(keys[n]);
      if Reported(v) then before[v.ifname := SumCpus(v.values.value)] else before
  }

  function AddToTotal(total: Counters, keys: seq<int>, view: int -> KeyView): Counters {
    if keys == [] then total
    else
      var n := |keys| - 1;
      var before, v := AddToTotal(total, keys[..n], view), view(keys[n]);
      if Reported(v) then Plus(before, SumCpus(v.values.value)) else before
  }

  /** Key `i` is the last one visited that reports `ifname`. */
  ghost predicate LastReport(keys: seq<int>, view: int -> KeyView, ifname: string, i: nat) {
    && i < |keys| && Reported(view(keys[i])) && view(keys[i]).ifname == ifname
    && forall j :: i < j < |keys| && Reported(view(keys[j])) ==> view(keys[j]).ifname != ifname
  }

  lemma LastReportStays(keys: seq<int>, key: int, view: int -> KeyView, ifname: string, i: nat)
    requires LastReport(keys, view, ifname, i)
    requires Reported(view(key)) ==> view(key).ifname != ifname
    ensures LastReport(keys + [key], view, ifname, i)
  {
    hide Reported;
    forall j | i < j < |keys + [key]| && Reported(view((keys + [key])[j]))
      ensures view((keys + [key])[j]).ifname != ifname
    {
      assert j < |keys| ==> (keys + [key])[j] == keys[j];
    }
  }

  /** Exactly the reported names appear. */
  lemma {:induction false} ReadingNames(keys: seq<int>, view: int -> KeyView, ifname: string)
    ensures ifname in Readings(keys, view) <==>
            exists i :: 0 <= i < |keys| && Reported(view(keys[i])) && view(keys[i]).ifname == ifname
  {
    if keys != [] {
      var n := |keys| - 1;
      ReadingNames(keys[..n], view, ifname);
      hide Reported, SumCpus;
      assert forall i :: 0 <= i < n ==> keys[..n][i] == keys[i];
    }
  }

  /** Exactly the reported names appear, each with the per-CPU sum of the last visited key of that name. */
  lemma {:induction false} ReadingsExact(keys: seq<int>, view: int -> KeyView, ifname: string)
    ensures ifname in Readings(keys, view) <==> exists i: nat :: LastReport(keys, view, ifname, i)
    ensures forall i: nat :: LastReport(keys, view, ifname, i) && ifname in Readings(keys, view) ==>
              Readings(keys, view)[ifname] == SumCpus(view(keys[i]).values.value)
  {
    if keys != [] {
      var n := |keys| - 1;
      var before, key := keys[..n], keys[n];
      ReadingsExact(before, view, ifname);
      assert Readings(keys, view) ==
             if Reported(view(key)) then Readings(before, view)[view(key).ifname := SumCpus(view(key).values.value)]
             else Readings(before, view);
      hide Reported, SumCpus, Readings;
      assert keys == before + [key];
      if Reported(view(key)) && view(key).ifname == ifname {
        assert LastReport(keys, view, ifname, n);
      } else {
        forall i: nat | LastReport(before, view, ifname, i) ensures LastReport(keys, view, ifname, i) {
          LastReportStays(before, key, view, ifname, i);
        }
        forall i: nat | LastReport(keys, view, ifname, i) ensures LastReport(before, view, ifname, i) {
          assert i < n && forall j :: i < j < n ==> before[j] == keys[j];
        }
      }
    }
  }

  /** A key is left out exactly if its lookup failed, it has no name any more, or its interface is virtual. */
  lemma ReportedExactly(v: KeyView)
    ensures Reported(v) <==> v.values.Some? && v.ifname != "" && !VirtualByPrefix(v.ifname)
  {
    VirtualExactly(v.ifname);
  }

  /** In the fields of the counter block: the sum over no CPU, and with one CPU more. */
  lemma SumCpusFields(values: seq<Counters>, v: Counters)
    ensures SumCpus([]) == Counters(0, 0, 0, 0)
    ensures var s := SumCpus(values);
            SumCpus(values + [v]) ==
            Counters(Add64(s.rcvBytes, v.rcvBytes), Add64(s.rcvPackets, v.rcvPackets),
                     Add64(s.sndBytes, v.sndBytes), Add64(s.sndPackets, v.sndPackets))
  {
    forall f: Field ensures Column(values + [v], f) == Column(values, f) + [Get(v, f)] { }
    hide Add64;
  }

  /** The per-CPU sums of the keys reported. */
  ghost function ReportedSums(keys: seq<int>, view: int -> KeyView): seq<Counters> {
    if keys == [] then []
    else
      var v := view(keys[|keys| - 1]);
      ReportedSums(keys[..|keys| - 1], view)
      + if v.values.Some? && v.ifname != "" && !VirtualByPrefix(v.ifname) then [SumCpus(v.values.value)] else []
  }

  /** The running total grows by the sums of all reported keys. */
  lemma {:induction false} TotalGrows(total: Counters, keys: seq<int>, view: int -> KeyView)
    ensures AddToTotal(total, keys, view) == Plus(total, SumCpus(ReportedSums(keys, view)))
  {
    if keys == [] {
      SumCpusFields([], total);
    } else {
      var n := |keys| - 1;
      var v, before := view(keys[n]), ReportedSums(keys[..n], view);
      TotalGrows(total, keys[..n], view);
      ReportedExactly(v);
      hide Reported, SumCpus, Plus;
      hide VirtualByPrefix;
      if Reported(v) {
        SumCpusFields(before, SumCpus(v.values.value));
        PlusTwice(total, SumCpus(before), SumCpus(v.values.value), SumCpus(before + [SumCpus(v.values.value)]));
      } else {
        assert before + [] == before;
      }
    }
  }

  lemma PlusTwice(t: Counters, a: Counters, b: Counters, ab: Counters)
    requires ab == Counters(Add64(a.rcvBytes, b.rcvBytes), Add64(a.rcvPackets, b.rcvPackets),
                            Add64(a.sndBytes, b.sndBytes), Add64(a.sndPackets, b.sndPackets))
    ensures Plus(Plus(t, a), b) == Plus(t, ab)
  {
    AddTwice(t.rcvBytes, a.rcvBytes, b.rcvBytes);
    AddTwice(t.rcvPackets, a.rcvPackets, b.rcvPackets);
    AddTwice(t.sndBytes, a.sndBytes, b.sndBytes);
    AddTwice(t.sndPackets, a.sndPackets, b.sndPackets);
    hide Add64;
  }

  lemma AddTwice(t: u64, a: u64, b: u64)
    ensures Add64(Add64(t, a), b) == Add64(t, Add64(a, b))
  {
  }

  // ---------------------------------------------------------------- rates

  datatype ErrDrop = ErrDrop(errIn: u64, errOut: u64, dropIn: u64, dropOut: u64)

  datatype NetStat = NetStat(counters: Counters, err: ErrDrop)

  datatype NetInfo = NetInfo(stat: NetStat, timepoint: real)

  datatype NetMsg = NetMsg(name: string, rcvRate: real, rcvPacketsRate: real, sendRate: real, sendPacketsRate: real,
                           err: ErrDrop,
                           errInRate: real, errOutRate: real, dropInRate: real, dropOutRate: real)

  type Cache = map<string, NetInfo>

  /** One call of `UpdateOnce`: its clock, the eBPF readings and the `/proc` error and drop counts. */
  datatype Poll = Poll(now: real, ebpf: map<string, Counters>, proc: map<string, ErrDrop>)

  function Merge(p: Poll, ifname: string): NetStat
    requires ifname in p.ebpf
  {
    NetStat(p.ebpf[ifname], if ifname in p.proc then p.proc[ifname] else ErrDrop(0, 0, 0, 0))
  }

  function PerSecond(now: u64, last: u64, dt: real): real
    requires dt > 0.0
  {
    Sub64(now, last) as real / dt
  }

  function KBPerSecond(now: u64, last: u64, dt: real): real
    requires dt > 0.0
  {
    Sub64(now, last) as real / 1024.0 / dt
  }

  function MsgFor(cache: Cache, p: Poll, ifname: string): NetMsg
    requires ifname in p.ebpf
  {
    var stat := Merge(p, ifname);
    if ifname in cache && p.now - cache[ifname].timepoint > 0.0 then
      var last, dt := cache[ifname].stat, p.now - cache[ifname].timepoint;
      var c, l := stat.counters, last.counters;
      NetMsg(ifname,
             KBPerSecond(c.rcvBytes, l.rcvBytes, dt), PerSecond(c.rcvPackets, l.rcvPackets, dt),
             KBPerSecond(c.sndBytes, l.sndBytes, dt), PerSecond(c.sndPackets, l.sndPackets, dt),
             stat.err,
             PerSecond(stat.err.errIn, last.err.errIn, dt), PerSecond(stat.err.errOut, last.err.errOut, dt),
             PerSecond(stat.err.dropIn, last.err.dropIn, dt), PerSecond(stat.err.dropOut, last.err.dropOut, dt))
    else
      NetMsg(ifname, 0.0, 0.0, 0.0, 0.0, stat.err, 0.0, 0.0, 0.0, 0.0)
  }

  function After(cache: Cache, p: Poll): Cache {
    cache + map ifname | ifname in p.ebpf :: NetInfo(Merge(p, ifname), p.now)
  }

  /** The cache when only the interfaces outside `todo` have been replaced. */
  function Replaced(cache: Cache, p: Poll, todo: set<string>): Cache {
    cache + map ifname | ifname in p.ebpf && ifname !in todo :: NetInfo(Merge(p, ifname), p.now)
  }

  lemma ReplaceOne(cache: Cache, p: Poll, todo: set<string>, n: string)
    requires n in todo && n in p.ebpf
    ensures Replaced(cache, p, todo)[n := NetInfo(Merge(p, n), p.now)] == Replaced(cache, p, todo - {n})
    ensures MsgFor(Replaced(cache, p, todo), p, n) == MsgFor(cache, p, n)
  {
  }

  /** One message for each interface outside `todo`, in some order. */
  ghost predicate OneEach(msgs: seq<NetMsg>, cache: Cache, p: Poll, todo: set<string>) {
    && |msgs| + |todo| == |p.ebpf|
    && (forall i, j :: 0 <= i < j < |msgs| ==> msgs[i].name != msgs[j].name)
    && (forall i :: 0 <= i < |msgs| ==>
          msgs[i].name in p.ebpf && msgs[i].name !in todo && msgs[i] == MsgFor(cache, p, msgs[i].name))
  }

  lemma AppendOne(msgs: seq<NetMsg>, cache: Cache, p: Poll, todo: set<string>, n: string)
    requires OneEach(msgs, cache, p, todo) && n in todo && n in p.ebpf
    ensures OneEach(msgs + [MsgFor(cache, p, n)], cache, p, todo - {n})
  {
    var m := MsgFor(cache, p, n);
    assert m.name == n;
  }

  class NetMonitor {
    var total: Counters
    var lastNetInfo: Cache
    var bpfLoaded: bool

    constructor (bpfLoaded: bool)
      ensures this.bpfLoaded == bpfLoaded && lastNetInfo == map[] && total == ZERO
    {
      this.bpfLoaded := bpfLoaded;
      lastNetInfo := map[];
      total := ZERO;
    }

    /** The walk over the keys of the map, which starts from the "previous key" 0. */
    method EbpfGetNetStats(keys: nat -> seq<int>, view: int -> KeyView, haveBuffer: bool)
      returns (states: map<string, Counters>)
      requires Grows(keys)
      modifies this`total
      ensures bpfLoaded && haveBuffer ==>
                && states == Readings(WalkFrom(keys, 0, 0), view)
                && total == AddToTotal(old(total), WalkFrom(keys, 0, 0), view)
      ensures !(bpfLoaded && haveBuffer) ==> states == map[] && total == old(total)
    {
      hide Grows, WalkFrom, GetNextKey;
      states := map[];
      if !bpfLoaded {
        return;
      }
      if !haveBuffer {
        return;
      }
      var key, i := 0, 0;
      ghost var walk, visited := WalkFrom(keys, 0, 0), [];
      while GetNextKey(keys(i), key).Some?
        invariant walk == visited + WalkFrom(keys, i, key)
        invariant states == Readings(visited, view)
        invariant total == AddToTotal(old(total), visited, view)
        decreases |walk| - |visited|
      {
        WalkStep(keys, i, key);
        key, i := GetNextKey(keys(i), key).value, i + 1;
        assert (visited + [key])[..|visited|] == visited;
        states := ReportKey(view(key), states);
        visited := visited + [key];
      }
      WalkStep(keys, i, key);
      assert walk == visited;
    }

    /** The body of the walk for one key. */
    method ReportKey(v: KeyView, before: map<string, Counters>) returns (states: map<string, Counters>)
      modifies this`total
      ensures states == if Reported(v) then before[v.ifname := SumCpus(v.values.value)] else before
      ensures total == if Reported(v) then Plus(old(total), SumCpus(v.values.value)) else old(total)
    {
      states := before;
      if v.values.Some? {
        var sum := AddUp(v.values.value);
        if v.ifname == "" || IsVirtualInterface(v.ifname) {
          return;
        }
        if sum.rcvBytes > 0 || sum.rcvPackets > 0 || sum.sndBytes > 0 || sum.sndPackets > 0 {
          total := Plus(total, sum);
        }
        states := states[v.ifname := sum];
      }
    }

    /** The cached reading of every interface seen is replaced by the new one, and a message goes out for each. */
    method UpdateOnce(p: Poll) returns (msgs: seq<NetMsg>)
      modifies this`lastNetInfo
      ensures lastNetInfo == After(old(lastNetInfo), p)
      ensures OneEach(msgs, old(lastNetInfo), p, {})
    {
      msgs := [];
      if p.ebpf == map[] {
        return;
      }
      var todo := p.ebpf.Keys;
      ghost var cache := lastNetInfo;
      while todo != {}
        invariant todo <= p.ebpf.Keys
        invariant lastNetInfo == Replaced(cache, p, todo)
        invariant OneEach(msgs, cache, p, todo)
        decreases todo
      {
        var n :| n in todo;
        ReplaceOne(cache, p, todo, n);
        AppendOne(msgs, cache, p, todo, n);
        msgs := msgs + [MsgFor(lastNetInfo, p, n)];
        lastNetInfo := lastNetInfo[n := NetInfo(Merge(p, n), p.now)];
        todo := todo - {n};
      }
    }
  }

  lemma AtIndex(keys: seq<int>, i: nat, key: int)
    requires Distinct(keys) && i < |keys| && keys[i] == key
    ensures IndexOf(keys, key) == i
  {
  }

  lemma NextIsBehind(keys: seq<int>, key: int)
    requires Distinct(keys) && GetNextKey(keys, key).Some?
    ensures var next := GetNextKey(keys, key).value;
            next in keys && IndexOf(keys, next) == if key in keys then IndexOf(keys, key) + 1 else 0
  {
    var next := GetNextKey(keys, key).value;
    AtIndex(keys, if key in keys then IndexOf(keys, key) + 1 else 0, next);
  }

  lemma DistinctPlaces(keys: seq<int>, x: int, y: int)
    requires x in keys && y in keys && x != y
    ensures IndexOf(keys, x) != IndexOf(keys, y)
  {
  }

  /** Where old keys keep their order, none of them moves forward. */
  lemma {:induction false} IndexGrows(was: seq<int>, now: seq<int>, x: int)
    requires Distinct(was) && KeepsOrder(was, now) && x in was
    ensures x in now && IndexOf(was, x) <= IndexOf(now, x)
    decreases IndexOf(was, x)
  {
    var i := IndexOf(was, x);
    if i > 0 {
      AtIndex(was, i - 1, was[i - 1]);
      IndexGrows(was, now, was[i - 1]);
    }
  }

  /** The loop that adds up the CPUs of one key. */
  method AddUp(values: seq<Counters>) returns (sum: Counters)
    ensures sum == SumCpus(values)
  {
    sum := ZERO;
    for i := 0 to |values|
      invariant sum == SumCpus(values[..i])
    {
      forall f: Field
        ensures Column(values[..i + 1], f) == Column(values[..i], f) + [Get(values[i], f)]
      {
      }
      sum := Plus(sum, values[i]);
    }
    assert values[..|values|] == values;
  }

  // ---------------------------------------------------------------- one message

  /** The cache before poll `i` of a run. */
  function CacheAt(cache: Cache, polls: seq<Poll>, i: nat): Cache
    requires i <= |polls|
  {
    if i == 0 then cache else After(CacheAt(cache, polls, i - 1), polls[i - 1])
  }

  /** The last poll before `i` that reads `ifname`. */
  function LastRead(polls: seq<Poll>, i: nat, ifname: string): (j: Option<nat>)
    requires i <= |polls|
    ensures j.Some? ==> j.value < i && ifname in polls[j.value].ebpf
  {
    if i == 0 then None
    else if ifname in polls[i - 1].ebpf then Some(i - 1)
    else LastRead(polls, i - 1, ifname)
  }

  lemma {:induction false} NoneSinceLastRead(polls: seq<Poll>, i: nat, ifname: string)
    requires i <= |polls|
    ensures var j := LastRead(polls, i, ifname);
            forall k :: (if j.Some? then j.value < k else 0 <= k) && k < i ==> ifname !in polls[k].ebpf
  {
    if i > 0 {
      NoneSinceLastRead(polls, i - 1, ifname);
    }
  }

  function ErrDropIn(p: Poll, ifname: string): ErrDrop {
    if ifname in p.proc then p.proc[ifname] else ErrDrop(0, 0, 0, 0)
  }

  /** Over any run the cache holds, for each interface, the last reading of it and the clock of the poll that read
      it. */
  lemma {:induction false} CacheHoldsLastRead(cache: Cache, polls: seq<Poll>, i: nat, ifname: string)
    requires i <= |polls|
    ensures var j, now := LastRead(polls, i, ifname), CacheAt(cache, polls, i);
            if j.Some? then
              var p := polls[j.value];
              ifname in now && now[ifname] == NetInfo(NetStat(p.ebpf[ifname], ErrDropIn(p, ifname)), p.now)
            else (ifname in now <==> ifname in cache) && (ifname in cache ==> now[ifname] == cache[ifname])
  {
    if i > 0 {
      CacheHoldsLastRead(cache, polls, i - 1, ifname);
    }
  }

  /** The message that poll `i` of a run sends for `ifname`. */
  function MessageOf(cache: Cache, polls: seq<Poll>, i: nat, ifname: string): NetMsg
    requires i < |polls| && ifname in polls[i].ebpf
  {
    MsgFor(CacheAt(cache, polls, i), polls[i], ifname)
  }

  lemma PerSecondTimes(now: u64, last: u64, dt: real)
    requires dt > 0.0
    ensures PerSecond(now, last, dt) * dt == Sub64(now, last) as real
  {
    hide Sub64;
  }

  lemma KBPerSecondTimes(now: u64, last: u64, dt: real)
    requires dt > 0.0
    ensures KBPerSecond(now, last, dt) * 1024.0 * dt == Sub64(now, last) as real
  {
    hide Sub64;
    var x := Sub64(now, last) as real;
    PerKilo(x, dt);
    assert x / dt * dt == x;
  }

  lemma PerKilo(x: real, dt: real)
    requires dt > 0.0
    ensures x / 1024.0 / dt * 1024.0 == x / dt
  {
    var y := x / 1024.0;
    assert y / dt * 1024.0 == y * 1024.0 / dt;
  }

  /** All eight rates of a message, times `dt`, are the increments from `last` to `now`; a KB rate counts 1024 bytes. */
  ghost predicate RatesOver(m: NetMsg, now: Counters, nowErr: ErrDrop, last: Counters, lastErr: ErrDrop, dt: real) {
    && m.rcvRate * 1024.0 * dt == Sub64(now.rcvBytes, last.rcvBytes) as real
    && m.rcvPacketsRate * dt == Sub64(now.rcvPackets, last.rcvPackets) as real
    && m.sendRate * 1024.0 * dt == Sub64(now.sndBytes, last.sndBytes) as real
    && m.sendPacketsRate * dt == Sub64(now.sndPackets, last.sndPackets) as real
    && m.errInRate * dt == Sub64(nowErr.errIn, lastErr.errIn) as real
    && m.errOutRate * dt == Sub64(nowErr.errOut, lastErr.errOut) as real
    && m.dropInRate * dt == Sub64(nowErr.dropIn, lastErr.dropIn) as real
    && m.dropOutRate * dt == Sub64(nowErr.dropOut, lastErr.dropOut) as real
  }

  ghost predicate NoRates(m: NetMsg) {
    && m.rcvRate == 0.0 && m.rcvPacketsRate == 0.0 && m.sendRate == 0.0 && m.sendPacketsRate == 0.0
    && m.errInRate == 0.0 && m.errOutRate == 0.0 && m.dropInRate == 0.0 && m.dropOutRate == 0.0
  }

  lemma MsgForRates(cache: Cache, p: Poll, ifname: string)
    requires ifname in p.ebpf
    ensures var m := MsgFor(cache, p, ifname);
            && m.name == ifname && m.err == ErrDropIn(p, ifname)
            && if ifname in cache && cache[ifname].timepoint < p.now then
                 RatesOver(m, p.ebpf[ifname], ErrDropIn(p, ifname), cache[ifname].stat.counters, cache[ifname].stat.err,
                           p.now - cache[ifname].timepoint)
               else NoRates(m)
  {
    hide PerSecond, KBPerSecond, Sub64;
    if ifname in cache && cache[ifname].timepoint < p.now {
      var dt, now, last := p.now - cache[ifname].timepoint, p.ebpf[ifname], cache[ifname].stat.counters;
      var nowErr, lastErr := ErrDropIn(p, ifname), cache[ifname].stat.err;
      KBPerSecondTimes(now.rcvBytes, last.rcvBytes, dt);
      PerSecondTimes(now.rcvPackets, last.rcvPackets, dt);
      KBPerSecondTimes(now.sndBytes, last.sndBytes, dt);
      PerSecondTimes(now.sndPackets, last.sndPackets, dt);
      PerSecondTimes(nowErr.errIn, lastErr.errIn, dt);
      PerSecondTimes(nowErr.errOut, lastErr.errOut, dt);
      PerSecondTimes(nowErr.dropIn, lastErr.dropIn, dt);
      PerSecondTimes(nowErr.dropOut, lastErr.dropOut, dt);
    }
  }

  /** A message of poll `p` reports, over the time since poll `q`, the increments since `q`; without time, nothing. */
  ghost predicate RatesBetween(m: NetMsg, p: Poll, q: Poll, ifname: string)
    requires ifname in p.ebpf && ifname in q.ebpf
  {
    && m.name == ifname && m.err == ErrDropIn(p, ifname)
    && if q.now < p.now then
         RatesOver(m, p.ebpf[ifname], ErrDropIn(p, ifname), q.ebpf[ifname], ErrDropIn(q, ifname), p.now - q.now)
       else NoRates(m)
  }

  lemma MsgForSeen(cache: Cache, p: Poll, q: Poll, ifname: string)
    requires ifname in p.ebpf && ifname in q.ebpf && ifname in cache
    requires cache[ifname] == NetInfo(NetStat(q.ebpf[ifname], ErrDropIn(q, ifname)), q.now)
    ensures RatesBetween(MsgFor(cache, p, ifname), p, q, ifname)
  {
    hide RatesOver, NoRates, MsgFor, ErrDropIn;
    MsgForRates(cache, p, ifname);
  }

  /** Over any run, from the polls' own clocks and readings: a message reports the increments since the last poll that
      read the interface, over the time since that poll. All rates are zero if no time has passed since it. */
  lemma MessageFromClocks(cache: Cache, polls: seq<Poll>, i: nat, j: nat, ifname: string)
    requires i < |polls| && ifname in polls[i].ebpf && LastRead(polls, i, ifname) == Some(j)
    ensures RatesBetween(MessageOf(cache, polls, i, ifname), polls[i], polls[j], ifname)
  {
    hide RatesBetween, MsgFor, CacheAt, ErrDropIn, LastRead;
    CacheHoldsLastRead(cache, polls, i, ifname);
    MsgForSeen(CacheAt(cache, polls, i), polls[i], polls[j], ifname);
  }

  /** The first message for an interface has no rates. */
  lemma FirstMessage(cache: Cache, polls: seq<Poll>, i: nat, ifname: string)
    requires i < |polls| && ifname in polls[i].ebpf && LastRead(polls, i, ifname) == None && ifname !in cache
    ensures var m := MessageOf(cache, polls, i, ifname);
            m.name == ifname && m.err == ErrDropIn(polls[i], ifname) && NoRates(m)
  {
    CacheHoldsLastRead(cache, polls, i, ifname);
    MsgForRates(CacheAt(cache, polls, i), polls[i], ifname);
  }

  // ---------------------------------------------------------------- rates telescope

  /** The counts per second that a message reports for a counter. */
  function RateOf(m: NetMsg, f: Field): real {
    match f
    case RcvBytes => m.rcvRate * 1024.0
    case RcvPackets => m.rcvPacketsRate
    case SndBytes => m.sendRate * 1024.0
    case SndPackets => m.sendPacketsRate
  }

  /** The last poll that read an interface: its clock and its reading. */
  datatype Seen = Seen(now: real, counters: Counters)

  /** Where a run on `cache` starts from. */
  function SeenIn(cache: Cache, ifname: string): Option<Seen> {
    if ifname in cache then Some(Seen(cache[ifname].timepoint, cache[ifname].stat.counters)) else None
  }

  function Sees(last: Option<Seen>, p: Poll, ifname: string): Option<Seen> {
    if ifname in p.ebpf then Some(Seen(p.now, p.ebpf[ifname])) else last
  }

  lemma CacheFollows(cache: Cache, p: Poll, ifname: string)
    ensures SeenIn(After(cache, p), ifname) == Sees(SeenIn(cache, ifname), p, ifname)
  {
  }

  /** Is this a poll of `ifname` with an earlier reading? */
  predicate Paired(last: Option<Seen>, p: Poll, ifname: string) {
    ifname in p.ebpf && last.Some?
  }

  function Increment(last: Option<Seen>, p: Poll, ifname: string, f: Field): u64
    requires Paired(last, p, ifname)
  {
    Sub64(Get(p.ebpf[ifname], f), Get(last.value.counters, f))
  }

  /** Rate times the time since the last poll that read the interface, for one message. */
  function Contribution(cache: Cache, last: Option<Seen>, p: Poll, ifname: string, f: Field): real {
    if Paired(last, p, ifname) then RateOf(MsgFor(cache, p, ifname), f) * (p.now - last.value.now) else 0.0
  }

  /** The same, added up over the messages for `ifname`. `last` follows the polls, not the cache. */
  function VolumeFrom(cache: Cache, last: Option<Seen>, polls: seq<Poll>, ifname: string, f: Field): real
    decreases |polls|
  {
    if polls == [] then 0.0
    else
      var p := polls[0];
      Contribution(cache, last, p, ifname, f)
      + VolumeFrom(After(cache, p), Sees(last, p, ifname), polls[1..], ifname, f)
  }

  function Volume(cache: Cache, polls: seq<Poll>, ifname: string, f: Field): real {
    VolumeFrom(cache, SeenIn(cache, ifname), polls, ifname, f)
  }

  /** The increments of polls that came no later than the reading they replace; no rate reports them. */
  function Unreported(last: Option<Seen>, polls: seq<Poll>, ifname: string, f: Field): nat
    decreases |polls|
  {
    if polls == [] then 0
    else
      var p := polls[0];
      (if Paired(last, p, ifname) && p.now <= last.value.now then Increment(last, p, ifname, f) else 0)
      + Unreported(Sees(last, p, ifname), polls[1..], ifname, f)
  }

  /** How often a reading was smaller than the one before it. */
  function Wraps(last: Option<Seen>, polls: seq<Poll>, ifname: string, f: Field): nat
    decreases |polls|
  {
    if polls == [] then 0
    else
      var p := polls[0];
      (if Paired(last, p, ifname) && Get(p.ebpf[ifname], f) < Get(last.value.counters, f) then 1 else 0)
      + Wraps(Sees(last, p, ifname), polls[1..], ifname, f)
  }

  /** The first reading that a run builds on, and its last. */
  function FirstSeen(last: Option<Seen>, polls: seq<Poll>, ifname: string): Option<Seen>
    decreases |polls|
  {
    if last.Some? || polls == [] then last else FirstSeen(Sees(last, polls[0], ifname), polls[1..], ifname)
  }

  function LastSeen(last: Option<Seen>, polls: seq<Poll>, ifname: string): Option<Seen>
    decreases |polls|
  {
    if polls == [] then last else LastSeen(Sees(last, polls[0], ifname), polls[1..], ifname)
  }

  lemma RateTimes(cache: Cache, p: Poll, ifname: string, f: Field, r: real, dt: real)
    requires ifname in p.ebpf && ifname in cache && cache[ifname].timepoint < p.now
    requires r == RateOf(MsgFor(cache, p, ifname), f) && dt == p.now - cache[ifname].timepoint
    ensures r * dt == Increment(SeenIn(cache, ifname), p, ifname, f) as real
  {
    MsgForRates(cache, p, ifname);
    hide MsgFor, RatesOver;
    RateOver(MsgFor(cache, p, ifname), p.ebpf[ifname], ErrDropIn(p, ifname),
             cache[ifname].stat.counters, cache[ifname].stat.err, dt, f, r);
  }

  lemma RateOver(m: NetMsg, now: Counters, nowErr: ErrDrop, last: Counters, lastErr: ErrDrop, dt: real,
                 f: Field, r: real)
    requires RatesOver(m, now, nowErr, last, lastErr, dt) && r == RateOf(m, f)
    ensures r * dt == Sub64(Get(now, f), Get(last, f)) as real
  {
    hide Sub64;
  }

  lemma NoRateWithoutTime(cache: Cache, p: Poll, ifname: string, f: Field)
    requires ifname in p.ebpf && ifname in cache && p.now <= cache[ifname].timepoint
    ensures RateOf(MsgFor(cache, p, ifname), f) == 0.0
  {
    MsgForRates(cache, p, ifname);
    hide MsgFor;
  }

  lemma ContributionIs(cache: Cache, last: Option<Seen>, p: Poll, ifname: string, f: Field, r: real, dt: real)
    requires Paired(last, p, ifname) && r == RateOf(MsgFor(cache, p, ifname), f) && dt == p.now - last.value.now
    ensures Contribution(cache, last, p, ifname, f) == r * dt
  {
    hide MsgFor, RateOf;
  }

  lemma ReportedIncrement(cache: Cache, last: Option<Seen>, p: Poll, ifname: string, f: Field)
    requires last == SeenIn(cache, ifname) && Paired(last, p, ifname)
    ensures Contribution(cache, last, p, ifname, f) ==
            if p.now > last.value.now then Increment(last, p, ifname, f) as real else 0.0
  {
    hide MsgFor, RateOf, Contribution, Increment;
    var r, dt := RateOf(MsgFor(cache, p, ifname), f), p.now - last.value.now;
    ContributionIs(cache, last, p, ifname, f, r, dt);
    if p.now > last.value.now {
      RateTimes(cache, p, ifname, f, r, dt);
    } else {
      NoRateWithoutTime(cache, p, ifname, f);
      assert 0.0 * dt == 0.0;
    }
  }

  /** Over any run, with the interface missing from any polls: what the rates report over the time between the polls,
      plus what polls without elapsed time swallow, is the last reading minus the first, modulo 2^64. */
  lemma {:induction false} RatesTelescope(cache: Cache, polls: seq<Poll>, ifname: string, f: Field)
    ensures var start := SeenIn(cache, ifname);
            var first, last := FirstSeen(start, polls, ifname), LastSeen(start, polls, ifname);
            && (first.Some? <==> last.Some?)
            && Volume(cache, polls, ifname, f) + Unreported(start, polls, ifname, f) as real ==
               (if first.None? then 0
                else Get(last.value.counters, f) - Get(first.value.counters, f)
                     + TWO_64 * Wraps(start, polls, ifname, f)) as real
    decreases |polls|
  {
    hide Contribution;
    if polls != [] {
      var p, start := polls[0], SeenIn(cache, ifname);
      CacheFollows(cache, p, ifname);
      hide After, SeenIn;
      RatesTelescope(After(cache, p), polls[1..], ifname, f);
      if Paired(start, p, ifname) {
        ReportedIncrement(cache, start, p, ifname, f);
        StepDelta(start, p, ifname, f);
      } else {
        Unpaired(cache, start, p, ifname, f);
      }
    }
  }

  lemma Unpaired(cache: Cache, last: Option<Seen>, p: Poll, ifname: string, f: Field)
    requires !Paired(last, p, ifname)
    ensures Contribution(cache, last, p, ifname, f) == 0.0
  {
  }

  lemma StepDelta(last: Option<Seen>, p: Poll, ifname: string, f: Field)
    requires Paired(last, p, ifname)
    ensures Increment(last, p, ifname, f) ==
            Get(p.ebpf[ifname], f) - Get(last.value.counters, f)
            + (if Get(p.ebpf[ifname], f) < Get(last.value.counters, f) then TWO_64 else 0)
  {
  }

  /** `truth[i]` is the unbounded count behind poll `i`'s 64-bit reading; between two readings it grows by less
      than 2^64. */
  ghost predicate Tracks(count: nat, polls: seq<Poll>, truth: seq<nat>, ifname: string, f: Field)
    requires |polls| == |truth|
    decreases |polls|
  {
    polls == [] ||
    (if ifname in polls[0].ebpf then
       && Get(polls[0].ebpf[ifname], f) == Low64(truth[0])
       && count <= truth[0] < count + TWO_64
       && Tracks(truth[0], polls[1..], truth[1..], ifname, f)
     else
       Tracks(count, polls[1..], truth[1..], ifname, f))
  }

  function LastCount(count: nat, polls: seq<Poll>, truth: seq<nat>, ifname: string): nat
    requires |polls| == |truth|
    decreases |polls|
  {
    if polls == [] then count
    else LastCount(if ifname in polls[0].ebpf then truth[0] else count, polls[1..], truth[1..], ifname)
  }

  /** With fewer than 2^64 events between readings, the wrapped readings lose nothing: volume plus unreported
      increments is the true growth of the unbounded counter. */
  lemma {:induction false} VolumeIsTrueTraffic(cache: Cache, polls: seq<Poll>, count: nat, truth: seq<nat>,
                                               ifname: string, f: Field)
    requires |polls| == |truth|
    requires ifname in cache && Get(cache[ifname].stat.counters, f) == Low64(count)
    requires Tracks(count, polls, truth, ifname, f)
    ensures Volume(cache, polls, ifname, f) + Unreported(SeenIn(cache, ifname), polls, ifname, f) as real ==
            (LastCount(count, polls, truth, ifname) - count) as real
    decreases |polls|
  {
    hide Contribution;
    if polls != [] {
      var p, start := polls[0], SeenIn(cache, ifname);
      CacheFollows(cache, p, ifname);
      if ifname in p.ebpf {
        ReportedIncrement(cache, start, p, ifname, f);
        SubLow64(count, truth[0]);
        VolumeIsTrueTraffic(After(cache, p), polls[1..], truth[0], truth[1..], ifname, f);
      } else {
        Unpaired(cache, start, p, ifname, f);
        VolumeIsTrueTraffic(After(cache, p), polls[1..], count, truth[1..], ifname, f);
      }
    }
  }

  /** The clock is strictly ahead of every cached reading at every poll. */
  ghost predicate ClockAdvances(last: Option<Seen>, polls: seq<Poll>)
    decreases |polls|
  {
    polls == [] ||
    (&& (last.Some? ==> last.value.now < polls[0].now)
     && (forall i :: 1 <= i < |polls| ==> polls[i - 1].now < polls[i].now))
  }

  lemma {:induction false} NothingUnreported(last: Option<Seen>, polls: seq<Poll>, ifname: string, f: Field)
    requires ClockAdvances(last, polls)
    ensures Unreported(last, polls, ifname, f) == 0
    decreases |polls|
  {
    if polls != [] {
      var rest := polls[1..];
      if rest != [] {
        assert polls[0].now < polls[1].now;
        forall i | 1 <= i < |rest| ensures rest[i - 1].now < rest[i].now {
          assert rest[i - 1] == polls[i] && rest[i] == polls[i + 1];
        }
      }
      NothingUnreported(Sees(last, polls[0], ifname), rest, ifname, f);
    }
  }

  /** Every poll that comes no later than the reading before it brings that same reading. */
  ghost predicate RepeatsWithoutTime(last: Option<Seen>, polls: seq<Poll>, ifname: string, f: Field)
    decreases |polls|
  {
    polls == [] ||
    (&& (Paired(last, polls[0], ifname) && polls[0].now <= last.value.now ==>
           Get(polls[0].ebpf[ifname], f) == Get(last.value.counters, f))
     && RepeatsWithoutTime(Sees(last, polls[0], ifname), polls[1..], ifname, f))
  }

  lemma {:induction false} UnreportedExactlyWhen(last: Option<Seen>, polls: seq<Poll>, ifname: string, f: Field)
    ensures Unreported(last, polls, ifname, f) == 0 <==> RepeatsWithoutTime(last, polls, ifname, f)
    decreases |polls|
  {
    if polls != [] {
      UnreportedExactlyWhen(Sees(last, polls[0], ifname), polls[1..], ifname, f);
    }
  }

  /** The rates account for all true traffic exactly when every poll without elapsed time repeats the reading before
      it. With a strictly advancing clock that is every run. */
  lemma RatesAccountForTraffic(cache: Cache, polls: seq<Poll>, count: nat, truth: seq<nat>, ifname: string, f: Field)
    requires |polls| == |truth|
    requires ifname in cache && Get(cache[ifname].stat.counters, f) == Low64(count)
    requires Tracks(count, polls, truth, ifname, f)
    ensures Volume(cache, polls, ifname, f) == (LastCount(count, polls, truth, ifname) - count) as real
            <==> RepeatsWithoutTime(SeenIn(cache, ifname), polls, ifname, f)
    ensures ClockAdvances(SeenIn(cache, ifname), polls) ==>
              Volume(cache, polls, ifname, f) == (LastCount(count, polls, truth, ifname) - count) as real
  {
    var start := SeenIn(cache, ifname);
    VolumeIsTrueTraffic(cache, polls, count, truth, ifname, f);
    UnreportedExactlyWhen(start, polls, ifname, f);
    if ClockAdvances(start, polls) {
      NothingUnreported(start, polls, ifname, f);
    }
  }

  /** Two polls at the same instant: the second overwrites the cached reading and its increment is never reported. */
  lemma SameInstantLosesTraffic(ifname: string)
    ensures var c := Counters(0, 7, 0, 0);
            var cache: Cache := map[ifname := NetInfo(NetStat(ZERO, ErrDrop(0, 0, 0, 0)), 1.0)];
            var polls := [Poll(1.0, map[ifname := c], map[]), Poll(2.0, map[ifname := c], map[])];
            && Volume(cache, polls, ifname, RcvPackets) == 0.0
            && Unreported(SeenIn(cache, ifname), polls, ifname, RcvPackets) == 7
  {
    var c := Counters(0, 7, 0, 0);
    var cache: Cache := map[ifname := NetInfo(NetStat(ZERO, ErrDrop(0, 0, 0, 0)), 1.0)];
    var p0, p1 := Poll(1.0, map[ifname := c], map[]), Poll(2.0, map[ifname := c], map[]);
    var polls := [p0, p1];
    assert polls[1..] == [p1] && [p1][1..] == [];
    var cache1 := After(cache, p0);
    var s0, s1 := SeenIn(cache, ifname), Some(Seen(1.0, c));
    assert SeenIn(cache1, ifname) == s1 == Sees(s0, p0, ifname);
    ReportedIncrement(cache, s0, p0, ifname, RcvPackets);
    ReportedIncrement(cache1, s1, p1, ifname, RcvPackets);
    hide Contribution, MsgFor;
    assert Increment(s1, p1, ifname, RcvPackets) == 0;
    var s2 := Sees(s1, p1, ifname);
    assert VolumeFrom(After(cache1, p1), s2, [], ifname, RcvPackets) == 0.0;
    assert Unreported(s2, [], ifname, RcvPackets) == 0;
    assert VolumeFrom(cache1, s1, [p1], ifname, RcvPackets) == 0.0;
    assert Unreported(s1, [p1], ifname, RcvPackets) == 0;
  }
}
