/** From packets to rates: polls whose readings are copied word by word out of the map while the programs go on
    counting. First one whole poll over all keys, then many polls of one interface. */
module Traffic {
  import opened Words
  import opened IfStats
  import opened NetMonitoring

  /** One key read: what the kernel does until the copy begins, and while it goes on. */
  datatype Read = Read(gap: seq<Event>, during: seq<Event>)

  function ReadBegins(s: State, r: Read): State {
    Run(s, r.gap)
  }

  function ReadEnds(s: State, key: int, r: Read): State {
    Run(Step(ReadBegins(s, r), StartRead(key)), r.during)
  }

  /** The read itself runs to its end. */
  ghost predicate Complete(s: State, key: int, r: Read) {
    (forall e :: e in r.during ==> !e.StartRead?) && ReadDone(ReadEnds(s, key, r))
  }

  /** One poll of an interface: its read, its clock, and what else the poll sees. */
  datatype Round = Round(read: Read, now: real, others: map<string, Counters>, proc: map<string, ErrDrop>)

  function PollOf(s: State, key: int, ifname: string, r: Round): Poll
    requires ReadEnds(s, key, r.read).reader.Reading?
  {
    Poll(r.now, r.others[ifname := SumCpus(ReadEnds(s, key, r.read).reader.values)], r.proc)
  }

  ghost predicate AllComplete(s: State, key: int, rounds: seq<Round>)
    decreases |rounds|
  {
    rounds == [] ||
    (Complete(s, key, rounds[0].read) && AllComplete(ReadEnds(s, key, rounds[0].read), key, rounds[1..]))
  }

  ghost function Polls(s: State, key: int, ifname: string, rounds: seq<Round>): (polls: seq<Poll>)
    requires AllComplete(s, key, rounds)
    ensures |polls| == |rounds|
    decreases |rounds|
  {
    if rounds == [] then []
    else [PollOf(s, key, ifname, rounds[0])] + Polls(ReadEnds(s, key, rounds[0].read), key, ifname, rounds[1..])
  }

  /** The kernel when the last read ends, and when it begins. */
  function LastEnds(s: State, key: int, rounds: seq<Round>): State
    decreases |rounds|
  {
    if rounds == [] then s else LastEnds(ReadEnds(s, key, rounds[0].read), key, rounds[1..])
  }

  function LastBegins(s: State, key: int, rounds: seq<Round>): State
    requires rounds != []
    decreases |rounds|
  {
    if |rounds| == 1 then ReadBegins(s, rounds[0].read)
    else LastBegins(ReadEnds(s, key, rounds[0].read), key, rounds[1..])
  }

  predicate Ticks(t: real, rounds: seq<Round>)
    decreases |rounds|
  {
    rounds == [] || (t < rounds[0].now && Ticks(rounds[0].now, rounds[1..]))
  }

  /** Everything that ever arrived for the key, in the counter `f`. */
  function ArrivedTotal(s: State, key: int, f: Field): nat {
    Total(s.programs, Arrived, key, f)
  }

  /** What the programs have counted of it. */
  function CountedTotal(s: State, key: int, f: Field): nat {
    Total(s.programs, Done, key, f)
  }

  // ---------------------------------------------------------------- one read

  function ReadingOf(s: State, f: Field): u64
    requires s.reader.Reading?
  {
    Sum64(Column(s.reader.values, f))
  }

  lemma SumCpusGet(values: seq<Counters>, f: Field)
    ensures Get(SumCpus(values), f) == Sum64(Column(values, f))
  {
  }

  lemma ArrivedInRead(s: State, key: int, r: Read, f: Field)
    ensures ArrivedTotal(s, key, f) <= ArrivedTotal(ReadBegins(s, r), key, f)
    ensures ArrivedTotal(ReadBegins(s, r), key, f) <= ArrivedTotal(ReadEnds(s, key, r), key, f)
  {
    hide Total, Run;
    ArrivedGrowsOverRun(s, r.gap, key, f);
    var s1 := Step(ReadBegins(s, r), StartRead(key));
    assert s1.programs == ReadBegins(s, r).programs;
    ArrivedGrowsOverRun(s1, r.during, key, f);
  }

  /** A reading lies between what was counted when its read begins and when it ends. */
  lemma ReadBounds(s: State, key: int, r: Read, f: Field)
    requires Inv(s) && key in s.table && Complete(s, key, r) && ArrivedTotal(ReadEnds(s, key, r), key, f) < TWO_64
    ensures var b, e := ReadBegins(s, r), ReadEnds(s, key, r);
            && Inv(e) && key in e.table
            && CountedTotal(s, key, f) <= CountedTotal(b, key, f) <= ReadingOf(e, f) <= CountedTotal(e, key, f)
  {
    hide Total, Run, TrueSum, Inv, Column;
    ArrivedInRead(s, key, r, f);
    DoneGrowsOverRun(s, r.gap, key, f);
    SnapshotBounds(ReadBegins(s, r), key, r.during, f);
    TrueSumIsDone(s, key, f);
    TrueSumIsDone(ReadBegins(s, r), key, f);
    TrueSumIsDone(ReadEnds(s, key, r), key, f);
  }

  lemma {:induction false} ArrivedInRounds(s: State, key: int, rounds: seq<Round>, f: Field)
    ensures ArrivedTotal(s, key, f) <= ArrivedTotal(LastEnds(s, key, rounds), key, f)
    decreases |rounds|
  {
    hide ArrivedTotal, ReadBegins, ReadEnds;
    if rounds != [] {
      ArrivedInRead(s, key, rounds[0].read, f);
      ArrivedInRounds(ReadEnds(s, key, rounds[0].read), key, rounds[1..], f);
    }
  }

  // ---------------------------------------------------------------- one poll over all keys

  /** One round of the walk: what the kernel does until the next key is asked for, and the read of that key. */
  datatype Hop = Hop(idle: seq<Event>, read: Read)

  /** The kernel when the `i`-th key is asked for. */
  function AtCall(s: State, walk: seq<int>, hops: seq<Hop>, i: nat): State
    requires i <= |walk| == |hops| - 1
    decreases i, 0
  {
    if i == 0 then Run(s, hops[0].idle)
    else Run(AtRead(s, walk, hops, i - 1), hops[i].idle)
  }

  /** The kernel when the read of the `i`-th key ends. */
  function AtRead(s: State, walk: seq<int>, hops: seq<Hop>, i: nat): State
    requires i < |walk| == |hops| - 1
    decreases i, 1
  {
    ReadEnds(AtCall(s, walk, hops, i), walk[i], hops[i].read)
  }

  /** `order(i)` lists the keys of the map when the `i`-th key is asked for. */
  ghost predicate Listed(s: State, walk: seq<int>, hops: seq<Hop>, order: nat -> seq<int>)
    requires |walk| == |hops| - 1
  {
    forall i: nat :: i <= |walk| ==> forall x :: x in order(i) <==> x in AtCall(s, walk, hops, i).table
  }

  /** What user space gets for each key is what its own complete read copied. */
  ghost predicate Viewed(s: State, walk: seq<int>, hops: seq<Hop>, view: int -> KeyView)
    requires |walk| == |hops| - 1
  {
    forall i: nat :: i < |walk| ==>
      && Complete(AtCall(s, walk, hops, i), walk[i], hops[i].read)
      && view(walk[i]).values == Some(AtRead(s, walk, hops, i).reader.values)
  }

  /** The bounds of the reading of the `i`-th key. */
  ghost predicate InBounds(s: State, walk: seq<int>, hops: seq<Hop>, i: nat, reading: u64, f: Field)
    requires i < |walk| == |hops| - 1
  {
    var b, e := ReadBegins(AtCall(s, walk, hops, i), hops[i].read), AtRead(s, walk, hops, i);
    CountedTotal(b, walk[i], f) <= reading <= CountedTotal(e, walk[i], f)
  }

  lemma {:induction false} CallKeepsInv(s: State, walk: seq<int>, hops: seq<Hop>, i: nat)
    requires Inv(s) && i <= |walk| == |hops| - 1
    ensures Inv(AtCall(s, walk, hops, i))
    ensures i < |walk| ==> Inv(AtRead(s, walk, hops, i))
  {
    hide Inv, Run;
    if i == 0 {
      RunKeepsInv(s, hops[0].idle);
    } else {
      CallKeepsInv(s, walk, hops, i - 1);
      RunKeepsInv(AtRead(s, walk, hops, i - 1), hops[i].idle);
    }
    if i < |walk| {
      var b := ReadBegins(AtCall(s, walk, hops, i), hops[i].read);
      RunKeepsInv(AtCall(s, walk, hops, i), hops[i].read.gap);
      StepKeepsInv(b, StartRead(walk[i]));
      RunKeepsInv(Step(b, StartRead(walk[i])), hops[i].read.during);
    }
  }

  /** Nothing that arrived gets lost on the way to the last call. */
  lemma {:induction false} ArrivedByLastCall(s: State, walk: seq<int>, hops: seq<Hop>, i: nat, key: int, f: Field)
    requires i < |walk| == |hops| - 1
    ensures ArrivedTotal(AtRead(s, walk, hops, i), key, f) <= ArrivedTotal(AtCall(s, walk, hops, |walk|), key, f)
    decreases |walk| - i
  {
    hide Run, AtRead, AtCall;
    var next := Run(AtRead(s, walk, hops, i), hops[i + 1].idle);
    ArrivedGrowsOverRun(AtRead(s, walk, hops, i), hops[i + 1].idle, key, f);
    CallAfterRead(s, walk, hops, i);
    if i + 1 < |walk| {
      ReadAfterCall(s, walk, hops, i + 1);
      ArrivedInSomeRead(next, walk[i + 1], hops[i + 1].read, key, f);
      ArrivedByLastCall(s, walk, hops, i + 1, key, f);
    }
  }

  lemma CallAfterRead(s: State, walk: seq<int>, hops: seq<Hop>, i: nat)
    requires i < |walk| == |hops| - 1
    ensures AtCall(s, walk, hops, i + 1) == Run(AtRead(s, walk, hops, i), hops[i + 1].idle)
  {
    hide Run, AtRead;
  }

  lemma ReadAfterCall(s: State, walk: seq<int>, hops: seq<Hop>, i: nat)
    requires i < |walk| == |hops| - 1
    ensures AtRead(s, walk, hops, i) == ReadEnds(AtCall(s, walk, hops, i), walk[i], hops[i].read)
  {
    hide AtCall, ReadEnds;
  }

  lemma ArrivedInSomeRead(s: State, read: int, r: Read, key: int, f: Field)
    ensures ArrivedTotal(s, key, f) <= ArrivedTotal(ReadEnds(s, read, r), key, f)
  {
    hide Total, Run;
    ArrivedGrowsOverRun(s, r.gap, key, f);
    var s1 := Step(ReadBegins(s, r), StartRead(read));
    assert s1.programs == ReadBegins(s, r).programs;
    ArrivedGrowsOverRun(s1, r.during, key, f);
  }

  lemma KeyReadInBounds(s: State, walk: seq<int>, hops: seq<Hop>, view: int -> KeyView, i: nat, f: Field)
    requires Inv(s) && i < |walk| == |hops| - 1 && Viewed(s, walk, hops, view)
    requires walk[i] in AtCall(s, walk, hops, i).table
    requires ArrivedTotal(AtCall(s, walk, hops, |walk|), walk[i], f) < TWO_64
    ensures view(walk[i]).values.Some? && InBounds(s, walk, hops, i, Sum64(Column(view(walk[i]).values.value, f)), f)
  {
    hide Inv, CountedTotal, ArrivedTotal, AtCall, Column, ReadEnds;
    CallKeepsInv(s, walk, hops, i);
    ReadAfterCall(s, walk, hops, i);
    ArrivedByLastCall(s, walk, hops, i, walk[i], f);
    ReadBounds(AtCall(s, walk, hops, i), walk[i], hops[i].read, f);
  }

  lemma NameReadInBounds(s: State, walk: seq<int>, hops: seq<Hop>, view: int -> KeyView, name: string, f: Field)
    returns (i: nat)
    requires Inv(s) && |walk| == |hops| - 1 && Viewed(s, walk, hops, view) && name in Readings(walk, view)
    requires forall i: nat :: i < |walk| ==> walk[i] in AtCall(s, walk, hops, i).table
    requires forall key :: ArrivedTotal(AtCall(s, walk, hops, |walk|), key, f) < TWO_64
    ensures i < |walk| && view(walk[i]).ifname == name
    ensures InBounds(s, walk, hops, i, Get(Readings(walk, view)[name], f), f)
  {
    hide Inv, ArrivedTotal, InBounds, Viewed, Readings, Column, AtCall;
    ReadingsExact(walk, view, name);
    i :| LastReport(walk, view, name, i);
    KeyReadInBounds(s, walk, hops, view, i, f);
    SumCpusGet(view(walk[i]).values.value, f);
  }

  /** A whole poll, however the programs interleave with it. The keys it visits are keys of the map, each once, and of
      those there at its first call exactly the ones ahead of a key 0. Every name it reports has, below wrap-around, for
      each counter a reading between what had been counted of one of the visited keys with that name when the key's own
      read began and when it ended. */
  lemma WholePoll(s: State, hops: seq<Hop>, order: nat -> seq<int>, view: int -> KeyView, f: Field)
    requires Inv(s) && Grows(order) && |WalkFrom(order, 0, 0)| == |hops| - 1
    requires var walk := WalkFrom(order, 0, 0);
             && Listed(s, walk, hops, order) && Viewed(s, walk, hops, view)
             && forall key :: ArrivedTotal(AtCall(s, walk, hops, |walk|), key, f) < TWO_64
    ensures var walk := WalkFrom(order, 0, 0);
            && Distinct(walk)
            && (forall x :: x in Run(s, hops[0].idle).table ==> (x in walk <==> Ahead(order(0), 0, x)))
            && (forall i: nat :: i < |walk| ==> walk[i] in AtCall(s, walk, hops, i).table)
            && forall name :: name in Readings(walk, view) ==>
                 exists i: nat :: i < |walk| && view(walk[i]).ifname == name
                                  && InBounds(s, walk, hops, i, Get(Readings(walk, view)[name], f), f)
  {
    var walk := WalkFrom(order, 0, 0);
    assert AtCall(s, walk, hops, 0) == Run(s, hops[0].idle);
    hide Inv, Grows, WalkFrom, ArrivedTotal, InBounds, Viewed, Readings, AtCall, Ahead, Run, Get;
    WalkVisitsEachOnce(order);
    forall name | name in Readings(walk, view)
      ensures exists i: nat :: i < |walk| && view(walk[i]).ifname == name
                               && InBounds(s, walk, hops, i, Get(Readings(walk, view)[name], f), f)
    {
      var i := NameReadInBounds(s, walk, hops, view, name, f);
    }
  }

  // ---------------------------------------------------------------- rates and packets

  /** What a message reports, times the time since the poll before, is the difference of the two readings. */
  lemma OneRound(cache: Cache, p: Poll, ifname: string, f: Field, before: u64, after: u64)
    requires ifname in cache && ifname in p.ebpf && p.now > cache[ifname].timepoint
    requires Get(cache[ifname].stat.counters, f) == before <= after == Get(p.ebpf[ifname], f)
    ensures Contribution(cache, SeenIn(cache, ifname), p, ifname, f) == (after - before) as real
  {
    hide Contribution, Get;
    ReportedIncrement(cache, SeenIn(cache, ifname), p, ifname, f);
  }

  /** From a cached reading on: the volume of the rates is the last reading less the cached one. */
  lemma {:induction false} VolumeOfRounds(s: State, cache: Cache, rounds: seq<Round>, key: int, ifname: string,
                                          f: Field, first: u64)
    returns (last: u64)
    requires Inv(s) && key in s.table && AllComplete(s, key, rounds)
    requires ArrivedTotal(LastEnds(s, key, rounds), key, f) < TWO_64
    requires ifname in cache && Ticks(cache[ifname].timepoint, rounds)
    requires Get(cache[ifname].stat.counters, f) == first <= CountedTotal(s, key, f)
    ensures Volume(cache, Polls(s, key, ifname, rounds), ifname, f) == (last - first) as real
    ensures last <= CountedTotal(LastEnds(s, key, rounds), key, f)
    ensures rounds != [] ==> CountedTotal(LastBegins(s, key, rounds), key, f) <= last
    decreases |rounds|
  {
    hide Inv, CountedTotal, ArrivedTotal, ReadBegins, ReadEnds, Contribution, SumCpus;
    if rounds == [] {
      last := first;
    } else {
      var r, rest := rounds[0], rounds[1..];
      var e, p := ReadEnds(s, key, r.read), PollOf(s, key, ifname, r);
      ArrivedInRounds(e, key, rest, f);
      ReadBounds(s, key, r.read, f);
      SumCpusGet(e.reader.values, f);
      OneRound(cache, p, ifname, f, first, ReadingOf(e, f));
      CacheFollows(cache, p, ifname);
      last := VolumeOfRounds(e, After(cache, p), rest, key, ifname, f, ReadingOf(e, f));
      var polls := Polls(s, key, ifname, rounds);
      assert polls[0] == p && polls[1..] == Polls(e, key, ifname, rest);
    }
  }

  /** However the programs interleave with the reads: below wrap-around and with an advancing clock, the rates of all
      polls after the first, times their times, account for no more than the packets counted between the beginning of
      the first read and the end of the last, and for no fewer than those counted between the end of the first read and
      the beginning of the last. */
  lemma RatesMatchPackets(s: State, cache: Cache, first: Round, rest: seq<Round>, key: int, ifname: string, f: Field)
    requires Inv(s) && key in s.table && Complete(s, key, first.read)
    requires var s1 := ReadEnds(s, key, first.read);
             && rest != [] && AllComplete(s1, key, rest) && Ticks(first.now, rest)
             && ArrivedTotal(LastEnds(s1, key, rest), key, f) < TWO_64
    ensures var s1 := ReadEnds(s, key, first.read);
            var b0, b, e := ReadBegins(s, first.read), LastBegins(s1, key, rest), LastEnds(s1, key, rest);
            var volume := Volume(After(cache, PollOf(s, key, ifname, first)), Polls(s1, key, ifname, rest), ifname, f);
            && (CountedTotal(b, key, f) - CountedTotal(s1, key, f)) as real <= volume
            && volume <= (CountedTotal(e, key, f) - CountedTotal(b0, key, f)) as real
  {
    hide Inv, CountedTotal, ArrivedTotal, ReadBegins, ReadEnds, Contribution, SumCpus, Volume;
    var s1, p := ReadEnds(s, key, first.read), PollOf(s, key, ifname, first);
    ArrivedInRounds(s1, key, rest, f);
    ReadBounds(s, key, first.read, f);
    SumCpusGet(s1.reader.values, f);
    var last := VolumeOfRounds(s1, After(cache, p), rest, key, ifname, f, ReadingOf(s1, f));
  }
}
