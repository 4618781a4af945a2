/** CPU percentages from successive samples, and the consumer that recovers the steal share nobody sends. */
module CpuStats {
  import opened Words

  datatype Sample = Sample(name: string, user: u64, system: u64, idle: u64, nice: u64,
                           ioWait: u64, irq: u64, softIrq: u64, steal: u64)

  datatype CpuStat = CpuStat(name: string, cpu: real, usr: real, system: real, nice: real,
                             idle: real, ioWait: real, irq: real, softIrq: real)

  type Cache = map<string, Sample>

  function TrueTotal(s: Sample): nat {
    s.user + s.system + s.idle + s.nice + s.ioWait + s.irq + s.softIrq + s.steal
  }

  function TrueBusy(s: Sample): nat {
    s.user + s.system + s.nice + s.irq + s.softIrq + s.steal
  }

  /** The sums as the code forms them, in 64-bit arithmetic. */
  function Total(s: Sample): u64 {
    Low64(TrueTotal(s))
  }

  function Busy(s: Sample): u64 {
    Low64(TrueBusy(s))
  }

  function Elapsed(prev: Sample, s: Sample): int {
    Total(s) - Total(prev)
  }

  function Percent(part: int, whole: int): real
    requires whole > 0
  {
    part as real / whole as real * 100.0
  }

  function ZeroStat(name: string): CpuStat {
    CpuStat(name, 0.0, 0.0, 0.0, 0.0, 0.0, 0.0, 0.0, 0.0)
  }

  /** Increments between two samples, as the code forms them. */
  datatype Delta = Delta(busy: int, user: int, system: int, nice: int, idle: int, ioWait: int, irq: int, softIrq: int)

  function DeltaOf(prev: Sample, s: Sample): Delta {
    Delta(Busy(s) - Busy(prev), Sub64(s.user, prev.user), Sub64(s.system, prev.system), Sub64(s.nice, prev.nice),
          Sub64(s.idle, prev.idle), Sub64(s.ioWait, prev.ioWait), Sub64(s.irq, prev.irq),
          Sub64(s.softIrq, prev.softIrq))
  }

  function Shares(name: string, d: Delta, dt: int): CpuStat
    requires dt > 0
  {
    CpuStat(name, Percent(d.busy, dt), Percent(d.user, dt), Percent(d.system, dt), Percent(d.nice, dt),
            Percent(d.idle, dt), Percent(d.ioWait, dt), Percent(d.irq, dt), Percent(d.softIrq, dt))
  }

  /** The message for a sample, given the cached one. */
  function StatOf(last: Option<Sample>, s: Sample): CpuStat {
    if last.Some? && Elapsed(last.value, s) > 0
    then Shares(s.name, DeltaOf(last.value, s), Elapsed(last.value, s)) else ZeroStat(s.name)
  }

  function Cached(cache: Cache, name: string): Option<Sample> {
    if name in cache then Some(cache[name]) else None
  }

  /** The samples before the first unnamed slot. */
  function Named(stats: seq<Sample>): seq<Sample> {
    if stats == [] || stats[0].name == "" then [] else [stats[0]] + Named(stats[1..])
  }

  function After(cache: Cache, samples: seq<Sample>): Cache
    decreases |samples|
  {
    if samples == [] then cache else After(cache[samples[0].name := samples[0]], samples[1..])
  }

  function Messages(cache: Cache, samples: seq<Sample>): seq<CpuStat>
    decreases |samples|
  {
    if samples == [] then []
    else
      [StatOf(Cached(cache, samples[0].name), samples[0])]
      + Messages(cache[samples[0].name := samples[0]], samples[1..])
  }

  class CpuStatMonitor {
    var cpuStatMap: Cache

    constructor ()
      ensures cpuStatMap == map[]
    {
      cpuStatMap := map[];
    }

    method UpdateOnce(mapped: bool, stats: seq<Sample>) returns (msgs: seq<CpuStat>)
      modifies this
      ensures mapped ==>
                cpuStatMap == After(old(cpuStatMap), Named(stats)) && msgs == Messages(old(cpuStatMap), Named(stats))
      ensures !mapped ==> cpuStatMap == old(cpuStatMap) && msgs == []
    {
      hide StatOf, Named, After, Messages;
      msgs := [];
      if !mapped {
        return;
      }
      assert stats[0..] == stats;
      for i := 0 to |stats|
        invariant After(cpuStatMap, Named(stats[i..])) == After(old(cpuStatMap), Named(stats))
        invariant msgs + Messages(cpuStatMap, Named(stats[i..])) == Messages(old(cpuStatMap), Named(stats))
      {
        NextSample(cpuStatMap, stats[i..]);
        if stats[i].name == "" {
          return;
        }
        assert stats[i..][1..] == stats[i + 1..];
        msgs := msgs + [StatOf(Cached(cpuStatMap, stats[i].name), stats[i])];
        cpuStatMap := cpuStatMap[stats[i].name := stats[i]];
      }
      NoSample(cpuStatMap);
      assert stats[|stats|..] == [];
    }
  }

  /** One unfolding of what remains to be done. */
  lemma NextSample(cache: Cache, stats: seq<Sample>)
    requires stats != []
    ensures var s, next := stats[0], cache[stats[0].name := stats[0]];
            if s.name == "" then After(cache, Named(stats)) == cache && Messages(cache, Named(stats)) == []
            else
              && After(cache, Named(stats)) == After(next, Named(stats[1..]))
              && Messages(cache, Named(stats)) == [StatOf(Cached(cache, s.name), s)] + Messages(next, Named(stats[1..]))
  {
    hide StatOf, Cached;
    if stats[0].name != "" {
      var named := Named(stats);
      assert named[0] == stats[0] && named[1..] == Named(stats[1..]);
    }
  }

  lemma NoSample(cache: Cache)
    ensures After(cache, Named([])) == cache && Messages(cache, Named([])) == []
  {
  }

  /** Several calls in a row are one call on all their samples. */
  lemma {:induction false} CallsCompose(cache: Cache, a: seq<Sample>, b: seq<Sample>)
    ensures After(cache, a + b) == After(After(cache, a), b)
    ensures Messages(cache, a + b) == Messages(cache, a) + Messages(After(cache, a), b)
    decreases |a|
  {
    if a == [] {
      assert a + b == b;
    } else {
      assert (a + b)[1..] == a[1..] + b;
      CallsCompose(cache[a[0].name := a[0]], a[1..], b);
    }
  }

  // ---------------------------------------------------------------- one pair of samples

  /** Counters that only grow and whose sum still fits in a register. */
  predicate Grows(prev: Sample, s: Sample) {
    && prev.user <= s.user && prev.system <= s.system && prev.idle <= s.idle && prev.nice <= s.nice
    && prev.ioWait <= s.ioWait && prev.irq <= s.irq && prev.softIrq <= s.softIrq && prev.steal <= s.steal
    && TrueTotal(s) < TWO_64
  }

  /** `calculateCPUStealPercent`. */
  function StealPercent(c: CpuStat): real {
    100.0 - (c.usr + c.system + c.nice + c.ioWait + c.irq + c.softIrq) - c.idle
  }

  /** What part of the elapsed time was stolen; 0 when no time elapsed or there is nothing to compare with. */
  function TrueStealPercent(last: Option<Sample>, s: Sample): real {
    if last.Some? && TrueTotal(s) > TrueTotal(last.value)
    then Percent(s.steal - last.value.steal, TrueTotal(s) - TrueTotal(last.value)) else 0.0
  }

  lemma PercentIs(part: int, whole: int, k: real)
    requires whole > 0 && k == 100.0 / whole as real
    ensures Percent(part, whole) == part as real * k
  {
  }

  /** Every share is its increment times one common factor. */
  ghost predicate Scaled(c: CpuStat, d: Delta, k: real) {
    && c.cpu == d.busy as real * k && c.usr == d.user as real * k && c.system == d.system as real * k
    && c.nice == d.nice as real * k && c.idle == d.idle as real * k && c.ioWait == d.ioWait as real * k
    && c.irq == d.irq as real * k && c.softIrq == d.softIrq as real * k
  }

  ghost predicate Factor(k: real, dt: int) {
    k > 0.0 && dt as real * k == 100.0
  }

  lemma SharesAreScaled(name: string, d: Delta, dt: int) returns (k: real)
    requires dt > 0
    ensures k == 100.0 / dt as real && Factor(k, dt) && Scaled(Shares(name, d, dt), d, k)
  {
    k := 100.0 / dt as real;
    PercentIs(d.busy, dt, k);
    PercentIs(d.user, dt, k);
    PercentIs(d.system, dt, k);
    PercentIs(d.nice, dt, k);
    PercentIs(d.idle, dt, k);
    PercentIs(d.ioWait, dt, k);
    PercentIs(d.irq, dt, k);
    PercentIs(d.softIrq, dt, k);
  }

  lemma ScaledSteal(c: CpuStat, d: Delta, steal: int, dt: int, k: real)
    requires Scaled(c, d, k) && Factor(k, dt)
    requires d.busy == d.user + d.system + d.nice + d.irq + d.softIrq + steal && dt == d.busy + d.idle + d.ioWait
    ensures StealPercent(c) == steal as real * k
    ensures c.cpu + c.idle + c.ioWait == 100.0
  {
  }

  lemma PercentInRange(part: int, whole: int)
    requires 0 <= part <= whole && whole > 0
    ensures 0.0 <= Percent(part, whole) <= 100.0
  {
    var x, y := part as real, whole as real;
    assert 0.0 <= x / y && x / y <= y / y;
  }

  ghost predicate InRange(c: CpuStat) {
    && 0.0 <= c.cpu <= 100.0 && 0.0 <= c.usr <= 100.0 && 0.0 <= c.system <= 100.0 && 0.0 <= c.nice <= 100.0
    && 0.0 <= c.idle <= 100.0 && 0.0 <= c.ioWait <= 100.0 && 0.0 <= c.irq <= 100.0 && 0.0 <= c.softIrq <= 100.0
  }

  lemma AllInRange(name: string, d: Delta, dt: int)
    requires dt > 0
    requires 0 <= d.busy <= dt && 0 <= d.user <= dt && 0 <= d.system <= dt && 0 <= d.nice <= dt
    requires 0 <= d.idle <= dt && 0 <= d.ioWait <= dt && 0 <= d.irq <= dt && 0 <= d.softIrq <= dt
    ensures InRange(Shares(name, d, dt))
  {
    hide Percent;
    PercentInRange(d.busy, dt);
    PercentInRange(d.user, dt);
    PercentInRange(d.system, dt);
    PercentInRange(d.nice, dt);
    PercentInRange(d.idle, dt);
    PercentInRange(d.ioWait, dt);
    PercentInRange(d.irq, dt);
    PercentInRange(d.softIrq, dt);
  }

  lemma ExactBelowWrap(before: u64, after: u64)
    requires before <= after
    ensures Sub64(after, before) == after - before && Low64(after) == after
  {
  }

  /** For growing counters the 64-bit increments are the true ones. */
  lemma DeltaIsExact(prev: Sample, s: Sample)
    requires Grows(prev, s)
    ensures var d := DeltaOf(prev, s);
            && Elapsed(prev, s) == TrueTotal(s) - TrueTotal(prev) == d.busy + d.idle + d.ioWait
            && d.busy == TrueBusy(s) - TrueBusy(prev)
                      == d.user + d.system + d.nice + d.irq + d.softIrq + (s.steal - prev.steal)
            && d.user >= 0 && d.system >= 0 && d.nice >= 0 && d.idle >= 0 && d.ioWait >= 0 && d.irq >= 0
            && d.softIrq >= 0 && s.steal >= prev.steal
  {
    hide Sub64, Low64;
    ExactBelowWrap(prev.user, s.user);
    ExactBelowWrap(prev.system, s.system);
    ExactBelowWrap(prev.idle, s.idle);
    ExactBelowWrap(prev.nice, s.nice);
    ExactBelowWrap(prev.ioWait, s.ioWait);
    ExactBelowWrap(prev.irq, s.irq);
    ExactBelowWrap(prev.softIrq, s.softIrq);
    ExactBelowWrap(TrueTotal(prev), TrueTotal(s));
    ExactBelowWrap(TrueBusy(prev), TrueBusy(s));
    ExactBelowWrap(0, TrueTotal(prev));
    ExactBelowWrap(0, TrueBusy(prev));
  }

  /** The share that is never sent comes back exactly whenever time has passed since a cached sample, and only
      then: a first sample, or one without elapsed time, is taken for 100 percent stolen. */
  lemma StealRecovered(last: Option<Sample>, s: Sample)
    requires last.Some? ==> Grows(last.value, s)
    ensures StealPercent(StatOf(last, s)) == TrueStealPercent(last, s)
            <==> last.Some? && TrueTotal(s) > TrueTotal(last.value)
    ensures !(last.Some? && TrueTotal(s) > TrueTotal(last.value)) ==> StealPercent(StatOf(last, s)) == 100.0
  {
    if last.Some? {
      var prev := last.value;
      DeltaIsExact(prev, s);
      if TrueTotal(s) > TrueTotal(prev) {
        RecoveredFromShares(s.name, DeltaOf(prev, s), s.steal - prev.steal, Elapsed(prev, s));
      }
    }
  }

  lemma RecoveredFromShares(name: string, d: Delta, steal: int, dt: int)
    requires dt > 0
    requires d.busy == d.user + d.system + d.nice + d.irq + d.softIrq + steal && dt == d.busy + d.idle + d.ioWait
    ensures StealPercent(Shares(name, d, dt)) == Percent(steal, dt)
  {
    var k := SharesAreScaled(name, d, dt);
    ScaledSteal(Shares(name, d, dt), d, steal, dt, k);
    PercentIs(steal, dt, k);
  }

  lemma SharesOfDelta(name: string, d: Delta, steal: int, dt: int)
    requires dt > 0 && steal >= 0
    requires d.user >= 0 && d.system >= 0 && d.nice >= 0 && d.idle >= 0 && d.ioWait >= 0 && d.irq >= 0 && d.softIrq >= 0
    requires d.busy == d.user + d.system + d.nice + d.irq + d.softIrq + steal && dt == d.busy + d.idle + d.ioWait
    ensures var c := Shares(name, d, dt);
            InRange(c) && c.cpu == 100.0 - c.idle - c.ioWait
  {
    hide Percent;
    var c := Shares(name, d, dt);
    var k := SharesAreScaled(name, d, dt);
    AllInRange(name, d, dt);
    ScaledSteal(c, d, steal, dt, k);
  }

  lemma FactorTimes(percent: real, x: int, k: real, dt: int)
    requires Factor(k, dt) && percent == x as real * k
    ensures percent * dt as real == 100.0 * x as real
  {
    var r, d := x as real, dt as real;
    assert percent * d == r * (d * k);
  }

  /** Every share lies in 0..100, and the busy share is what idle and I/O wait leave. */
  lemma SharesInRange(prev: Sample, s: Sample)
    requires Grows(prev, s)
    ensures var c := StatOf(Some(prev), s);
            InRange(c) && (TrueTotal(s) > TrueTotal(prev) ==> c.cpu == 100.0 - c.idle - c.ioWait)
  {
    DeltaIsExact(prev, s);
    if TrueTotal(s) > TrueTotal(prev) {
      SharesOfDelta(s.name, DeltaOf(prev, s), s.steal - prev.steal, Elapsed(prev, s));
    }
  }

  // ---------------------------------------------------------------- one message

  /** What the eight percentages are shares of. */
  datatype Part = BusyTime | User | System | Nice | IdleTime | IoWait | Irq | SoftIrq

  function CountOf(s: Sample, p: Part): nat {
    match p
    case BusyTime => s.user + s.system + s.nice + s.irq + s.softIrq + s.steal
    case User => s.user
    case System => s.system
    case Nice => s.nice
    case IdleTime => s.idle
    case IoWait => s.ioWait
    case Irq => s.irq
    case SoftIrq => s.softIrq
  }

  function PercentOf(c: CpuStat, p: Part): real {
    match p
    case BusyTime => c.cpu
    case User => c.usr
    case System => c.system
    case Nice => c.nice
    case IdleTime => c.idle
    case IoWait => c.ioWait
    case Irq => c.irq
    case SoftIrq => c.softIrq
  }

  function IncrementOf(d: Delta, p: Part): int {
    match p
    case BusyTime => d.busy
    case User => d.user
    case System => d.system
    case Nice => d.nice
    case IdleTime => d.idle
    case IoWait => d.ioWait
    case Irq => d.irq
    case SoftIrq => d.softIrq
  }

  /** All times of a sample. */
  function Time(s: Sample): nat {
    s.user + s.system + s.idle + s.nice + s.ioWait + s.irq + s.softIrq + s.steal
  }

  /** What the message for sample `s` says, given the sample of that CPU before it: its name, and eight percentages
      that are zero if no time has passed, or there is no sample before, and else the shares of the elapsed time. */
  ghost predicate Says(c: CpuStat, s: Sample, last: Option<Sample>) {
    c.name == s.name &&
    forall p: Part :: ShareIs(PercentOf(c, p), s, last, p)
  }

  ghost predicate ShareIs(percent: real, s: Sample, last: Option<Sample>, p: Part) {
    if last.None? || Time(s) <= Time(last.value) then percent == 0.0
    else percent * (Time(s) - Time(last.value)) as real == 100.0 * (CountOf(s, p) - CountOf(last.value, p)) as real
  }

  lemma ShareTimesElapsed(name: string, d: Delta, dt: int, p: Part)
    requires dt > 0
    ensures PercentOf(Shares(name, d, dt), p) * dt as real == 100.0 * IncrementOf(d, p) as real
  {
    hide Shares, Percent, Factor;
    var k := SharesAreScaled(name, d, dt);
    FactorTimes(PercentOf(Shares(name, d, dt), p), IncrementOf(d, p), k, dt);
  }

  lemma IncrementIsExact(prev: Sample, s: Sample, p: Part)
    requires Grows(prev, s)
    ensures IncrementOf(DeltaOf(prev, s), p) == CountOf(s, p) - CountOf(prev, p)
  {
    DeltaIsExact(prev, s);
  }

  lemma NothingReported(name: string, p: Part)
    ensures PercentOf(ZeroStat(name), p) == 0.0
  {
  }

  lemma ShareIsBy(percent: real, s: Sample, prev: Sample, p: Part, dt: int, inc: int)
    requires dt == Time(s) - Time(prev) && inc == CountOf(s, p) - CountOf(prev, p)
    requires if dt <= 0 then percent == 0.0 else percent * dt as real == 100.0 * inc as real
    ensures ShareIs(percent, s, Some(prev), p)
  {
    hide Time, CountOf;
  }

  lemma TimeIsTotal(prev: Sample, s: Sample)
    requires Grows(prev, s)
    ensures Elapsed(prev, s) == Time(s) - Time(prev)
  {
    DeltaIsExact(prev, s);
  }

  lemma PairShare(prev: Sample, s: Sample, p: Part)
    requires Grows(prev, s)
    ensures ShareIs(PercentOf(StatOf(Some(prev), s), p), s, Some(prev), p)
  {
    hide Grows, Shares, DeltaOf, Elapsed, Time, CountOf, PercentOf, IncrementOf, ZeroStat, ShareIs;
    var d, dt := DeltaOf(prev, s), Elapsed(prev, s);
    TimeIsTotal(prev, s);
    IncrementIsExact(prev, s, p);
    if dt > 0 {
      ShareTimesElapsed(s.name, d, dt, p);
      ShareIsBy(PercentOf(Shares(s.name, d, dt), p), s, prev, p, dt, IncrementOf(d, p));
    } else {
      NothingReported(s.name, p);
      ShareIsBy(0.0, s, prev, p, dt, IncrementOf(d, p));
    }
  }

  lemma StatShare(last: Option<Sample>, s: Sample, p: Part)
    requires last.Some? ==> Grows(last.value, s)
    ensures ShareIs(PercentOf(StatOf(last, s), p), s, last, p)
  {
    hide PercentOf, Grows;
    if last.Some? {
      PairShare(last.value, s, p);
    } else {
      NothingReported(s.name, p);
    }
  }

  lemma StatSays(last: Option<Sample>, s: Sample)
    requires last.Some? ==> Grows(last.value, s)
    ensures Says(StatOf(last, s), s, last)
  {
    assert StatOf(last, s).name == s.name;
    hide StatOf, ShareIs, Grows;
    forall p: Part ensures ShareIs(PercentOf(StatOf(last, s), p), s, last, p) {
      StatShare(last, s, p);
    }
  }

  /** The last sample before sample `i` for the same CPU. */
  function LastSample(samples: seq<Sample>, i: nat, name: string): (j: Option<nat>)
    requires i <= |samples|
    ensures j.Some? ==> j.value < i && samples[j.value].name == name
  {
    if i == 0 then None
    else if samples[i - 1].name == name then Some(i - 1)
    else LastSample(samples, i - 1, name)
  }

  lemma {:induction false} NoneSinceLastSample(samples: seq<Sample>, i: nat, name: string)
    requires i <= |samples|
    ensures var j := LastSample(samples, i, name);
            forall k :: (if j.Some? then j.value < k else 0 <= k) && k < i ==> samples[k].name != name
  {
    if i > 0 {
      NoneSinceLastSample(samples, i - 1, name);
    }
  }

  function SeenBefore(cache: Cache, samples: seq<Sample>, i: nat): Option<Sample>
    requires i < |samples|
  {
    var name := samples[i].name;
    var j := LastSample(samples, i, name);
    if j.Some? then Some(samples[j.value]) else Cached(cache, name)
  }

  lemma {:induction false} LastSampleTail(samples: seq<Sample>, i: nat, name: string)
    requires 0 < i <= |samples|
    ensures var j := LastSample(samples[1..], i - 1, name);
            LastSample(samples, i, name) ==
            if j.Some? then Some(j.value + 1) else if samples[0].name == name then Some(0) else None
    decreases i
  {
    if i > 1 {
      LastSampleTail(samples, i - 1, name);
    }
  }

  lemma SeenBeforeTail(cache: Cache, samples: seq<Sample>, i: nat)
    requires 0 < i < |samples|
    ensures SeenBefore(cache, samples, i) ==
            SeenBefore(cache[samples[0].name := samples[0]], samples[1..], i - 1)
  {
    LastSampleTail(samples, i, samples[i].name);
  }

  /** One message for each sample, in order, each against the last sample of its own CPU. */
  lemma {:induction false} MessageAt(cache: Cache, samples: seq<Sample>, i: nat)
    requires i < |samples|
    ensures |Messages(cache, samples)| == |samples|
    ensures Messages(cache, samples)[i] == StatOf(SeenBefore(cache, samples, i), samples[i])
    decreases |samples|
  {
    hide StatOf;
    var first, rest := samples[0], samples[1..];
    var next := cache[first.name := first];
    assert Messages(cache, samples) == [StatOf(Cached(cache, first.name), first)] + Messages(next, rest);
    if i > 0 {
      MessageAt(next, rest, i - 1);
      SeenBeforeTail(cache, samples, i);
    } else if rest != [] {
      MessageAt(next, rest, 0);
    }
  }

  /** Over any run, from the samples themselves. */
  lemma MessageFromSamples(cache: Cache, samples: seq<Sample>, i: nat)
    requires i < |samples|
    requires var last := SeenBefore(cache, samples, i); last.Some? ==> Grows(last.value, samples[i])
    ensures |Messages(cache, samples)| == |samples|
    ensures Says(Messages(cache, samples)[i], samples[i], SeenBefore(cache, samples, i))
  {
    hide Says, StatOf, Messages, SeenBefore, Grows;
    MessageAt(cache, samples, i);
    StatSays(SeenBefore(cache, samples, i), samples[i]);
  }

  /** The samples taken are those before the first slot without a name, or all. */
  lemma {:induction false} NamedIsPrefix(stats: seq<Sample>) returns (n: nat)
    ensures n <= |stats| && Named(stats) == stats[..n] && (n < |stats| ==> stats[n].name == "")
    ensures forall i :: 0 <= i < n ==> stats[i].name != ""
  {
    if stats == [] || stats[0].name == "" {
      n := 0;
    } else {
      var m := NamedIsPrefix(stats[1..]);
      n := m + 1;
      assert stats[..n] == [stats[0]] + stats[1..][..m];
    }
  }

  // ---------------------------------------------------------------- a whole run

  function Sees(last: Option<Sample>, s: Sample, name: string): Option<Sample> {
    if s.name == name then Some(s) else last
  }

  /** Along the run, every sample of the CPU with one before grows from it. `last` follows the samples. */
  ghost predicate RunGrows(last: Option<Sample>, samples: seq<Sample>, name: string)
    decreases |samples|
  {
    samples == [] ||
    (var s := samples[0];
     && (s.name == name && last.Some? ==> Grows(last.value, s))
     && RunGrows(Sees(last, s, name), samples[1..], name))
  }

  /** Reported percentage times the time since the sample before, for the message of one sample. */
  function Reported(c: CpuStat, last: Option<Sample>, s: Sample, p: Part): real {
    if last.Some? then PercentOf(c, p) * (Time(s) - Time(last.value)) as real else 0.0
  }

  /** The same, added up over the messages for `name`. */
  function ReportedOver(msgs: seq<CpuStat>, last: Option<Sample>, samples: seq<Sample>, name: string, p: Part): real
    requires |msgs| == |samples|
    decreases |samples|
  {
    if samples == [] then 0.0
    else
      var s := samples[0];
      (if s.name == name then Reported(msgs[0], last, s, p) else 0.0)
      + ReportedOver(msgs[1..], Sees(last, s, name), samples[1..], name, p)
  }

  function FirstSeen(last: Option<Sample>, samples: seq<Sample>, name: string): Option<Sample>
    decreases |samples|
  {
    if last.Some? || samples == [] then last else FirstSeen(Sees(last, samples[0], name), samples[1..], name)
  }

  function LastSeen(last: Option<Sample>, samples: seq<Sample>, name: string): Option<Sample>
    decreases |samples|
  {
    if samples == [] then last else LastSeen(Sees(last, samples[0], name), samples[1..], name)
  }

  lemma ReportedBy(c: CpuStat, prev: Sample, s: Sample, p: Part, percent: real, dt: int, inc: int)
    requires percent == PercentOf(c, p) && ShareIs(percent, s, Some(prev), p)
    requires dt == Time(s) - Time(prev) && inc == CountOf(s, p) - CountOf(prev, p) && (dt <= 0 ==> dt == 0 && inc == 0)
    ensures Reported(c, Some(prev), s, p) == 100.0 * inc as real
  {
    hide PercentOf, Time, CountOf;
    var product := percent * dt as real;
    if dt == 0 {
      assert product == 0.0;
    }
  }

  /** One sample reports exactly its increments; one without elapsed time has none to report. */
  lemma OneSample(prev: Sample, s: Sample, p: Part)
    requires Grows(prev, s)
    ensures Reported(StatOf(Some(prev), s), Some(prev), s, p) == 100.0 * (CountOf(s, p) - CountOf(prev, p)) as real
  {
    hide StatOf, PercentOf, Reported, ShareIs, Grows, CountOf, Time;
    var c := StatOf(Some(prev), s);
    StatShare(Some(prev), s, p);
    if Time(s) <= Time(prev) {
      StandStill(prev, s, p);
    }
    ReportedBy(c, prev, s, p, PercentOf(c, p), Time(s) - Time(prev), CountOf(s, p) - CountOf(prev, p));
  }

  lemma StandStill(prev: Sample, s: Sample, p: Part)
    requires Grows(prev, s) && Time(s) <= Time(prev)
    ensures Time(s) == Time(prev) && CountOf(s, p) == CountOf(prev, p)
  {
  }

  lemma MessagesUnfold(cache: Cache, samples: seq<Sample>)
    requires samples != []
    ensures var s, msgs := samples[0], Messages(cache, samples);
            |msgs| > 0 && msgs[0] == StatOf(Cached(cache, s.name), s)
            && msgs[1..] == Messages(cache[s.name := s], samples[1..])
  {
    hide StatOf;
  }

  lemma {:induction false} AsManyMessages(cache: Cache, samples: seq<Sample>)
    ensures |Messages(cache, samples)| == |samples|
    decreases |samples|
  {
    hide StatOf;
    if samples != [] {
      AsManyMessages(cache[samples[0].name := samples[0]], samples[1..]);
    }
  }

  /** Over any run of any number of CPUs, for each of the eight percentages: weighted with the times between samples
      they add up to 100 times what their counter grew by between the first and the last sample. Samples without elapsed
      time lose nothing. */
  lemma {:induction false} SharesTelescope(cache: Cache, samples: seq<Sample>, name: string, p: Part)
    requires RunGrows(Cached(cache, name), samples, name)
    ensures |Messages(cache, samples)| == |samples|
    ensures var start := Cached(cache, name);
            var first, last := FirstSeen(start, samples, name), LastSeen(start, samples, name);
            && (first.Some? <==> last.Some?)
            && ReportedOver(Messages(cache, samples), start, samples, name, p) ==
               if first.Some? then 100.0 * (CountOf(last.value, p) - CountOf(first.value, p)) as real else 0.0
    decreases |samples|
  {
    AsManyMessages(cache, samples);
    hide CountOf, Grows, Reported;
    if samples != [] {
      var s, start := samples[0], Cached(cache, name);
      MessagesUnfold(cache, samples);
      hide Messages, StatOf;
      SharesTelescope(cache[s.name := s], samples[1..], name, p);
      assert Cached(cache[s.name := s], name) == Sees(start, s, name);
      if s.name == name {
        if start.Some? {
          OneSample(start.value, s, p);
        } else {
          NothingBefore(StatOf(start, s), s, p);
        }
      }
    }
  }

  lemma NothingBefore(c: CpuStat, s: Sample, p: Part)
    ensures Reported(c, None, s, p) == 0.0
  {
  }
}
