/** The performance scores: piecewise-linear pieces, weighted and averaged. */
module Scores {
  import opened Words
  import opened Proto

  function Max(x: real, y: real): real { if x < y then y else x }
  function Min(x: real, y: real): real { if y < x then y else x }
  function Abs(x: real): real { if x < 0.0 then -x else x }

  function Sum(xs: seq<real>): real {
    if xs == [] then 0.0 else Sum(xs[..|xs| - 1]) + xs[|xs| - 1]
  }

  function Mean(xs: seq<real>): real {
    if xs == [] then 0.0 else Sum(xs) / |xs| as real
  }

  // ---------------------------------------------------------------- pieces

  function Falling(x: real): real { Max(0.0, 100.0 - x) }

  function LoadScore(load: Option<CpuLoad>): real {
    if load.None? then 0.0 else Min(100.0, Max(0.0, 100.0 - load.value.loadAvg1 * 10.0))
  }

  function CoreScore(c: CpuStats.CpuStat, load: Option<CpuLoad>): real {
    Falling(c.cpu) * 0.7 + LoadScore(load) * 0.3
  }

  function CacheTotal(m: MemInfo): real { m.cached + m.buffers + m.sReclaimable }

  /** Best between 10 and 30 percent. */
  function CacheScore(percent: real): real {
    if 10.0 <= percent <= 30.0 then 100.0
    else if percent < 10.0 then percent * 10.0
    else Max(0.0, 100.0 - (percent - 30.0) * 5.0)
  }

  function AvailableScore(m: MemInfo): real {
    if m.total > 0.0 then Min(100.0, m.avail / m.total * 100.0 * 2.0) else 0.0
  }

  function MemoryScore(info: MonitorInfo): real {
    if info.memInfo.None? then 0.0
    else
      var m := info.memInfo.value;
      var cache := if m.total > 0.0 then CacheScore(CacheTotal(m) / m.total * 100.0) else 0.0;
      Min(100.0, Falling(m.usedPercent) * 0.5 + AvailableScore(m) * 0.3 + cache * 0.2)
  }

  function QueueLength(d: DiskStats.DiskMsg): real {
    if d.info.ioTimeMs > 0 then d.info.weightedIoTimeMs as real / d.info.ioTimeMs as real else 0.0
  }

  function LatencyScore(r: real, w: real): real {
    if r > 0.0 || w > 0.0 then Max(0.0, 100.0 - (r + w) / 2.0 * 2.0) else 100.0
  }

  function OneDiskScore(d: DiskStats.DiskMsg): real {
    Falling(d.utilPercent) * 0.4 + LatencyScore(d.avgReadLatencyMs, d.avgWriteLatencyMs) * 0.3
    + Max(0.0, 100.0 - QueueLength(d) * 20.0) * 0.3
  }

  /** Best at 100. */
  function ThroughputScore(t: real): real {
    if t <= 100.0 then t else Max(0.0, 100.0 - (t - 100.0) / 10.0)
  }

  function AvgPacketSize(n: NetMonitoring.NetMsg): real {
    var packets := n.sendPacketsRate + n.rcvPacketsRate;
    if packets > 0.0 then (n.sendRate + n.rcvRate) * 1024.0 / packets else 0.0
  }

  function PacketSizeScore(size: real): real {
    if size > 0.0 then Max(0.0, 100.0 - Abs(size - 1500.0) / 15.0) else 0.0
  }

  function OneNetScore(n: NetMonitoring.NetMsg): real {
    ThroughputScore(n.sendRate + n.rcvRate) * 0.6 + PacketSizeScore(AvgPacketSize(n)) * 0.4
  }

  function CoreScores(info: MonitorInfo): seq<real> {
    seq(|info.cpuStat|, i requires 0 <= i < |info.cpuStat| => CoreScore(info.cpuStat[i], info.cpuLoad))
  }

  function DiskScores(info: MonitorInfo): seq<real> {
    seq(|info.diskInfo|, i requires 0 <= i < |info.diskInfo| => OneDiskScore(info.diskInfo[i]))
  }

  function NetScores(info: MonitorInfo): seq<real> {
    seq(|info.netInfo|, i requires 0 <= i < |info.netInfo| => OneNetScore(info.netInfo[i]))
  }

  function Weighted(cpu: real, memory: real, disk: real, net: real): real {
    cpu * 0.3 + memory * 0.25 + disk * 0.25 + net * 0.2
  }

  function Overall(info: MonitorInfo): real {
    Min(100.0, Max(0.0,
      Weighted(Mean(CoreScores(info)), MemoryScore(info), Mean(DiskScores(info)), Mean(NetScores(info)))))
  }

  // ---------------------------------------------------------------- the loops

  method CalculateCpuScore(info: MonitorInfo) returns (score: real)
    ensures score == Mean(CoreScores(info))
  {
    if |info.cpuStat| == 0 {
      return 0.0;
    }
    var total, count := 0.0, 0;
    ghost var xs := CoreScores(info);
    for i := 0 to |info.cpuStat|
      invariant count == i && total == Sum(xs[..i])
    {
      assert xs[..i + 1][..i] == xs[..i];
      var usage := Max(0.0, 100.0 - info.cpuStat[i].cpu);
      var load := 0.0;
      if info.cpuLoad.Some? {
        load := Max(0.0, 100.0 - info.cpuLoad.value.loadAvg1 * 10.0);
        load := Min(100.0, load);
      }
      total := total + (usage * 0.7 + load * 0.3);
      count := count + 1;
    }
    assert xs[..|xs|] == xs;
    score := if count > 0 then total / count as real else 0.0;
  }

  method CalculateDiskScore(info: MonitorInfo) returns (score: real)
    ensures score == Mean(DiskScores(info))
  {
    if |info.diskInfo| == 0 {
      return 0.0;
    }
    var total, count := 0.0, 0;
    ghost var xs := DiskScores(info);
    for i := 0 to |info.diskInfo|
      invariant count == i && total == Sum(xs[..i])
    {
      assert xs[..i + 1][..i] == xs[..i];
      var d := info.diskInfo[i];
      var util := Max(0.0, 100.0 - d.utilPercent);
      var latency := 100.0;
      if d.avgReadLatencyMs > 0.0 || d.avgWriteLatencyMs > 0.0 {
        latency := Max(0.0, 100.0 - (d.avgReadLatencyMs + d.avgWriteLatencyMs) / 2.0 * 2.0);
      }
      var queue := Max(0.0, 100.0 - QueueLength(d) * 20.0);
      total := total + (util * 0.4 + latency * 0.3 + queue * 0.3);
      count := count + 1;
    }
    assert xs[..|xs|] == xs;
    score := if count > 0 then total / count as real else 0.0;
  }

  method CalculateNetworkScore(info: MonitorInfo) returns (score: real)
    ensures score == Mean(NetScores(info))
  {
    if |info.netInfo| == 0 {
      return 0.0;
    }
    var total, count := 0.0, 0;
    ghost var xs := NetScores(info);
    for i := 0 to |info.netInfo|
      invariant count == i && total == Sum(xs[..i])
    {
      assert xs[..i + 1][..i] == xs[..i];
      var n := info.netInfo[i];
      var throughput, size := n.sendRate + n.rcvRate, AvgPacketSize(n);
      var throughputScore, sizeScore := 0.0, 0.0;
      if throughput <= 100.0 {
        throughputScore := throughput;
      } else {
        throughputScore := Max(0.0, 100.0 - (throughput - 100.0) / 10.0);
      }
      if size > 0.0 {
        sizeScore := Max(0.0, 100.0 - Abs(size - 1500.0) / 15.0);
      }
      total := total + (throughputScore * 0.6 + sizeScore * 0.4);
      count := count + 1;
    }
    assert xs[..|xs|] == xs;
    score := if count > 0 then total / count as real else 0.0;
  }

  method CalculateOverallPerformanceScore(info: MonitorInfo) returns (score: real)
    ensures score == Overall(info)
  {
    var cpu := CalculateCpuScore(info);
    var memory := MemoryScore(info);
    var disk := CalculateDiskScore(info);
    var net := CalculateNetworkScore(info);
    score := Min(100.0, Max(0.0, cpu * 0.3 + memory * 0.25 + disk * 0.25 + net * 0.2));
  }

  // ---------------------------------------------------------------- range

  predicate InRange(x: real) { 0.0 <= x <= 100.0 }

  /** Inputs as the monitors produce them: nothing negative, and no more memory available than there is. */
  ghost predicate Sane(info: MonitorInfo) {
    && (forall c :: c in info.cpuStat ==> c.cpu >= 0.0)
    && (info.cpuLoad.Some? ==> info.cpuLoad.value.loadAvg1 >= 0.0)
    && (info.memInfo.Some? ==>
          var m := info.memInfo.value;
          && 0.0 <= m.avail <= m.total && m.usedPercent >= 0.0
          && m.cached >= 0.0 && m.buffers >= 0.0 && m.sReclaimable >= 0.0)
    && (forall d :: d in info.diskInfo ==>
          d.utilPercent >= 0.0 && d.avgReadLatencyMs >= 0.0 && d.avgWriteLatencyMs >= 0.0)
    && (forall n :: n in info.netInfo ==>
          n.sendRate >= 0.0 && n.rcvRate >= 0.0 && n.sendPacketsRate >= 0.0 && n.rcvPacketsRate >= 0.0)
  }

  lemma {:induction false} SumInRange(xs: seq<real>)
    requires forall x :: x in xs ==> InRange(x)
    ensures 0.0 <= Sum(xs) <= 100.0 * |xs| as real
  {
    if xs != [] {
      SumInRange(xs[..|xs| - 1]);
      assert xs[|xs| - 1] in xs;
    }
  }

  lemma QuotientInRange(s: real, n: real)
    requires n > 0.0 && 0.0 <= s <= 100.0 * n
    ensures InRange(s / n)
  {
    assert s / n >= 0.0 && s / n <= (100.0 * n) / n;
  }

  lemma MeanInRange(xs: seq<real>)
    requires forall x :: x in xs ==> InRange(x)
    ensures InRange(Mean(xs))
  {
    if xs != [] {
      SumInRange(xs);
      QuotientInRange(Sum(xs), |xs| as real);
    }
  }

  lemma CoreInRange(c: CpuStats.CpuStat, load: Option<CpuLoad>)
    requires c.cpu >= 0.0
    ensures InRange(CoreScore(c, load))
  {
  }

  lemma QueueNotNegative(d: DiskStats.DiskMsg)
    ensures QueueLength(d) >= 0.0
  {
  }

  lemma DiskInRange(d: DiskStats.DiskMsg)
    requires d.utilPercent >= 0.0 && d.avgReadLatencyMs >= 0.0 && d.avgWriteLatencyMs >= 0.0
    ensures InRange(OneDiskScore(d))
  {
    QueueNotNegative(d);
    hide QueueLength;
  }

  lemma NetInRange(n: NetMonitoring.NetMsg)
    requires n.sendRate >= 0.0 && n.rcvRate >= 0.0
    ensures InRange(OneNetScore(n))
  {
    hide AvgPacketSize;
  }

  lemma CacheInRange(percent: real)
    requires percent >= 0.0
    ensures InRange(CacheScore(percent))
  {
  }

  lemma RatioNotNegative(x: real, y: real)
    requires x >= 0.0 && y > 0.0
    ensures x / y * 100.0 >= 0.0
  {
    assert x / y >= 0.0;
  }

  lemma MemoryInRange(info: MonitorInfo)
    requires Sane(info)
    ensures InRange(MemoryScore(info))
  {
    if info.memInfo.Some? && info.memInfo.value.total > 0.0 {
      var m := info.memInfo.value;
      RatioNotNegative(m.avail, m.total);
      RatioNotNegative(CacheTotal(m), m.total);
      CacheInRange(CacheTotal(m) / m.total * 100.0);
      hide CacheScore;
    }
  }

  lemma WeightedInRange(c: real, m: real, d: real, n: real)
    requires InRange(c) && InRange(m) && InRange(d) && InRange(n)
    ensures InRange(Weighted(c, m, d, n))
  {
  }

  /** Every score lies in 0..100 for any number of CPUs, disks and interfaces, so the final clamp changes nothing. */
  lemma ScoresInRange(info: MonitorInfo)
    requires Sane(info)
    ensures InRange(Mean(CoreScores(info))) && InRange(MemoryScore(info))
            && InRange(Mean(DiskScores(info))) && InRange(Mean(NetScores(info)))
    ensures Overall(info) ==
            Weighted(Mean(CoreScores(info)), MemoryScore(info), Mean(DiskScores(info)), Mean(NetScores(info)))
  {
    forall i | 0 <= i < |info.cpuStat| ensures InRange(CoreScores(info)[i]) {
      CoreInRange(info.cpuStat[i], info.cpuLoad);
    }
    forall i | 0 <= i < |info.diskInfo| ensures InRange(DiskScores(info)[i]) { DiskInRange(info.diskInfo[i]); }
    forall i | 0 <= i < |info.netInfo| ensures InRange(NetScores(info)[i]) { NetInRange(info.netInfo[i]); }
    MeanInRange(CoreScores(info));
    MeanInRange(DiskScores(info));
    MeanInRange(NetScores(info));
    MemoryInRange(info);
    hide CoreScores, DiskScores, NetScores, MemoryScore, Mean;
    WeightedInRange(Mean(CoreScores(info)), MemoryScore(info), Mean(DiskScores(info)), Mean(NetScores(info)));
  }

  // ---------------------------------------------------------------- monotonicity

  lemma {:induction false} SumMonotone(xs: seq<real>, ys: seq<real>)
    requires |xs| == |ys| && forall i :: 0 <= i < |xs| ==> xs[i] <= ys[i]
    ensures Sum(xs) <= Sum(ys)
  {
    if xs != [] {
      SumMonotone(xs[..|xs| - 1], ys[..|ys| - 1]);
    }
  }

  lemma QuotientMonotone(s: real, t: real, n: real)
    requires n > 0.0 && s <= t
    ensures s / n <= t / n
  {
  }

  lemma MeanMonotone(xs: seq<real>, ys: seq<real>)
    requires |xs| == |ys| && forall i :: 0 <= i < |xs| ==> xs[i] <= ys[i]
    ensures Mean(xs) <= Mean(ys)
  {
    if xs != [] {
      SumMonotone(xs, ys);
      QuotientMonotone(Sum(xs), Sum(ys), |xs| as real);
    }
  }

  predicate DiskWorse(a: DiskStats.DiskMsg, b: DiskStats.DiskMsg) {
    && a.utilPercent <= b.utilPercent && a.avgReadLatencyMs <= b.avgReadLatencyMs
    && a.avgWriteLatencyMs <= b.avgWriteLatencyMs && QueueLength(a) <= QueueLength(b)
  }

  /** `b` is at least as busy as `a`: no CPU usage, load, disk utilisation, latency or queue is smaller. */
  ghost predicate Busier(a: MonitorInfo, b: MonitorInfo) {
    && |a.cpuStat| == |b.cpuStat| && |a.diskInfo| == |b.diskInfo|
    && a.memInfo == b.memInfo && a.netInfo == b.netInfo
    && (forall i :: 0 <= i < |a.cpuStat| ==> a.cpuStat[i].cpu <= b.cpuStat[i].cpu)
    && (a.cpuLoad.Some? <==> b.cpuLoad.Some?)
    && (a.cpuLoad.Some? ==> a.cpuLoad.value.loadAvg1 <= b.cpuLoad.value.loadAvg1)
    && (forall i :: 0 <= i < |a.diskInfo| ==> DiskWorse(a.diskInfo[i], b.diskInfo[i]))
  }

  lemma CoreMonotone(a: CpuStats.CpuStat, b: CpuStats.CpuStat, la: Option<CpuLoad>, lb: Option<CpuLoad>)
    requires a.cpu <= b.cpu && (la.Some? <==> lb.Some?) && (la.Some? ==> la.value.loadAvg1 <= lb.value.loadAvg1)
    ensures CoreScore(b, lb) <= CoreScore(a, la)
  {
  }

  lemma DiskMonotone(a: DiskStats.DiskMsg, b: DiskStats.DiskMsg)
    requires DiskWorse(a, b) && a.avgReadLatencyMs >= 0.0 && a.avgWriteLatencyMs >= 0.0
    ensures OneDiskScore(b) <= OneDiskScore(a)
  {
    hide QueueLength;
  }

  lemma OverallOf(info: MonitorInfo, c: real, m: real, d: real, n: real)
    requires c == Mean(CoreScores(info)) && m == MemoryScore(info)
    requires d == Mean(DiskScores(info)) && n == Mean(NetScores(info))
    ensures Overall(info) == Min(100.0, Max(0.0, Weighted(c, m, d, n)))
  {
  }

  /** Making a host busier in any of these respects, or in all of them, never raises its overall score. */
  lemma BusierScoresNoHigher(a: MonitorInfo, b: MonitorInfo)
    requires Sane(a) && Busier(a, b)
    ensures Overall(b) <= Overall(a)
  {
    forall i | 0 <= i < |a.cpuStat| ensures CoreScores(b)[i] <= CoreScores(a)[i] {
      CoreMonotone(a.cpuStat[i], b.cpuStat[i], a.cpuLoad, b.cpuLoad);
    }
    forall i | 0 <= i < |a.diskInfo| ensures DiskScores(b)[i] <= DiskScores(a)[i] {
      assert DiskWorse(a.diskInfo[i], b.diskInfo[i]);
      DiskMonotone(a.diskInfo[i], b.diskInfo[i]);
    }
    MeanMonotone(CoreScores(b), CoreScores(a));
    MeanMonotone(DiskScores(b), DiskScores(a));
    hide CoreScores, DiskScores, Mean, Overall;
    assert MemoryScore(a) == MemoryScore(b) && NetScores(a) == NetScores(b);
    hide MemoryScore, NetScores;
    OverallOf(a, Mean(CoreScores(a)), MemoryScore(a), Mean(DiskScores(a)), Mean(NetScores(a)));
    OverallOf(b, Mean(CoreScores(b)), MemoryScore(b), Mean(DiskScores(b)), Mean(NetScores(b)));
  }

  // ---------------------------------------------------------------- shape of the two humped pieces

  /** The cache piece has slope at most 10, so it is continuous; it rises to 10 percent, is flat to 30 and falls. */
  lemma CacheShape(x: real, y: real)
    requires x <= y
    ensures Abs(CacheScore(y) - CacheScore(x)) <= 10.0 * (y - x)
    ensures y <= 10.0 ==> CacheScore(x) <= CacheScore(y)
    ensures 10.0 <= x && y <= 30.0 ==> CacheScore(x) == CacheScore(y) == 100.0
    ensures 30.0 <= x ==> CacheScore(y) <= CacheScore(x)
  {
  }

  /** The throughput piece has slope at most 1; it rises to 100 and falls from there. */
  lemma ThroughputShape(x: real, y: real)
    requires x <= y
    ensures Abs(ThroughputScore(y) - ThroughputScore(x)) <= y - x
    ensures y <= 100.0 ==> ThroughputScore(x) <= ThroughputScore(y)
    ensures 100.0 <= x ==> ThroughputScore(y) <= ThroughputScore(x)
    ensures ThroughputScore(100.0) == 100.0 && (x != 100.0 ==> ThroughputScore(x) < 100.0)
  {
  }

  // ---------------------------------------------------------------- the scores in numbers

  predicate Unit(t: real) { 0.0 <= t <= 1.0 }

  /** The pieces, each stretch of them: `t` runs from 0 at one end of a stretch to 1 at the other, and on where the
      stretch has no other end. */
  lemma PiecesExactly(t: real)
    ensures Falling(100.0 * t) == if t <= 1.0 then 100.0 - 100.0 * t else 0.0
    ensures LoadScore(Some(CpuLoad(10.0 * t))) ==
            if t < 0.0 then 100.0 else if t <= 1.0 then 100.0 - 100.0 * t else 0.0
    ensures LoadScore(None) == 0.0
    ensures t <= 1.0 ==> CacheScore(10.0 * t) == 100.0 * t
    ensures Unit(t) ==> CacheScore(10.0 + 20.0 * t) == 100.0
    ensures t >= 0.0 ==> CacheScore(30.0 + 20.0 * t) == if t <= 1.0 then 100.0 - 100.0 * t else 0.0
    ensures t <= 1.0 ==> ThroughputScore(100.0 * t) == 100.0 * t
    ensures t >= 0.0 ==> ThroughputScore(100.0 + 1000.0 * t) == if t <= 1.0 then 100.0 - 100.0 * t else 0.0
    ensures t <= 1.0 ==> PacketSizeScore(1500.0 * t) == if t <= 0.0 then 0.0 else 100.0 * t
    ensures t >= 0.0 ==> PacketSizeScore(1500.0 + 1500.0 * t) == if t <= 1.0 then 100.0 - 100.0 * t else 0.0
  {
  }

  /** Usage counts 70 and load 30 percent of a core's score. */
  lemma CoreExactly(c: CpuStats.CpuStat, usage: real, load: real)
    requires Unit(usage) && Unit(load) && c.cpu == 100.0 * usage
    ensures CoreScore(c, Some(CpuLoad(10.0 * load))) == 70.0 * (1.0 - usage) + 30.0 * (1.0 - load)
    ensures CoreScore(c, None) == 70.0 * (1.0 - usage)
  {
  }

  /** Utilisation counts 40, latency 30 and queue length 30 percent of a disk's score. */
  lemma DiskExactly(d: DiskStats.DiskMsg, util: real, latency: real, queue: real)
    requires Unit(util) && Unit(latency) && Unit(queue) && d.avgReadLatencyMs >= 0.0 && d.avgWriteLatencyMs >= 0.0
    requires d.utilPercent == 100.0 * util && (d.avgReadLatencyMs + d.avgWriteLatencyMs) / 2.0 == 50.0 * latency
    requires QueueLength(d) == 5.0 * queue
    ensures OneDiskScore(d) == 40.0 * (1.0 - util) + 30.0 * (1.0 - latency) + 30.0 * (1.0 - queue)
  {
    hide QueueLength;
  }

  lemma QueueExactly(d: DiskStats.DiskMsg)
    ensures if d.info.ioTimeMs == 0 then QueueLength(d) == 0.0
            else QueueLength(d) * d.info.ioTimeMs as real == d.info.weightedIoTimeMs as real
  {
  }

  /** Throughput counts 60 and packet size 40 percent of an interface's score. */
  lemma NetExactly(n: NetMonitoring.NetMsg, throughput: real, size: real)
    requires Unit(throughput) && Unit(size)
    ensures n.sendRate + n.rcvRate == 100.0 * throughput && AvgPacketSize(n) == 1500.0 * size ==>
              OneNetScore(n) == 60.0 * throughput + 40.0 * size
    ensures n.sendRate + n.rcvRate == 100.0 + 1000.0 * throughput && AvgPacketSize(n) == 1500.0 + 1500.0 * size ==>
              OneNetScore(n) == 60.0 * (1.0 - throughput) + 40.0 * (1.0 - size)
  {
    hide AvgPacketSize;
  }

  /** Rates are in KB per second and packets per second. */
  lemma PacketSizeExactly(n: NetMonitoring.NetMsg)
    ensures var packets := n.sendPacketsRate + n.rcvPacketsRate;
            if packets > 0.0 then AvgPacketSize(n) * packets == 1024.0 * (n.sendRate + n.rcvRate)
            else AvgPacketSize(n) == 0.0
  {
    var packets, x := n.sendPacketsRate + n.rcvPacketsRate, (n.sendRate + n.rcvRate) * 1024.0;
    if packets > 0.0 { assert x / packets * packets == x; }
  }

  lemma RatioExactly(part: real, whole: real, share: real, r: real)
    requires whole > 0.0 && part == whole * share && r == part / whole
    ensures r == share
  {
  }

  lemma AvailableExactly(m: MemInfo, available: real)
    requires Unit(available) && m.total > 0.0 && m.avail == m.total * (available / 2.0)
    ensures AvailableScore(m) == 100.0 * available
  {
    RatioExactly(m.avail, m.total, available / 2.0, m.avail / m.total);
  }

  /** Usage counts 50, available memory 30 and caches 20 percent of the memory score; half of the memory available is
      enough, and so is a tenth of it in caches. */
  lemma MemoryExactly(info: MonitorInfo, usage: real, available: real, cache: real)
    requires info.memInfo.Some? && Unit(usage) && Unit(available) && Unit(cache)
    requires var m := info.memInfo.value;
             && m.total > 0.0 && m.usedPercent == 100.0 * usage && m.avail == m.total * (available / 2.0)
             && m.cached + m.buffers + m.sReclaimable == m.total * (cache / 10.0)
    ensures MemoryScore(info) == 50.0 * (1.0 - usage) + 30.0 * available + 20.0 * cache
  {
    var m := info.memInfo.value;
    AvailableExactly(m, available);
    RatioExactly(CacheTotal(m), m.total, cache / 10.0, CacheTotal(m) / m.total);
    hide AvailableScore, CacheTotal;
  }

  /** More than a tenth and up to three tenths of the memory in caches score in full. */
  lemma MemoryWithCaches(info: MonitorInfo, usage: real, available: real, cache: real)
    requires info.memInfo.Some? && Unit(usage) && Unit(available) && Unit(cache)
    requires var m := info.memInfo.value;
             && m.total > 0.0 && m.usedPercent == 100.0 * usage && m.avail == m.total * (available / 2.0)
             && m.cached + m.buffers + m.sReclaimable == m.total * (0.1 + cache / 5.0)
    ensures MemoryScore(info) == 50.0 * (1.0 - usage) + 30.0 * available + 20.0
  {
    var m := info.memInfo.value;
    AvailableExactly(m, available);
    RatioExactly(CacheTotal(m), m.total, 0.1 + cache / 5.0, CacheTotal(m) / m.total);
    hide AvailableScore, CacheTotal;
  }

  lemma MemoryUnknown(info: MonitorInfo)
    ensures info.memInfo.None? ==> MemoryScore(info) == 0.0
    ensures info.memInfo.Some? && info.memInfo.value.total <= 0.0 && 0.0 <= info.memInfo.value.usedPercent <= 100.0 ==>
              MemoryScore(info) == 50.0 - info.memInfo.value.usedPercent / 2.0
  {
  }

  function Added(xs: seq<real>): real {
    if xs == [] then 0.0 else xs[0] + Added(xs[1..])
  }

  lemma {:induction false} SumIsAdded(xs: seq<real>, x: real)
    ensures Added(xs + [x]) == Added(xs) + x
  {
    if xs == [] {
      assert [x][1..] == [];
    } else {
      assert (xs + [x])[1..] == xs[1..] + [x];
      SumIsAdded(xs[1..], x);
    }
  }

  lemma {:induction false} SumExactly(xs: seq<real>)
    ensures Sum(xs) == Added(xs)
  {
    if xs != [] {
      var n := |xs| - 1;
      SumExactly(xs[..n]);
      SumIsAdded(xs[..n], xs[n]);
      assert xs == xs[..n] + [xs[n]];
    }
  }

  /** A mean times the number of values is their sum; of no values it is 0. */
  lemma MeanExactly(xs: seq<real>)
    ensures if xs == [] then Mean(xs) == 0.0 else Mean(xs) * |xs| as real == Added(xs)
  {
    SumExactly(xs);
    hide Sum, Added;
  }

  /** In the overall score CPUs count 30, memory 25, disks 25 and interfaces 20 percent, clamped to 0..100. */
  lemma OverallExactly(info: MonitorInfo)
    ensures var x := 30.0 * Mean(CoreScores(info)) + 25.0 * MemoryScore(info)
                     + 25.0 * Mean(DiskScores(info)) + 20.0 * Mean(NetScores(info));
            100.0 * Overall(info) == if x < 0.0 then 0.0 else if x > 10000.0 then 10000.0 else x
  {
    hide CoreScores, DiskScores, NetScores, Mean, MemoryScore;
  }

  /** What one part alone contributes. */
  lemma OnePartAlone(info: MonitorInfo)
    requires Sane(info)
    ensures info.memInfo.None? && info.diskInfo == [] && info.netInfo == [] ==>
              Overall(info) == 3.0 / 10.0 * Mean(CoreScores(info))
    ensures info.cpuStat == [] && info.diskInfo == [] && info.netInfo == [] ==>
              Overall(info) == MemoryScore(info) / 4.0
    ensures info.cpuStat == [] && info.memInfo.None? && info.netInfo == [] ==>
              Overall(info) == Mean(DiskScores(info)) / 4.0
    ensures info.cpuStat == [] && info.memInfo.None? && info.diskInfo == [] ==>
              Overall(info) == Mean(NetScores(info)) / 5.0
  {
    ScoresInRange(info);
    MemoryUnknown(info);
    assert info.cpuStat == [] ==> CoreScores(info) == [];
    assert info.diskInfo == [] ==> DiskScores(info) == [];
    assert info.netInfo == [] ==> NetScores(info) == [];
    MeanExactly([]);
    hide CoreScores, DiskScores, NetScores, Mean, MemoryScore, Overall, Sane;
  }
}
