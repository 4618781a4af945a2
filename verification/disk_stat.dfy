/** Disk rates and latencies from successive readings, over two caches that must stay in step. */
module DiskStats {
  import opened Words
  import opened Interfaces

  datatype DiskInfo = DiskInfo(name: string, readOps: u64, writeOps: u64, sectorsRead: u64, sectorsWritten: u64,
                               readTimeMs: u64, writeTimeMs: u64, ioInProgress: u64, ioTimeMs: u64,
                               weightedIoTimeMs: u64)

  datatype DiskMsg = DiskMsg(info: DiskInfo, readBytesPerSec: real, writeBytesPerSec: real, readIops: real,
                             writeIops: real, avgReadLatencyMs: real, avgWriteLatencyMs: real, utilPercent: real)

  datatype Seen = Seen(info: DiskInfo, at: real)

  type Cache = map<string, Seen>

  predicate IsVirtualDisk(name: string) {
    StartsWith(name, "loop") || StartsWith(name, "ram")
  }

  function Latency(time: u64, ios: u64): real {
    if ios > 0 then time as real / ios as real else 0.0
  }

  function PerSecond(count: u64, unit: real, dt: real): real
    requires dt > 0.0
  {
    count as real * unit / dt
  }

  function Utilisation(busyMs: u64, dt: real): real
    requires dt > 0.0
  {
    busyMs as real / (dt * 10.0)
  }

  function MsgOf(last: Option<Seen>, curr: DiskInfo, now: real): DiskMsg {
    if last.Some? && now - last.value.at > 0.0 then
      var prev, dt := last.value.info, now - last.value.at;
      var readIos, writeIos := Sub64(curr.readOps, prev.readOps), Sub64(curr.writeOps, prev.writeOps);
      DiskMsg(curr,
              PerSecond(Sub64(curr.sectorsRead, prev.sectorsRead), 512.0, dt),
              PerSecond(Sub64(curr.sectorsWritten, prev.sectorsWritten), 512.0, dt),
              PerSecond(readIos, 1.0, dt), PerSecond(writeIos, 1.0, dt),
              Latency(Sub64(curr.readTimeMs, prev.readTimeMs), readIos),
              Latency(Sub64(curr.writeTimeMs, prev.writeTimeMs), writeIos),
              Utilisation(Sub64(curr.ioTimeMs, prev.ioTimeMs), dt))
    else DiskMsg(curr, 0.0, 0.0, 0.0, 0.0, 0.0, 0.0, 0.0)
  }

  /** One line of `/proc/diskstats`, read at a time. */
  datatype Line = Line(info: DiskInfo, now: real)

  function Cached(cache: Cache, name: string): Option<Seen> {
    if name in cache then Some(cache[name]) else None
  }

  function Step(cache: Cache, l: Line): Cache {
    if IsVirtualDisk(l.info.name) then cache else cache[l.info.name := Seen(l.info, l.now)]
  }

  function After(cache: Cache, lines: seq<Line>): Cache
    decreases |lines|
  {
    if lines == [] then cache else After(Step(cache, lines[0]), lines[1..])
  }

  function MsgFor(cache: Cache, l: Line): seq<DiskMsg> {
    if IsVirtualDisk(l.info.name) then [] else [MsgOf(Cached(cache, l.info.name), l.info, l.now)]
  }

  function Messages(cache: Cache, lines: seq<Line>): seq<DiskMsg>
    decreases |lines|
  {
    if lines == [] then [] else MsgFor(cache, lines[0]) + Messages(Step(cache, lines[0]), lines[1..])
  }

  function AtTime(infos: seq<DiskInfo>, now: real): seq<Line> {
    seq(|infos|, i requires 0 <= i < |infos| => Line(infos[i], now))
  }

  class DiskMonitor {
    var previousDiskStats: map<string, DiskInfo>
    var lastTime: map<string, real>

    /** The two caches know the same disks. */
    ghost predicate Valid()
      reads this
    {
      previousDiskStats.Keys == lastTime.Keys
    }

    ghost function Contents(): Cache
      requires Valid()
      reads this
    {
      map name | name in previousDiskStats :: Seen(previousDiskStats[name], lastTime[name])
    }

    constructor ()
      ensures Valid() && Contents() == map[]
    {
      previousDiskStats := map[];
      lastTime := map[];
    }

    method UpdateOnce(infos: seq<DiskInfo>, now: real) returns (msgs: seq<DiskMsg>)
      requires Valid()
      modifies this
      ensures Valid()
      ensures Contents() == After(old(Contents()), AtTime(infos, now))
      ensures msgs == Messages(old(Contents()), AtTime(infos, now))
    {
      msgs := [];
      ghost var lines, before := AtTime(infos, now), Contents();
      for i := 0 to |infos|
        invariant Valid()
        invariant After(Contents(), lines[i..]) == After(before, lines)
        invariant msgs + Messages(Contents(), lines[i..]) == Messages(before, lines)
      {
        assert lines[i..][0] == Line(infos[i], now) && lines[i..][1..] == lines[i + 1..];
        var some := Process(infos[i], now);
        msgs := msgs + some;
      }
    }

    /** The loop body for one line. */
    method Process(curr: DiskInfo, now: real) returns (msgs: seq<DiskMsg>)
      requires Valid()
      modifies this
      ensures Valid()
      ensures Contents() == Step(old(Contents()), Line(curr, now))
      ensures msgs == MsgFor(old(Contents()), Line(curr, now))
    {
      if StartsWith(curr.name, "loop") || StartsWith(curr.name, "ram") {
        return [];
      }
      if curr.name in previousDiskStats {
        msgs := [MsgOf(Some(Seen(previousDiskStats[curr.name], lastTime[curr.name])), curr, now)];
      } else {
        msgs := [MsgOf(None, curr, now)];
      }
      previousDiskStats := previousDiskStats[curr.name := curr];
      lastTime := lastTime[curr.name := now];
    }
  }

  /** Several calls in a row are one call on all their lines. */
  lemma {:induction false} CallsCompose(cache: Cache, a: seq<Line>, b: seq<Line>)
    ensures After(cache, a + b) == After(After(cache, a), b)
    ensures Messages(cache, a + b) == Messages(cache, a) + Messages(After(cache, a), b)
    decreases |a|
  {
    hide Step, MsgFor;
    if a == [] {
      assert a + b == b;
    } else {
      assert (a + b)[1..] == a[1..] + b;
      CallsCompose(Step(cache, a[0]), a[1..], b);
    }
  }

  // ---------------------------------------------------------------- one message

  /** The lines that are not skipped. */
  ghost function Real(lines: seq<Line>): seq<Line>
    decreases |lines|
  {
    if lines == [] then []
    else
      (if exists rest: string :: lines[0].info.name == "loop" + rest || lines[0].info.name == "ram" + rest then []
       else [lines[0]])
      + Real(lines[1..])
  }

  lemma VirtualDiskExactly(name: string)
    ensures IsVirtualDisk(name) <==> exists rest: string :: name == "loop" + rest || name == "ram" + rest
  {
    hide StartsWith;
    PrefixAndRest(name, "loop");
    PrefixAndRest(name, "ram");
  }

  /** The last line before line `i` for the same disk. */
  function LastLine(lines: seq<Line>, i: nat, name: string): (j: Option<nat>)
    requires i <= |lines|
    ensures j.Some? ==> j.value < i && lines[j.value].info.name == name
  {
    if i == 0 then None
    else if lines[i - 1].info.name == name then Some(i - 1)
    else LastLine(lines, i - 1, name)
  }

  lemma {:induction false} NoneSinceLastLine(lines: seq<Line>, i: nat, name: string)
    requires i <= |lines|
    ensures var j := LastLine(lines, i, name);
            forall k :: (if j.Some? then j.value < k else 0 <= k) && k < i ==> lines[k].info.name != name
  {
    if i > 0 {
      NoneSinceLastLine(lines, i - 1, name);
    }
  }

  /** What the run has seen of the disk of line `i` before it: the last line for it, or what was cached. */
  function SeenBefore(cache: Cache, lines: seq<Line>, i: nat): Option<Seen>
    requires i < |lines|
  {
    var name := lines[i].info.name;
    var j := LastLine(lines, i, name);
    if j.Some? then Some(Seen(lines[j.value].info, lines[j.value].now)) else Cached(cache, name)
  }

  lemma {:induction false} SeenBeforeTail(cache: Cache, lines: seq<Line>, i: nat)
    requires 0 < i < |lines| && !IsVirtualDisk(lines[0].info.name)
    ensures SeenBefore(cache, lines, i) == SeenBefore(Step(cache, lines[0]), lines[1..], i - 1)
  {
    LastLineTail(lines, i, lines[i].info.name);
  }

  lemma {:induction false} LastLineTail(lines: seq<Line>, i: nat, name: string)
    requires 0 < i <= |lines|
    ensures var j := LastLine(lines[1..], i - 1, name);
            LastLine(lines, i, name) ==
            if j.Some? then Some(j.value + 1) else if lines[0].info.name == name then Some(0) else None
    decreases i
  {
    if i > 1 {
      LastLineTail(lines, i - 1, name);
    }
  }

  /** Skipped lines leave no trace. */
  lemma {:induction false} OnlyRealLines(cache: Cache, lines: seq<Line>)
    ensures Messages(cache, lines) == Messages(cache, Real(lines)) && After(cache, lines) == After(cache, Real(lines))
    decreases |lines|
  {
    hide MsgOf;
    if lines != [] {
      VirtualDiskExactly(lines[0].info.name);
      hide IsVirtualDisk;
      OnlyRealLines(Step(cache, lines[0]), lines[1..]);
      if IsVirtualDisk(lines[0].info.name) {
        assert Real(lines) == Real(lines[1..]) && Step(cache, lines[0]) == cache;
      } else {
        assert Real(lines)[0] == lines[0] && Real(lines)[1..] == Real(lines[1..]);
      }
    }
  }

  /** One message for each line that is not skipped, in order, each against the last reading of its own disk. */
  lemma {:induction false} MessageAt(cache: Cache, lines: seq<Line>, i: nat)
    requires forall l :: l in lines ==> !IsVirtualDisk(l.info.name)
    requires i < |lines|
    ensures |Messages(cache, lines)| == |lines|
    ensures Messages(cache, lines)[i] == MsgOf(SeenBefore(cache, lines, i), lines[i].info, lines[i].now)
    decreases |lines|
  {
    hide IsVirtualDisk, MsgOf;
    var first, rest := lines[0], lines[1..];
    assert first in lines && forall l :: l in rest ==> l in lines;
    var next := Step(cache, first);
    assert Messages(cache, lines) ==
           [MsgOf(Cached(cache, first.info.name), first.info, first.now)] + Messages(next, rest);
    if i > 0 {
      MessageAt(next, rest, i - 1);
      SeenBeforeTail(cache, lines, i);
    } else if rest != [] {
      MessageAt(next, rest, 0);
    }
  }

  /** `rate` times `dt` is `count`, each worth `unit`. */
  ghost predicate IsRate(rate: real, count: u64, unit: real, dt: real) {
    rate * dt == unit * count as real
  }

  /** `percent` times `dt`, at 10 ms for each percent and second, is `busyMs`. */
  ghost predicate IsUtilisation(percent: real, busyMs: u64, dt: real) {
    percent * 10.0 * dt == busyMs as real
  }

  /** `latency` times the operations is `time`; 0 without operations. */
  ghost predicate IsLatency(latency: real, time: u64, ops: u64) {
    if ops == 0 then latency == 0.0 else latency * ops as real == time as real
  }

  /** What the message of a line says, from the clocks and readings of that line and the last one for the disk: the
      counters themselves, and what they grew by over the time since, sectors being 512 bytes. Without an earlier line,
      or without time since it, every figure is zero. */
  ghost predicate Says(m: DiskMsg, l: Line, last: Option<Seen>) {
    m.info == l.info &&
    if last.None? || l.now <= last.value.at then
      && m.readBytesPerSec == 0.0 && m.writeBytesPerSec == 0.0 && m.readIops == 0.0 && m.writeIops == 0.0
      && m.avgReadLatencyMs == 0.0 && m.avgWriteLatencyMs == 0.0 && m.utilPercent == 0.0
    else
      var now, was, dt := l.info, last.value.info, l.now - last.value.at;
      && IsRate(m.readBytesPerSec, Sub64(now.sectorsRead, was.sectorsRead), 512.0, dt)
      && IsRate(m.writeBytesPerSec, Sub64(now.sectorsWritten, was.sectorsWritten), 512.0, dt)
      && IsRate(m.readIops, Sub64(now.readOps, was.readOps), 1.0, dt)
      && IsRate(m.writeIops, Sub64(now.writeOps, was.writeOps), 1.0, dt)
      && IsUtilisation(m.utilPercent, Sub64(now.ioTimeMs, was.ioTimeMs), dt)
      && IsLatency(m.avgReadLatencyMs, Sub64(now.readTimeMs, was.readTimeMs), Sub64(now.readOps, was.readOps))
      && IsLatency(m.avgWriteLatencyMs, Sub64(now.writeTimeMs, was.writeTimeMs), Sub64(now.writeOps, was.writeOps))
  }

  lemma MsgSays(last: Option<Seen>, l: Line)
    ensures Says(MsgOf(last, l.info, l.now), l, last)
  {
    hide Sub64, Latency, PerSecond, Utilisation, IsRate, IsUtilisation, IsLatency;
    if last.Some? && l.now > last.value.at {
      var now, was, dt := l.info, last.value.info, l.now - last.value.at;
      LatencyTimes(Sub64(now.readTimeMs, was.readTimeMs), Sub64(now.readOps, was.readOps));
      LatencyTimes(Sub64(now.writeTimeMs, was.writeTimeMs), Sub64(now.writeOps, was.writeOps));
      PerSecondTimes(Sub64(now.sectorsRead, was.sectorsRead), 512.0, dt);
      PerSecondTimes(Sub64(now.sectorsWritten, was.sectorsWritten), 512.0, dt);
      PerSecondTimes(Sub64(now.readOps, was.readOps), 1.0, dt);
      PerSecondTimes(Sub64(now.writeOps, was.writeOps), 1.0, dt);
      UtilisationTimes(Sub64(now.ioTimeMs, was.ioTimeMs), dt);
    }
  }

  lemma PerSecondTimes(count: u64, unit: real, dt: real)
    requires dt > 0.0
    ensures IsRate(PerSecond(count, unit, dt), count, unit, dt)
  {
  }

  lemma UtilisationTimes(busyMs: u64, dt: real)
    requires dt > 0.0
    ensures IsUtilisation(Utilisation(busyMs, dt), busyMs, dt)
  {
    var w, x := dt * 10.0, busyMs as real;
    assert x / w * w == x;
    var q := x / w;
    assert q * 10.0 * dt == q * w;
  }

  lemma LatencyTimes(time: u64, ios: u64)
    ensures IsLatency(Latency(time, ios), time, ios)
  {
  }

  /** Over any run, from the clocks and readings of the lines themselves. */
  lemma MessageFromClocks(cache: Cache, lines: seq<Line>, i: nat)
    requires i < |Real(lines)|
    ensures |Messages(cache, lines)| == |Real(lines)|
    ensures Says(Messages(cache, lines)[i], Real(lines)[i], SeenBefore(cache, Real(lines), i))
  {
    hide Says, MsgOf, Messages, SeenBefore;
    OnlyRealLines(cache, lines);
    RealIsReal(lines);
    MessageAt(cache, Real(lines), i);
    MsgSays(SeenBefore(cache, Real(lines), i), Real(lines)[i]);
  }

  lemma {:induction false} RealIsReal(lines: seq<Line>)
    ensures forall l :: l in Real(lines) ==> !IsVirtualDisk(l.info.name)
    decreases |lines|
  {
    if lines != [] {
      VirtualDiskExactly(lines[0].info.name);
      hide IsVirtualDisk;
      RealIsReal(lines[1..]);
    }
  }

  // ---------------------------------------------------------------- rates telescope

  datatype Metric = ReadBytes | WriteBytes | Reads | Writes | BusyMs

  function Count(d: DiskInfo, m: Metric): u64 {
    match m
    case ReadBytes => d.sectorsRead
    case WriteBytes => d.sectorsWritten
    case Reads => d.readOps
    case Writes => d.writeOps
    case BusyMs => d.ioTimeMs
  }

  /** What one count is worth in the metric's unit. */
  function Unit(m: Metric): real {
    match m case ReadBytes => 512.0 case WriteBytes => 512.0 case Reads => 1.0 case Writes => 1.0 case BusyMs => 1.0
  }

  /** What the message reports per second; 1 percent of utilisation is 10 ms of I/O time each second. */
  function RateOf(msg: DiskMsg, m: Metric): real {
    match m
    case ReadBytes => msg.readBytesPerSec
    case WriteBytes => msg.writeBytesPerSec
    case Reads => msg.readIops
    case Writes => msg.writeIops
    case BusyMs => msg.utilPercent * 10.0
  }

  /** Rate times the time since the last line for the disk. `last` follows the lines, not the cache. */
  function Reported(cache: Cache, last: Option<Seen>, l: Line, m: Metric): real {
    if last.Some? then RateOf(MsgOf(Cached(cache, l.info.name), l.info, l.now), m) * (l.now - last.value.at) else 0.0
  }

  function Sees(last: Option<Seen>, l: Line, name: string): Option<Seen> {
    if l.info.name == name then Some(Seen(l.info, l.now)) else last
  }

  lemma CacheFollows(cache: Cache, l: Line, name: string)
    requires !IsVirtualDisk(name)
    ensures Cached(Step(cache, l), name) == Sees(Cached(cache, name), l, name)
  {
  }

  lemma RateTimes(msg: DiskMsg, l: Line, last: Seen, m: Metric, rate: real, dt: real)
    requires Says(msg, l, Some(last)) && rate == RateOf(msg, m) && dt == l.now - last.at
    ensures rate * dt ==
            if l.now > last.at then Unit(m) * Sub64(Count(l.info, m), Count(last.info, m)) as real else 0.0
  {
    hide Sub64;
  }

  lemma ReportedIs(cache: Cache, last: Seen, l: Line, m: Metric, rate: real, dt: real)
    requires rate == RateOf(MsgOf(Cached(cache, l.info.name), l.info, l.now), m) && dt == l.now - last.at
    ensures Reported(cache, Some(last), l, m) == rate * dt
  {
    hide MsgOf, RateOf;
  }

  lemma OneLine(cache: Cache, last: Seen, l: Line, m: Metric)
    requires Cached(cache, l.info.name) == Some(last) && Count(last.info, m) <= Count(l.info, m)
    ensures Reported(cache, Some(last), l, m) ==
            if l.now > last.at then Unit(m) * (Count(l.info, m) - Count(last.info, m)) as real else 0.0
  {
    hide Reported, RateOf, MsgOf, Count, Says;
    var msg := MsgOf(Some(last), l.info, l.now);
    MsgSays(Some(last), l);
    RateTimes(msg, l, last, m, RateOf(msg, m), l.now - last.at);
    ReportedIs(cache, last, l, m, RateOf(msg, m), l.now - last.at);
  }

  ghost predicate RunGrows(last: Option<Seen>, lines: seq<Line>, name: string, m: Metric)
    decreases |lines|
  {
    lines == [] ||
    (var l := lines[0];
     && (l.info.name == name && last.Some? ==> Count(last.value.info, m) <= Count(l.info, m))
     && RunGrows(Sees(last, l, name), lines[1..], name, m))
  }

  function VolumeFrom(cache: Cache, last: Option<Seen>, lines: seq<Line>, name: string, m: Metric): real
    decreases |lines|
  {
    if lines == [] then 0.0
    else
      var l := lines[0];
      (if l.info.name == name then Reported(cache, last, l, m) else 0.0)
      + VolumeFrom(Step(cache, l), Sees(last, l, name), lines[1..], name, m)
  }

  function Volume(cache: Cache, lines: seq<Line>, name: string, m: Metric): real {
    VolumeFrom(cache, Cached(cache, name), lines, name, m)
  }

  /** Increments of readings taken within the same second as the one before; no rate reports them. */
  function Unreported(last: Option<Seen>, lines: seq<Line>, name: string, m: Metric): int
    decreases |lines|
  {
    if lines == [] then 0
    else
      var l := lines[0];
      (if l.info.name == name && last.Some? && l.now <= last.value.at
       then Count(l.info, m) - Count(last.value.info, m) else 0)
      + Unreported(Sees(last, l, name), lines[1..], name, m)
  }

  function FirstSeen(last: Option<Seen>, lines: seq<Line>, name: string): Option<Seen>
    decreases |lines|
  {
    if last.Some? || lines == [] then last else FirstSeen(Sees(last, lines[0], name), lines[1..], name)
  }

  function LastSeen(last: Option<Seen>, lines: seq<Line>, name: string): Option<Seen>
    decreases |lines|
  {
    if lines == [] then last else LastSeen(Sees(last, lines[0], name), lines[1..], name)
  }

  /** Over any run: bytes, operations and I/O time reported as rates over the time between the lines add up to what the
      counters grew by, less what fell into readings without elapsed time. */
  lemma {:induction false} RatesTelescope(cache: Cache, lines: seq<Line>, name: string, m: Metric)
    requires !IsVirtualDisk(name) && RunGrows(Cached(cache, name), lines, name, m)
    ensures var start := Cached(cache, name);
            var first, last := FirstSeen(start, lines, name), LastSeen(start, lines, name);
            && (first.Some? <==> last.Some?)
            && Volume(cache, lines, name, m) ==
               (if first.Some? then
                  Unit(m) * (Count(last.value.info, m) - Count(first.value.info, m)
                             - Unreported(start, lines, name, m)) as real
                else 0.0)
            && (first.None? ==> Unreported(start, lines, name, m) == 0)
    decreases |lines|
  {
    hide Reported, IsVirtualDisk;
    if lines != [] {
      var l, start := lines[0], Cached(cache, name);
      CacheFollows(cache, l, name);
      hide Step, Cached;
      RatesTelescope(Step(cache, l), lines[1..], name, m);
      if l.info.name == name {
        if start.Some? {
          OneLine(cache, start.value, l, m);
        } else {
          NothingBefore(cache, l, m);
        }
      }
    }
  }

  lemma NothingBefore(cache: Cache, l: Line, m: Metric)
    ensures Reported(cache, None, l, m) == 0.0
  {
  }
}
