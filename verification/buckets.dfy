/** When a summary is written, into which bucket, and which rows each bucket sees. Times are whole seconds since the
    epoch (UTC), or those plus the zone's offset (local). */
module Buckets {
  import opened Summaries

  /** `%H:00:00` of a local time. */
  function BucketOf(local: int): int {
    local - local % 3600
  }

  predicate IsBucket(b: int) {
    b % 3600 == 0
  }

  /** `minutes % 60 == 0` on the minutes since the epoch. */
  predicate UpdateDue(utc: int) {
    utc / 60 % 60 == 0
  }

  /** A time strictly inside an hour lies in exactly one bucket's window, a time on the hour in exactly two. */
  lemma WindowsOfTime(ts: int, b: int)
    requires IsBucket(b)
    ensures InWindow(ts, b) <==>
            if IsBucket(ts) then b == ts || b == ts + HOUR else b == BucketOf(ts) + HOUR
  {
    var q, k := ts / 3600, b / 3600;
    assert ts == 3600 * q + ts % 3600 && b == 3600 * k;
  }

  // ---------------------------------------------------------------- running an update again

  /** What may be appended to one table between two updates with bucket `b`: rows stamped at `b` or later. */
  ghost predicate Later<V(!new)>(more: seq<Row<V>>, b: int) {
    forall r :: r in more ==> r.ts >= b
  }

  lemma {:induction false} MatchesConcat<V>(x: seq<Row<V>>, y: seq<Row<V>>, h: string, b: int)
    ensures Matches(x + y, h, b) == Matches(x, h, b) + Matches(y, h, b)
  {
    if x == [] {
      assert x + y == y;
    } else {
      assert (x + y)[1..] == x[1..] + y;
      MatchesConcat(x[1..], y, h, b);
    }
  }

  lemma {:induction false} NoMatchesIffNoneAtBucket<V(!new)>(more: seq<Row<V>>, h: string, b: int)
    requires Later(more, b)
    ensures Matches(more, h, b) == [] <==> forall r :: r in more && r.hostId == h ==> r.ts != b
  {
    if more != [] {
      assert more[0] in more && forall r :: r in more[1..] ==> r in more;
      NoMatchesIffNoneAtBucket(more[1..], h, b);
      assert forall r :: r in more ==> r == more[0] || r in more[1..];
    }
  }

  /** The rows an update sees are unchanged by later rows exactly when none of them is stamped at the bucket time. */
  lemma SameRowsUnlessAtBucket<V(!new)>(rows: seq<Row<V>>, more: seq<Row<V>>, h: string, b: int)
    requires Later(more, b)
    ensures Matches(rows + more, h, b) == Matches(rows, h, b)
            <==> forall r :: r in more && r.hostId == h ==> r.ts != b
  {
    MatchesConcat(rows, more, h, b);
    NoMatchesIffNoneAtBucket(more, h, b);
    var x, y := Matches(rows, h, b), Matches(more, h, b);
    if y != [] { assert |x + y| > |x|; }
  }

  function Append(t: Tables, m: Tables): Tables {
    Tables(t.cpu + m.cpu, t.softIrq + m.softIrq, t.mem + m.mem, t.disk + m.disk, t.net + m.net)
  }

  ghost predicate NoneAt<V(!new)>(more: seq<Row<V>>, h: string, b: int) {
    Later(more, b) && forall r :: r in more && r.hostId == h ==> r.ts != b
  }

  /** Running the update again within the hour selects the same summary, unless a row of the host was stamped exactly
      at the bucket time in between. */
  lemma RerunSelectsTheSame(t: Tables, m: Tables, h: string, b: int)
    requires NoneAt(m.cpu, h, b) && NoneAt(m.mem, h, b) && NoneAt(m.disk, h, b) && NoneAt(m.net, h, b)
    ensures Query(Append(t, m), h, b) == Query(t, h, b)
  {
    FanOutIsHarmless(t, h, b);
    FanOutIsHarmless(Append(t, m), h, b);
    SameRowsUnlessAtBucket(t.cpu, m.cpu, h, b);
    SameRowsUnlessAtBucket(t.mem, m.mem, h, b);
    SameRowsUnlessAtBucket(t.disk, m.disk, h, b);
    SameRowsUnlessAtBucket(t.net, m.net, h, b);
  }

  // ---------------------------------------------------------------- no hour is missed

  /** A polling thread's clock readings, at most `gap` seconds apart. */
  ghost predicate Paced(ticks: seq<int>, gap: int) {
    forall i :: 0 < i < |ticks| ==> ticks[i - 1] <= ticks[i] <= ticks[i - 1] + gap
  }

  ghost predicate Covers(ticks: seq<int>, time: int) {
    |ticks| > 0 && ticks[0] <= time <= ticks[|ticks| - 1]
  }

  ghost predicate UpdatedIn(ticks: seq<int>, hour: int) {
    exists i :: 0 <= i < |ticks| && UpdateDue(ticks[i]) && BucketOf(ticks[i]) == hour
  }

  lemma {:induction false} FirstTickFrom(ticks: seq<int>, time: int) returns (i: nat)
    requires Covers(ticks, time)
    ensures i < |ticks| && ticks[i] >= time && (i > 0 ==> ticks[i - 1] < time)
  {
    if ticks[0] == time {
      i := 0;
    } else {
      assert Covers(ticks[1..], time) || ticks[1] > time;
      if ticks[1] >= time {
        i := 1;
      } else {
        var j := FirstTickFrom(ticks[1..], time);
        i := j + 1;
      }
    }
  }

  lemma DueInFirstMinute(utc: int, hour: int)
    requires IsBucket(hour)
    ensures hour <= utc < hour + 60 <==> UpdateDue(utc) && BucketOf(utc) == hour
  {
    BucketByBounds(utc, hour);
    var k := utc / 3600;
    var m := (utc - 3600 * k) / 60;
    assert utc / 60 == 60 * k + m && 0 <= m < 60;
  }

  /** Ticks at most 60 seconds apart hit the first minute of every hour they span. */
  lemma NoHourMissed(ticks: seq<int>, hour: int)
    requires Paced(ticks, 60) && Covers(ticks, hour) && IsBucket(hour)
    ensures UpdatedIn(ticks, hour)
  {
    var i := FirstTickFrom(ticks, hour);
    DueInFirstMinute(ticks[i], hour);
    if i == 0 {
      assert ticks[0] == hour;
    }
  }

  /** A larger spacing gives no such guarantee: two ticks around an hour can both miss it. The guarantee holds for a
      spacing exactly when it is at most a minute. */
  lemma GuaranteeExactlyUpToAMinute(gap: int)
    requires gap >= 0
    ensures (forall ticks: seq<int>, hour: int :: Paced(ticks, gap) && Covers(ticks, hour) && IsBucket(hour) ==>
               UpdatedIn(ticks, hour))
            <==> gap <= 60
  {
    if gap <= 60 {
      forall ticks: seq<int>, hour: int | Paced(ticks, gap) && Covers(ticks, hour) && IsBucket(hour)
        ensures UpdatedIn(ticks, hour)
      {
        assert Paced(ticks, 60);
        NoHourMissed(ticks, hour);
      }
    } else {
      var ticks := [3599, 3660];
      assert Paced(ticks, gap) && Covers(ticks, 3600) && IsBucket(3600);
      assert BucketOf(3599) == 0 && !UpdateDue(3660);
      assert !UpdatedIn(ticks, 3600);
    }
  }

  lemma BucketByBounds(t: int, b: int)
    requires IsBucket(b)
    ensures b <= t < b + HOUR <==> BucketOf(t) == b
  {
    var q, k := t / 3600, b / 3600;
    assert t == 3600 * q + t % 3600 && b == 3600 * k;
  }

  /** The UTC hour that begins within `HOUR` seconds from a whole minute leaves its first minute inside them. */
  lemma HourWithin(start: int) returns (hour: int)
    requires start % 60 == 0
    ensures IsBucket(hour) && start <= hour && hour + 60 <= start + HOUR
  {
    hour := if start % 3600 == 0 then start else BucketOf(start) + HOUR;
  }

  lemma WholeMinutes(local: int, zone: int)
    requires IsBucket(local) && zone % 60 == 0
    ensures (local - zone) % 60 == 0
  {
    var k, z := local / 3600, zone / 60;
    assert local == 3600 * k && zone == 60 * z;
    assert local - zone == 60 * (60 * k - z);
  }

  /** In local time, for any zone offset of whole minutes: every local hour that the ticks span gets an update whose
      bucket is that hour. */
  lemma EveryLocalHourGetsItsBucket(ticks: seq<int>, zone: int, local: int)
    requires Paced(ticks, 60) && IsBucket(local) && zone % 60 == 0
    requires |ticks| > 0 && ticks[0] <= local - zone && local - zone + HOUR <= ticks[|ticks| - 1]
    ensures exists i :: 0 <= i < |ticks| && UpdateDue(ticks[i]) && BucketOf(ticks[i] + zone) == local
  {
    hide BucketOf, UpdateDue, IsBucket, Paced;
    WholeMinutes(local, zone);
    var hour := HourWithin(local - zone);
    NoHourMissed(ticks, hour);
    var i :| 0 <= i < |ticks| && UpdateDue(ticks[i]) && BucketOf(ticks[i]) == hour;
    DueInFirstMinute(ticks[i], hour);
    BucketByBounds(ticks[i] + zone, local);
  }
}
