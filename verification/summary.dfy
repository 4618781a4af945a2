/** The hourly summary query: three LEFT JOINs on host and time window, then aggregates over the joined rows. */
module Summaries {
  import opened Words
  import opened Proto

  datatype Row<V> = Row(hostId: string, ts: int, v: V)

  datatype CpuVal = CpuVal(cpuName: string, cpuPercent: real, load1: real)
  datatype MemVal = MemVal(usedPercent: real, availableGb: real)
  datatype DiskVal = DiskVal(diskName: string, util: real, readIops: real, writeIops: real,
                             readMbps: real, writeMbps: real)
  datatype NetVal = NetVal(interfaceName: string, sendRate: real, rcvRate: real)

  datatype Tables = Tables(cpu: seq<Row<CpuVal>>, softIrq: seq<Row<SoftIrq>>, mem: seq<Row<MemVal>>,
                           disk: seq<Row<DiskVal>>, net: seq<Row<NetVal>>)

  /** A row of the joined relation. */
  datatype Joined = Joined(cpu: Row<CpuVal>, mem: Option<MemVal>, disk: Option<DiskVal>, net: Option<NetVal>)

  const HOUR := 3600

  /** `timestamp >= DATE_SUB(bucket, INTERVAL 1 HOUR) AND timestamp <= bucket`. */
  predicate InWindow(ts: int, bucket: int) {
    bucket - HOUR <= ts <= bucket
  }

  /** The values of one host in the window, in table order. */
  function Matches<V>(rows: seq<Row<V>>, hostId: string, bucket: int): seq<V> {
    if rows == [] then []
    else (if rows[0].hostId == hostId && InWindow(rows[0].ts, bucket) then [rows[0].v] else [])
         + Matches(rows[1..], hostId, bucket)
  }

  /** The right-hand side that a LEFT JOIN sees: the matches, or a single NULL. */
  function OrNull<V>(vs: seq<V>): seq<Option<V>> {
    if vs == [] then [None] else seq(|vs|, i requires 0 <= i < |vs| => Some(vs[i]))
  }

  function Extend<V>(j: Joined, vs: seq<Option<V>>, attach: (Joined, Option<V>) -> Joined): seq<Joined> {
    seq(|vs|, i requires 0 <= i < |vs| => attach(j, vs[i]))
  }

  function LeftJoin<V>(js: seq<Joined>, rows: seq<Row<V>>, bucket: int, attach: (Joined, Option<V>) -> Joined)
    : seq<Joined>
  {
    if js == [] then []
    else
      Extend(js[0], OrNull(Matches(rows, js[0].cpu.hostId, bucket)), attach)
      + LeftJoin(js[1..], rows, bucket, attach)
  }

  function FromCpu(rows: seq<Row<CpuVal>>): seq<Joined> {
    seq(|rows|, i requires 0 <= i < |rows| => Joined(rows[i], None, None, None))
  }

  function AttachMem(j: Joined, m: Option<MemVal>): Joined { j.(mem := m) }
  function AttachDisk(j: Joined, d: Option<DiskVal>): Joined { j.(disk := d) }
  function AttachNet(j: Joined, n: Option<NetVal>): Joined { j.(net := n) }

  predicate Wanted(j: Joined, hostId: string, bucket: int) {
    j.cpu.hostId == hostId && InWindow(j.cpu.ts, bucket)
  }

  function Where(js: seq<Joined>, hostId: string, bucket: int): seq<Joined> {
    if js == [] then []
    else (if Wanted(js[0], hostId, bucket) then [js[0]] else []) + Where(js[1..], hostId, bucket)
  }

  function JoinAll(js: seq<Joined>, t: Tables, bucket: int): seq<Joined> {
    LeftJoin(LeftJoin(LeftJoin(js, t.mem, bucket, AttachMem), t.disk, bucket, AttachDisk), t.net, bucket, AttachNet)
  }

  // ---------------------------------------------------------------- aggregates, which skip NULL

  function Count(vs: seq<Option<real>>): nat {
    if vs == [] then 0 else (if vs[0].Some? then 1 else 0) + Count(vs[1..])
  }

  function Total(vs: seq<Option<real>>): real {
    if vs == [] then 0.0 else OrZero(vs[0]) + Total(vs[1..])
  }

  function OrZero(v: Option<real>): real {
    if v.Some? then v.value else 0.0
  }

  function Avg(vs: seq<Option<real>>): Option<real> {
    if Count(vs) == 0 then None else Some(Total(vs) / Count(vs) as real)
  }

  /** MAX for `up`, MIN otherwise. */
  function Extreme(vs: seq<Option<real>>, up: bool): Option<real> {
    if vs == [] then None
    else
      var rest := Extreme(vs[1..], up);
      if vs[0].None? then rest
      else if rest.None? || (if up then vs[0].value >= rest.value else vs[0].value <= rest.value) then vs[0]
      else rest
  }

  function Column(js: seq<Joined>, col: Joined -> Option<real>): seq<Option<real>> {
    seq(|js|, i requires 0 <= i < |js| => col(js[i]))
  }

  function CpuPercent(c: CpuVal): real { c.cpuPercent }
  function Load1(c: CpuVal): real { c.load1 }
  function UsedPercent(m: MemVal): real { m.usedPercent }
  function AvailableGb(m: MemVal): real { m.availableGb }
  function Util(d: DiskVal): real { d.util }
  function Iops(d: DiskVal): real { d.readIops + d.writeIops }
  function DiskMbps(d: DiskVal): real { d.readMbps + d.writeMbps }
  function NetMbps(n: NetVal): real { n.sendRate + n.rcvRate }

  /** An expression over a column that may be NULL. */
  function Lift<V>(v: Option<V>, e: V -> real): Option<real> {
    if v.None? then None else Some(e(v.value))
  }

  function OfCpu(e: CpuVal -> real): Joined -> Option<real> { (j: Joined) => Some(e(j.cpu.v)) }
  function OfMem(e: MemVal -> real): Joined -> Option<real> { (j: Joined) => Lift(j.mem, e) }
  function OfDisk(e: DiskVal -> real): Joined -> Option<real> { (j: Joined) => Lift(j.disk, e) }
  function OfNet(e: NetVal -> real): Joined -> Option<real> { (j: Joined) => Lift(j.net, e) }

  datatype Summary = Summary(avgCpu: Option<real>, maxCpu: Option<real>, avgLoad: Option<real>, maxLoad: Option<real>,
                             avgMemory: Option<real>, maxMemory: Option<real>, minAvailable: Option<real>,
                             maxDiskUtil: Option<real>, avgIops: Option<real>, peakDisk: Option<real>,
                             avgNet: Option<real>, peakNet: Option<real>)

  /** The SELECT: joins, WHERE, GROUP BY. No group, no row. */
  function Query(t: Tables, hostId: string, bucket: int): Option<Summary> {
    var js := Where(JoinAll(FromCpu(t.cpu), t, bucket), hostId, bucket);
    if js == [] then None
    else Some(Summary(
      Avg(Column(js, OfCpu(CpuPercent))), Extreme(Column(js, OfCpu(CpuPercent)), true),
      Avg(Column(js, OfCpu(Load1))), Extreme(Column(js, OfCpu(Load1)), true),
      Avg(Column(js, OfMem(UsedPercent))), Extreme(Column(js, OfMem(UsedPercent)), true),
      Extreme(Column(js, OfMem(AvailableGb)), false),
      Extreme(Column(js, OfDisk(Util)), true), Avg(Column(js, OfDisk(Iops))),
      Extreme(Column(js, OfDisk(DiskMbps)), true),
      Avg(Column(js, OfNet(NetMbps))), Extreme(Column(js, OfNet(NetMbps)), true)))
  }

  /** What the columns are meant to be: each aggregate over its own table. */
  function Own<V>(rows: seq<Row<V>>, hostId: string, bucket: int, e: V -> real): seq<Option<real>> {
    var vs := Matches(rows, hostId, bucket);
    seq(|vs|, i requires 0 <= i < |vs| => Some(e(vs[i])))
  }

  function PerTable(t: Tables, h: string, b: int): Option<Summary> {
    if Matches(t.cpu, h, b) == [] then None
    else Some(Summary(
      Avg(Own(t.cpu, h, b, CpuPercent)), Extreme(Own(t.cpu, h, b, CpuPercent), true),
      Avg(Own(t.cpu, h, b, Load1)), Extreme(Own(t.cpu, h, b, Load1), true),
      Avg(Own(t.mem, h, b, UsedPercent)), Extreme(Own(t.mem, h, b, UsedPercent), true),
      Extreme(Own(t.mem, h, b, AvailableGb), false),
      Extreme(Own(t.disk, h, b, Util), true), Avg(Own(t.disk, h, b, Iops)), Extreme(Own(t.disk, h, b, DiskMbps), true),
      Avg(Own(t.net, h, b, NetMbps)), Extreme(Own(t.net, h, b, NetMbps), true)))
  }

  // ---------------------------------------------------------------- joins as products

  ghost predicate KeepsCpu<V(!new)>(attach: (Joined, Option<V>) -> Joined) {
    forall j: Joined, v: Option<V> :: attach(j, v).cpu == j.cpu
  }

  lemma {:induction false} WhereConcat(a: seq<Joined>, b: seq<Joined>, h: string, bucket: int)
    ensures Where(a + b, h, bucket) == Where(a, h, bucket) + Where(b, h, bucket)
  {
    hide Wanted;
    if a == [] {
      assert a + b == b;
    } else {
      assert (a + b)[0] == a[0] && (a + b)[1..] == a[1..] + b;
      WhereConcat(a[1..], b, h, bucket);
      var first := if Wanted(a[0], h, bucket) then [a[0]] else [];
      assert Where(a, h, bucket) == first + Where(a[1..], h, bucket);
    }
  }

  lemma {:induction false} WhereAllOrNone(js: seq<Joined>, keep: bool, h: string, bucket: int)
    requires forall j :: j in js ==> Wanted(j, h, bucket) == keep
    ensures Where(js, h, bucket) == if keep then js else []
  {
    if js != [] {
      assert forall j :: j in js[1..] ==> j in js;
      WhereAllOrNone(js[1..], keep, h, bucket);
    }
  }

  /** The WHERE clause may be applied before the joins. */
  lemma {:induction false} WhereBeforeJoin<V(!new)>(js: seq<Joined>, rows: seq<Row<V>>, b: int,
                                                    attach: (Joined, Option<V>) -> Joined, h: string)
    requires KeepsCpu(attach)
    ensures Where(LeftJoin(js, rows, b, attach), h, b) == LeftJoin(Where(js, h, b), rows, b, attach)
  {
    if js != [] {
      var j := js[0];
      var some := Extend(j, OrNull(Matches(rows, j.cpu.hostId, b)), attach);
      WhereConcat(some, LeftJoin(js[1..], rows, b, attach), h, b);
      WhereAllOrNone(some, Wanted(j, h, b), h, b);
      WhereBeforeJoin(js[1..], rows, b, attach, h);
      var rest := Where(js[1..], h, b);
      if Wanted(j, h, b) {
        assert Where(js, h, b) == [j] + rest && ([j] + rest)[1..] == rest;
        assert LeftJoin([j] + rest, rows, b, attach) == some + LeftJoin(rest, rows, b, attach);
      } else {
        assert Where(js, h, b) == rest;
      }
    }
  }

  function Product<V>(js: seq<Joined>, vs: seq<Option<V>>, attach: (Joined, Option<V>) -> Joined): seq<Joined> {
    if js == [] then [] else Extend(js[0], vs, attach) + Product(js[1..], vs, attach)
  }

  ghost predicate AllOf(js: seq<Joined>, h: string) {
    forall j :: j in js ==> j.cpu.hostId == h
  }

  lemma {:induction false} JoinIsProduct<V(!new)>(js: seq<Joined>, rows: seq<Row<V>>, b: int,
                                                  attach: (Joined, Option<V>) -> Joined, h: string)
    requires KeepsCpu(attach) && AllOf(js, h)
    ensures LeftJoin(js, rows, b, attach) == Product(js, OrNull(Matches(rows, h, b)), attach)
    ensures AllOf(LeftJoin(js, rows, b, attach), h)
    ensures js != [] ==> LeftJoin(js, rows, b, attach) != []
  {
    if js != [] {
      assert js[0] in js && forall j :: j in js[1..] ==> j in js;
      JoinIsProduct(js[1..], rows, b, attach, h);
      var some := Extend(js[0], OrNull(Matches(rows, h, b)), attach);
      assert |some| > 0 && forall j :: j in some ==> j.cpu == js[0].cpu;
      assert forall j :: j in LeftJoin(js, rows, b, attach) ==> j in some || j in LeftJoin(js[1..], rows, b, attach);
    }
  }

  // ---------------------------------------------------------------- columns of a product

  function Repeat(v: Option<real>, n: nat): seq<Option<real>> {
    seq(n, _ => v)
  }

  /** Every value n times in place. */
  function Stutter(vs: seq<Option<real>>, n: nat): seq<Option<real>> {
    if vs == [] then [] else Repeat(vs[0], n) + Stutter(vs[1..], n)
  }

  /** The whole sequence n times over. */
  function Tile(vs: seq<Option<real>>, n: nat): seq<Option<real>> {
    if n == 0 then [] else vs + Tile(vs, n - 1)
  }

  /** A column of the left-hand side repeats each value once for each right-hand row. */
  lemma {:induction false} LeftColumn<V(!new)>(js: seq<Joined>, vs: seq<Option<V>>,
                                               attach: (Joined, Option<V>) -> Joined, col: Joined -> Option<real>)
    requires forall j: Joined, v: Option<V> :: col(attach(j, v)) == col(j)
    ensures Column(Product(js, vs, attach), col) == Stutter(Column(js, col), |vs|)
  {
    if js != [] {
      var rest := Product(js[1..], vs, attach);
      LeftColumn(js[1..], vs, attach, col);
      assert Column(js, col)[1..] == Column(js[1..], col);
      assert Column(Extend(js[0], vs, attach), col) == Repeat(col(js[0]), |vs|);
      assert Column(Extend(js[0], vs, attach) + rest, col) ==
             Column(Extend(js[0], vs, attach), col) + Column(rest, col);
    }
  }

  function RightValues<V>(vs: seq<Option<V>>, e: V -> real): seq<Option<real>> {
    seq(|vs|, i requires 0 <= i < |vs| => Lift(vs[i], e))
  }

  /** A column of the right-hand side comes once over for each left-hand row. */
  lemma {:induction false} RightColumn<V(!new)>(js: seq<Joined>, vs: seq<Option<V>>,
                                                attach: (Joined, Option<V>) -> Joined,
                                                col: Joined -> Option<real>, e: V -> real)
    requires forall j: Joined, v: Option<V> :: col(attach(j, v)) == Lift(v, e)
    ensures Column(Product(js, vs, attach), col) == Tile(RightValues(vs, e), |js|)
  {
    if js != [] {
      var rest := Product(js[1..], vs, attach);
      RightColumn(js[1..], vs, attach, col, e);
      assert Column(Extend(js[0], vs, attach), col) == RightValues(vs, e);
      assert Column(Extend(js[0], vs, attach) + rest, col) ==
             Column(Extend(js[0], vs, attach), col) + Column(rest, col);
    }
  }

  // ---------------------------------------------------------------- aggregates do not see repetition

  lemma {:induction false} SumsConcat(a: seq<Option<real>>, b: seq<Option<real>>)
    ensures Count(a + b) == Count(a) + Count(b)
    ensures Total(a + b) == Total(a) + Total(b)
  {
    if a == [] {
      assert a + b == b;
    } else {
      assert (a + b)[1..] == a[1..] + b;
      SumsConcat(a[1..], b);
    }
  }

  /** x added up n times. */
  function Times(n: nat, x: real): real {
    if n == 0 then 0.0 else x + Times(n - 1, x)
  }

  lemma {:induction false} TimesAdds(n: nat, x: real, y: real)
    ensures Times(n, x + y) == Times(n, x) + Times(n, y)
  {
    if n > 0 { TimesAdds(n - 1, x, y); }
  }

  lemma {:induction false} TimesIsProduct(n: nat, x: real)
    ensures Times(n, x) == n as real * x
  {
    if n > 0 { TimesIsProduct(n - 1, x); }
  }

  lemma {:induction false} SumsRepeat(v: Option<real>, n: nat)
    ensures Count(Repeat(v, n)) as real == Times(n, if v.Some? then 1.0 else 0.0)
    ensures Total(Repeat(v, n)) == Times(n, OrZero(v))
  {
    if n > 0 {
      assert Repeat(v, n)[1..] == Repeat(v, n - 1);
      SumsRepeat(v, n - 1);
    } else {
      assert Repeat(v, n) == [];
    }
  }

  lemma {:induction false} SumsStutter(vs: seq<Option<real>>, n: nat)
    ensures Count(Stutter(vs, n)) as real == Times(n, Count(vs) as real)
    ensures Total(Stutter(vs, n)) == Times(n, Total(vs))
  {
    if vs == [] {
      TimesAdds(n, 0.0, 0.0);
    } else {
      var rest := vs[1..];
      SumsRepeat(vs[0], n);
      SumsStutter(rest, n);
      SumsConcat(Repeat(vs[0], n), Stutter(rest, n));
      TimesAdds(n, OrZero(vs[0]), Total(rest));
      TimesAdds(n, if vs[0].Some? then 1.0 else 0.0, Count(rest) as real);
    }
  }

  lemma {:induction false} SumsTile(vs: seq<Option<real>>, n: nat)
    ensures Count(Tile(vs, n)) as real == Times(n, Count(vs) as real)
    ensures Total(Tile(vs, n)) == Times(n, Total(vs))
  {
    if n > 0 {
      SumsTile(vs, n - 1);
      SumsConcat(vs, Tile(vs, n - 1));
    }
  }

  lemma SameMean(s: real, c: real, n: real, s': real, c': real)
    requires n > 0.0 && c >= 0.0 && s' == n * s && c' == n * c
    ensures c == 0.0 <==> c' == 0.0
    ensures c > 0.0 ==> s' / c' == s / c
  {
    if c > 0.0 {
      assert c' > 0.0;
      assert (n * s) / (n * c) == s / c;
    }
  }

  lemma AvgScales(vs: seq<Option<real>>, ws: seq<Option<real>>, n: nat)
    requires n > 0 && Count(ws) as real == Times(n, Count(vs) as real) && Total(ws) == Times(n, Total(vs))
    ensures Avg(ws) == Avg(vs)
  {
    hide Count, Total, Times;
    TimesIsProduct(n, Total(vs));
    TimesIsProduct(n, Count(vs) as real);
    SameMean(Total(vs), Count(vs) as real, n as real, Total(ws), Count(ws) as real);
  }

  predicate BeatsAll(m: Option<real>, vs: seq<Option<real>>, up: bool) {
    if m.None? then forall v :: v in vs ==> v.None?
    else m in vs && forall v :: v in vs && v.Some? ==> if up then v.value <= m.value else m.value <= v.value
  }

  lemma {:induction false} ExtremeBeatsAll(vs: seq<Option<real>>, up: bool)
    ensures BeatsAll(Extreme(vs, up), vs, up)
  {
    if vs != [] {
      ExtremeBeatsAll(vs[1..], up);
      forall v | v in vs ensures v == vs[0] || v in vs[1..] { }
    }
  }

  /** MAX and MIN depend only on which values occur. */
  lemma ExtremeOfSameValues(vs: seq<Option<real>>, ws: seq<Option<real>>, up: bool)
    requires forall v :: v in vs <==> v in ws
    ensures Extreme(vs, up) == Extreme(ws, up)
  {
    ExtremeBeatsAll(vs, up);
    ExtremeBeatsAll(ws, up);
  }

  lemma {:induction false} StutterValues(vs: seq<Option<real>>, n: nat, v: Option<real>)
    requires n > 0
    ensures v in Stutter(vs, n) <==> v in vs
  {
    if vs != [] {
      assert Repeat(vs[0], n)[0] == vs[0];
      StutterValues(vs[1..], n, v);
    }
  }

  lemma {:induction false} TileValues(vs: seq<Option<real>>, n: nat, v: Option<real>)
    requires n > 0
    ensures v in Tile(vs, n) <==> v in vs
  {
    if n > 1 {
      TileValues(vs, n - 1, v);
    } else {
      assert Tile(vs, 1) == vs + Tile(vs, 0) == vs;
    }
  }

  /** Two columns that every aggregate takes for the same. */
  ghost predicate SameAggregates(vs: seq<Option<real>>, ws: seq<Option<real>>) {
    Avg(vs) == Avg(ws) && forall up: bool :: Extreme(vs, up) == Extreme(ws, up)
  }

  lemma AggregatesIgnoreStutter(vs: seq<Option<real>>, n: nat)
    requires n > 0
    ensures SameAggregates(Stutter(vs, n), vs)
  {
    SumsStutter(vs, n);
    AvgScales(vs, Stutter(vs, n), n);
    forall v: Option<real> ensures v in Stutter(vs, n) <==> v in vs { StutterValues(vs, n, v); }
    forall up: bool ensures Extreme(Stutter(vs, n), up) == Extreme(vs, up) {
      ExtremeOfSameValues(Stutter(vs, n), vs, up);
    }
  }

  lemma AggregatesIgnoreTile(vs: seq<Option<real>>, n: nat)
    requires n > 0
    ensures SameAggregates(Tile(vs, n), vs)
  {
    SumsTile(vs, n);
    AvgScales(vs, Tile(vs, n), n);
    forall v: Option<real> ensures v in Tile(vs, n) <==> v in vs { TileValues(vs, n, v); }
    forall up: bool ensures Extreme(Tile(vs, n), up) == Extreme(vs, up) {
      ExtremeOfSameValues(Tile(vs, n), vs, up);
    }
  }

  // ---------------------------------------------------------------- one join, seen by the aggregates

  lemma JoinKeepsLeft<V(!new)>(js: seq<Joined>, rows: seq<Row<V>>, b: int, attach: (Joined, Option<V>) -> Joined,
                               h: string, col: Joined -> Option<real>)
    requires KeepsCpu(attach) && AllOf(js, h)
    requires forall j: Joined, v: Option<V> :: col(attach(j, v)) == col(j)
    ensures SameAggregates(Column(LeftJoin(js, rows, b, attach), col), Column(js, col))
  {
    var vs := OrNull(Matches(rows, h, b));
    JoinIsProduct(js, rows, b, attach, h);
    LeftColumn(js, vs, attach, col);
    AggregatesIgnoreStutter(Column(js, col), |vs|);
  }

  lemma JoinBringsRight<V(!new)>(js: seq<Joined>, rows: seq<Row<V>>, b: int, attach: (Joined, Option<V>) -> Joined,
                                 h: string, col: Joined -> Option<real>, e: V -> real)
    requires KeepsCpu(attach) && AllOf(js, h) && js != []
    requires forall j: Joined, v: Option<V> :: col(attach(j, v)) == Lift(v, e)
    ensures SameAggregates(Column(LeftJoin(js, rows, b, attach), col), Own(rows, h, b, e))
  {
    var vs := OrNull(Matches(rows, h, b));
    JoinIsProduct(js, rows, b, attach, h);
    RightColumn(js, vs, attach, col, e);
    AggregatesIgnoreTile(RightValues(vs, e), |js|);
    if Matches(rows, h, b) == [] {
      assert RightValues(vs, e) == [None] && Own(rows, h, b, e) == [];
      assert Avg([None]) == None == Avg([]);
      assert forall up: bool :: Extreme([None], up) == Extreme([], up);
    } else {
      assert RightValues(vs, e) == Own(rows, h, b, e);
    }
  }

  // ---------------------------------------------------------------- the query

  lemma ColumnCons(j: Joined, js: seq<Joined>, col: Joined -> Option<real>)
    ensures Column([j] + js, col) == [col(j)] + Column(js, col)
  {
  }

  lemma OwnCons<V>(rows: seq<Row<V>>, h: string, b: int, e: V -> real)
    requires rows != []
    ensures Own(rows, h, b, e) ==
            (if rows[0].hostId == h && InWindow(rows[0].ts, b) then [Some(e(rows[0].v))] else [])
            + Own(rows[1..], h, b, e)
  {
  }

  lemma {:induction false} WhereOfCpu(rows: seq<Row<CpuVal>>, h: string, b: int, e: CpuVal -> real)
    ensures var js := Where(FromCpu(rows), h, b);
            AllOf(js, h) && |js| == |Matches(rows, h, b)| && Column(js, OfCpu(e)) == Own(rows, h, b, e)
  {
    if rows != [] {
      var rest := Where(FromCpu(rows[1..]), h, b);
      assert FromCpu(rows)[1..] == FromCpu(rows[1..]);
      WhereOfCpu(rows[1..], h, b, e);
      var j := FromCpu(rows)[0];
      OwnCons(rows, h, b, e);
      hide Own, Column;
      if Wanted(j, h, b) {
        assert Where(FromCpu(rows), h, b) == [j] + rest;
        ColumnCons(j, rest, OfCpu(e));
      }
    }
  }

  /** The relation the aggregates see, with the WHERE clause applied first. */
  lemma JoinedRows(t: Tables, h: string, b: int)
    ensures Where(JoinAll(FromCpu(t.cpu), t, b), h, b) == JoinAll(Where(FromCpu(t.cpu), h, b), t, b)
  {
    var js := FromCpu(t.cpu);
    var j1 := LeftJoin(js, t.mem, b, AttachMem);
    var j2 := LeftJoin(j1, t.disk, b, AttachDisk);
    WhereBeforeJoin(js, t.mem, b, AttachMem, h);
    WhereBeforeJoin(j1, t.disk, b, AttachDisk, h);
    WhereBeforeJoin(j2, t.net, b, AttachNet, h);
  }

  lemma CpuColumn(t: Tables, h: string, b: int, e: CpuVal -> real)
    ensures SameAggregates(Column(JoinAll(Where(FromCpu(t.cpu), h, b), t, b), OfCpu(e)), Own(t.cpu, h, b, e))
  {
    var js := Where(FromCpu(t.cpu), h, b);
    var j1 := LeftJoin(js, t.mem, b, AttachMem);
    var j2 := LeftJoin(j1, t.disk, b, AttachDisk);
    WhereOfCpu(t.cpu, h, b, e);
    JoinIsProduct(js, t.mem, b, AttachMem, h);
    JoinIsProduct(j1, t.disk, b, AttachDisk, h);
    JoinKeepsLeft(js, t.mem, b, AttachMem, h, OfCpu(e));
    JoinKeepsLeft(j1, t.disk, b, AttachDisk, h, OfCpu(e));
    JoinKeepsLeft(j2, t.net, b, AttachNet, h, OfCpu(e));
  }

  lemma MemColumn(t: Tables, h: string, b: int, e: MemVal -> real)
    requires Matches(t.cpu, h, b) != []
    ensures SameAggregates(Column(JoinAll(Where(FromCpu(t.cpu), h, b), t, b), OfMem(e)), Own(t.mem, h, b, e))
  {
    var js := Where(FromCpu(t.cpu), h, b);
    var j1 := LeftJoin(js, t.mem, b, AttachMem);
    var j2 := LeftJoin(j1, t.disk, b, AttachDisk);
    WhereOfCpu(t.cpu, h, b, CpuPercent);
    JoinIsProduct(js, t.mem, b, AttachMem, h);
    JoinIsProduct(j1, t.disk, b, AttachDisk, h);
    JoinBringsRight(js, t.mem, b, AttachMem, h, OfMem(e), e);
    JoinKeepsLeft(j1, t.disk, b, AttachDisk, h, OfMem(e));
    JoinKeepsLeft(j2, t.net, b, AttachNet, h, OfMem(e));
  }

  lemma DiskColumn(t: Tables, h: string, b: int, e: DiskVal -> real)
    requires Matches(t.cpu, h, b) != []
    ensures SameAggregates(Column(JoinAll(Where(FromCpu(t.cpu), h, b), t, b), OfDisk(e)), Own(t.disk, h, b, e))
  {
    var js := Where(FromCpu(t.cpu), h, b);
    var j1 := LeftJoin(js, t.mem, b, AttachMem);
    var j2 := LeftJoin(j1, t.disk, b, AttachDisk);
    WhereOfCpu(t.cpu, h, b, CpuPercent);
    JoinIsProduct(js, t.mem, b, AttachMem, h);
    JoinIsProduct(j1, t.disk, b, AttachDisk, h);
    JoinBringsRight(j1, t.disk, b, AttachDisk, h, OfDisk(e), e);
    JoinKeepsLeft(j2, t.net, b, AttachNet, h, OfDisk(e));
  }

  lemma NetColumn(t: Tables, h: string, b: int, e: NetVal -> real)
    requires Matches(t.cpu, h, b) != []
    ensures JoinAll(Where(FromCpu(t.cpu), h, b), t, b) != []
    ensures SameAggregates(Column(JoinAll(Where(FromCpu(t.cpu), h, b), t, b), OfNet(e)), Own(t.net, h, b, e))
  {
    var js := Where(FromCpu(t.cpu), h, b);
    var j1 := LeftJoin(js, t.mem, b, AttachMem);
    var j2 := LeftJoin(j1, t.disk, b, AttachDisk);
    WhereOfCpu(t.cpu, h, b, CpuPercent);
    JoinIsProduct(js, t.mem, b, AttachMem, h);
    JoinIsProduct(j1, t.disk, b, AttachDisk, h);
    JoinIsProduct(j2, t.net, b, AttachNet, h);
    JoinBringsRight(j2, t.net, b, AttachNet, h, OfNet(e), e);
  }

  /** The fan-out of the joins is harmless: every AVG, MAX and MIN equals the same aggregate over its own table, NULL
      exactly when that table has nothing in the window; and with no CPU rows there is no summary row. */
  lemma FanOutIsHarmless(t: Tables, h: string, b: int)
    ensures Query(t, h, b) == PerTable(t, h, b)
  {
    JoinedRows(t, h, b);
    if Matches(t.cpu, h, b) == [] {
      WhereOfCpu(t.cpu, h, b, CpuPercent);
    } else {
      CpuColumn(t, h, b, CpuPercent);
      CpuColumn(t, h, b, Load1);
      MemColumn(t, h, b, UsedPercent);
      MemColumn(t, h, b, AvailableGb);
      DiskColumn(t, h, b, Util);
      DiskColumn(t, h, b, Iops);
      DiskColumn(t, h, b, DiskMbps);
      NetColumn(t, h, b, NetMbps);
    }
  }

  /** An aggregate is NULL exactly when its own table has no row in the window. */
  lemma NullExactlyWhenEmpty<V>(rows: seq<Row<V>>, h: string, b: int, e: V -> real, up: bool)
    ensures Avg(Own(rows, h, b, e)).None? <==> Matches(rows, h, b) == []
    ensures Extreme(Own(rows, h, b, e), up).None? <==> Matches(rows, h, b) == []
  {
    var vs := Own(rows, h, b, e);
    if vs != [] {
      assert vs[0].Some?;
    }
  }

  // ---------------------------------------------------------------- what an aggregate is

  /** A table's matches, row by row: a row counts for its host if its time lies in the hour up to the bucket, both ends
      included. */
  lemma {:induction false} MatchesExactly<V(!new)>(rows: seq<Row<V>>, r: Row<V>, h: string, b: int)
    ensures Matches<V>([], h, b) == []
    ensures Matches(rows + [r], h, b) ==
            Matches(rows, h, b) + if r.hostId == h && b - 3600 <= r.ts <= b then [r.v] else []
  {
    assert InWindow(r.ts, b) <==> b - 3600 <= r.ts <= b;
    hide InWindow;
    var last := if r.hostId == h && InWindow(r.ts, b) then [r.v] else [];
    if rows == [] {
      assert [r][1..] == [] && Matches([r], h, b) == last + [];
    } else {
      var all, first := rows + [r], if rows[0].hostId == h && InWindow(rows[0].ts, b) then [rows[0].v] else [];
      assert all[0] == rows[0] && all[1..] == rows[1..] + [r];
      MatchesExactly(rows[1..], r, h, b);
      assert Matches(all, h, b) == first + Matches(all[1..], h, b);
      assert Matches(rows, h, b) == first + Matches(rows[1..], h, b);
    }
  }

  /** The values that are not NULL. */
  function Given(vs: seq<Option<real>>): seq<real> {
    if vs == [] then []
    else
      var last := vs[|vs| - 1];
      Given(vs[..|vs| - 1]) + if last.Some? then [last.value] else []
  }

  function SumOf(xs: seq<real>): real {
    if xs == [] then 0.0 else SumOf(xs[..|xs| - 1]) + xs[|xs| - 1]
  }

  lemma {:induction false} CountAndTotal(vs: seq<Option<real>>)
    ensures Count(vs) == |Given(vs)| && Total(vs) == SumOf(Given(vs))
  {
    if vs != [] {
      var n := |vs| - 1;
      var before, last := vs[..n], vs[n];
      CountAndTotal(before);
      SumsConcat(before, [last]);
      assert vs == before + [last];
      assert Count([last]) == (if last.Some? then 1 else 0) && Total([last]) == OrZero(last);
      if last.Some? {
        var xs := Given(before) + [last.value];
        assert Given(vs) == xs && xs[..|xs| - 1] == Given(before);
      } else {
        assert Given(vs) == Given(before) + [] == Given(before);
      }
    }
  }

  ghost predicate IsAvg(x: Option<real>, xs: seq<real>) {
    if xs == [] then x == None else x.Some? && x.value * |xs| as real == SumOf(xs)
  }

  ghost predicate IsMax(x: Option<real>, xs: seq<real>) {
    if xs == [] then x == None else x.Some? && x.value in xs && forall y :: y in xs ==> y <= x.value
  }

  ghost predicate IsMin(x: Option<real>, xs: seq<real>) {
    if xs == [] then x == None else x.Some? && x.value in xs && forall y :: y in xs ==> y >= x.value
  }

  /** AVG is the sum of the values that are not NULL divided by their number, and NULL if there are none. */
  lemma AvgExactly(vs: seq<Option<real>>)
    ensures IsAvg(Avg(vs), Given(vs))
  {
    CountAndTotal(vs);
    hide Count, Total, SumOf, Given;
  }

  lemma {:induction false} GivenValues(vs: seq<Option<real>>, x: real)
    ensures x in Given(vs) <==> Some(x) in vs
  {
    if vs != [] {
      var n := |vs| - 1;
      GivenValues(vs[..n], x);
      assert vs == vs[..n] + [vs[n]];
    }
  }

  /** MAX and MIN are the largest and the smallest of them, and NULL if there are none. */
  lemma ExtremeExactly(vs: seq<Option<real>>)
    ensures IsMax(Extreme(vs, true), Given(vs)) && IsMin(Extreme(vs, false), Given(vs))
  {
    ExtremeBeatsAll(vs, true);
    ExtremeBeatsAll(vs, false);
    forall x: real ensures x in Given(vs) <==> Some(x) in vs { GivenValues(vs, x); }
    if Given(vs) != [] { assert Given(vs)[0] in Given(vs); }
    hide Given, Extreme;
  }

  /** The twelve columns, each from the matching values of its own table. */
  ghost predicate SummaryOf(q: Summary, cpu: seq<CpuVal>, mem: seq<MemVal>, disk: seq<DiskVal>, net: seq<NetVal>) {
    var percents := seq(|cpu|, i requires 0 <= i < |cpu| => cpu[i].cpuPercent);
    var loads := seq(|cpu|, i requires 0 <= i < |cpu| => cpu[i].load1);
    var used := seq(|mem|, i requires 0 <= i < |mem| => mem[i].usedPercent);
    var available := seq(|mem|, i requires 0 <= i < |mem| => mem[i].availableGb);
    var utils := seq(|disk|, i requires 0 <= i < |disk| => disk[i].util);
    var iops := seq(|disk|, i requires 0 <= i < |disk| => disk[i].readIops + disk[i].writeIops);
    var diskMbps := seq(|disk|, i requires 0 <= i < |disk| => disk[i].readMbps + disk[i].writeMbps);
    var netMbps := seq(|net|, i requires 0 <= i < |net| => net[i].sendRate + net[i].rcvRate);
    && IsAvg(q.avgCpu, percents) && IsMax(q.maxCpu, percents)
    && IsAvg(q.avgLoad, loads) && IsMax(q.maxLoad, loads)
    && IsAvg(q.avgMemory, used) && IsMax(q.maxMemory, used)
    && IsMin(q.minAvailable, available)
    && IsMax(q.maxDiskUtil, utils) && IsAvg(q.avgIops, iops) && IsMax(q.peakDisk, diskMbps)
    && IsAvg(q.avgNet, netMbps) && IsMax(q.peakNet, netMbps)
  }

  lemma {:induction false} GivenAll(vs: seq<Option<real>>, xs: seq<real>)
    requires |vs| == |xs| && forall i :: 0 <= i < |vs| ==> vs[i] == Some(xs[i])
    ensures Given(vs) == xs
  {
    if vs != [] {
      var n := |vs| - 1;
      GivenAll(vs[..n], xs[..n]);
      assert xs == xs[..n] + [xs[n]];
    }
  }

  lemma OwnAggregates<V>(rows: seq<Row<V>>, h: string, b: int, e: V -> real, xs: seq<real>)
    requires var vs := Matches(rows, h, b); |xs| == |vs| && forall i :: 0 <= i < |vs| ==> xs[i] == e(vs[i])
    ensures IsAvg(Avg(Own(rows, h, b, e)), xs)
    ensures IsMax(Extreme(Own(rows, h, b, e), true), xs) && IsMin(Extreme(Own(rows, h, b, e), false), xs)
  {
    var vs := Own(rows, h, b, e);
    GivenAll(vs, xs);
    AvgExactly(vs);
    ExtremeExactly(vs);
    hide Matches, Own, Avg, Extreme, Given, IsAvg, IsMax, IsMin;
  }

  /** The query in full, for all tables: there is a summary exactly if the host has CPU rows in the window, and each column
      is the average, the largest or the smallest of the matching values of its own table. */
  lemma QueryExactly(t: Tables, h: string, b: int)
    ensures var q := Query(t, h, b);
            && (q.None? <==> Matches(t.cpu, h, b) == [])
            && (q.Some? ==>
                  SummaryOf(q.value, Matches(t.cpu, h, b), Matches(t.mem, h, b), Matches(t.disk, h, b), Matches(t.net, h, b)))
  {
    hide Query, Matches, Own, Avg, Extreme, IsAvg, IsMax, IsMin;
    FanOutIsHarmless(t, h, b);
    var cpu, mem, disk, net := Matches(t.cpu, h, b), Matches(t.mem, h, b), Matches(t.disk, h, b), Matches(t.net, h, b);
    OwnAggregates(t.cpu, h, b, CpuPercent, seq(|cpu|, i requires 0 <= i < |cpu| => cpu[i].cpuPercent));
    OwnAggregates(t.cpu, h, b, Load1, seq(|cpu|, i requires 0 <= i < |cpu| => cpu[i].load1));
    OwnAggregates(t.mem, h, b, UsedPercent, seq(|mem|, i requires 0 <= i < |mem| => mem[i].usedPercent));
    OwnAggregates(t.mem, h, b, AvailableGb, seq(|mem|, i requires 0 <= i < |mem| => mem[i].availableGb));
    OwnAggregates(t.disk, h, b, Util, seq(|disk|, i requires 0 <= i < |disk| => disk[i].util));
    OwnAggregates(t.disk, h, b, Iops, seq(|disk|, i requires 0 <= i < |disk| => disk[i].readIops + disk[i].writeIops));
    OwnAggregates(t.disk, h, b, DiskMbps, seq(|disk|, i requires 0 <= i < |disk| => disk[i].readMbps + disk[i].writeMbps));
    OwnAggregates(t.net, h, b, NetMbps, seq(|net|, i requires 0 <= i < |net| => net[i].sendRate + net[i].rcvRate));
  }
}
