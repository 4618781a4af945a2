/** The per-CPU hash map `if_stats` and the two TC programs that fill it, as atomic steps that interleave freely:
    any number of program instances is in flight at once, on any CPUs, while user space copies one key's slots
    word by word. */
module IfStats {
  import opened Words

  const MAX_ENTRIES := 128

  datatype Counters = Counters(rcvBytes: u64, rcvPackets: u64, sndBytes: u64, sndPackets: u64)

  /** The words of `Counters`, in memory order. */
  datatype Field = RcvBytes | RcvPackets | SndBytes | SndPackets {
    function Ord(): nat {
      match this case RcvBytes => 0 case RcvPackets => 1 case SndBytes => 2 case SndPackets => 3
    }
  }

  const ZERO := Counters(0, 0, 0, 0)

  function Get(c: Counters, f: Field): u64 {
    match f
    case RcvBytes => c.rcvBytes
    case RcvPackets => c.rcvPackets
    case SndBytes => c.sndBytes
    case SndPackets => c.sndPackets
  }

  function Set(c: Counters, f: Field, v: u64): Counters {
    match f
    case RcvBytes => c.(rcvBytes := v)
    case RcvPackets => c.(rcvPackets := v)
    case SndBytes => c.(sndBytes := v)
    case SndPackets => c.(sndPackets := v)
  }

  datatype Direction = Ingress | Egress {
    function Bytes(): Field { if Ingress? then RcvBytes else SndBytes }
    function Packets(): Field { if Ingress? then RcvPackets else SndPackets }
  }

  datatype Packet = Packet(cpu: nat, ifindex: int, dir: Direction, len: nat)

  /** Where a program instance stands: about to do the named step, or finished (`Counted`, `Missed`). */
  datatype Pc = Lookup | Insert | Relookup | AddBytes | AddPackets | Counted | Missed

  datatype Program = Program(skb: Packet, pc: Pc)

  type Table = map<int, seq<Counters>>

  /** A `bpf_map_lookup_elem` call of user space that has copied every word before (`cpu`, `field`). */
  datatype Reader = Idle | Reading(key: int, cpu: nat, field: Field, values: seq<Counters>)

  datatype State = State(cpus: nat, table: Table, programs: seq<Program>, reader: Reader)

  datatype Event = Arrive(skb: Packet) | Advance(i: nat) | StartRead(key: int) | ReadWord

  // ---------------------------------------------------------------- steps

  /** `bpf_map_update_elem(..., BPF_NOEXIST)`: refuses a present key and a full map. */
  function UpdateNoExist(t: Table, cpus: nat, key: int): Table {
    if key in t || |t| >= MAX_ENTRIES then t else t[key := seq(cpus, _ => ZERO)]
  }

  function FetchAndAdd(t: Table, p: Packet, f: Field, n: nat): Table
    requires p.ifindex in t && p.cpu < |t[p.ifindex]|
  {
    var slots := t[p.ifindex];
    t[p.ifindex := slots[p.cpu := Set(slots[p.cpu], f, Add64(Get(slots[p.cpu], f), n))]]
  }

  /** One atomic step of a program instance. */
  function Execute(t: Table, cpus: nat, p: Program): (Table, Pc) {
    var skb := p.skb;
    match p.pc
    case Lookup => (t, if skb.ifindex in t then AddBytes else Insert)
    case Insert => (UpdateNoExist(t, cpus, skb.ifindex), Relookup)
    case Relookup => (t, if skb.ifindex in t then AddBytes else Missed)
    case AddBytes =>
      if skb.ifindex in t && skb.cpu < |t[skb.ifindex]|
      then (FetchAndAdd(t, skb, skb.dir.Bytes(), skb.len), AddPackets) else (t, p.pc)
    case AddPackets =>
      if skb.ifindex in t && skb.cpu < |t[skb.ifindex]|
      then (FetchAndAdd(t, skb, skb.dir.Packets(), 1), Counted) else (t, p.pc)
    case _ => (t, p.pc)
  }

  function NextField(f: Field): Field {
    match f
    case RcvBytes => RcvPackets
    case RcvPackets => SndBytes
    case SndBytes => SndPackets
    case SndPackets => RcvBytes
  }

  function CopyWord(t: Table, r: Reader): Reader {
    if r.Reading? && r.key in t && r.cpu < |t[r.key]| && r.cpu < |r.values| then
      r.(values := r.values[r.cpu := Set(r.values[r.cpu], r.field, Get(t[r.key][r.cpu], r.field))],
         cpu := if r.field == SndPackets then r.cpu + 1 else r.cpu,
         field := NextField(r.field))
    else r
  }

  /** An event that is not enabled leaves the state alone. */
  function Step(s: State, e: Event): State {
    match e
    case Arrive(skb) => if skb.cpu < s.cpus then s.(programs := s.programs + [Program(skb, Lookup)]) else s
    case Advance(i) =>
      if i < |s.programs| then
        var (t, pc) := Execute(s.table, s.cpus, s.programs[i]);
        s.(table := t, programs := s.programs[i := Program(s.programs[i].skb, pc)])
      else s
    case StartRead(key) =>
      if key in s.table then s.(reader := Reading(key, 0, RcvBytes, seq(s.cpus, _ => ZERO))) else s
    case ReadWord => s.(reader := CopyWord(s.table, s.reader))
  }

  function Run(s: State, es: seq<Event>): State
    decreases |es|
  {
    if es == [] then s else Run(Step(s, es[0]), es[1..])
  }

  function Boot(cpus: nat): State {
    State(cpus, map[], [], Idle)
  }

  // ---------------------------------------------------------------- accounting

  /** What one program instance adds to a tally. */
  datatype Tally = OnCpu(cpu: nat) | Done | Pending | Lost | Arrived

  /** What a packet is worth in a counter: ingress packets are received, egress packets are sent. */
  function Weight(skb: Packet, key: int, f: Field): nat {
    if skb.ifindex != key then 0
    else
      match f
      case RcvBytes => if skb.dir == Ingress then skb.len else 0
      case RcvPackets => if skb.dir == Ingress then 1 else 0
      case SndBytes => if skb.dir == Egress then skb.len else 0
      case SndPackets => if skb.dir == Egress then 1 else 0
  }

  /** Has this instance already performed the addition to word `f`? */
  predicate Added(p: Program, f: Field) {
    p.pc == Counted || (p.pc == AddPackets && (f == RcvBytes || f == SndBytes))
  }

  function Share(p: Program, t: Tally, key: int, f: Field): nat {
    var w := Weight(p.skb, key, f);
    match t
    case OnCpu(c) => if p.skb.cpu == c && Added(p, f) then w else 0
    case Done => if Added(p, f) then w else 0
    case Pending => if Added(p, f) || p.pc == Missed then 0 else w
    case Lost => if p.pc == Missed then w else 0
    case Arrived => w
  }

  function Shares(ps: seq<Program>, t: Tally, key: int, f: Field): seq<nat> {
    seq(|ps|, i requires 0 <= i < |ps| => Share(ps[i], t, key, f))
  }

  function Total(ps: seq<Program>, t: Tally, key: int, f: Field): nat {
    Sum(Shares(ps, t, key, f))
  }

  lemma TotalUpdate(ps: seq<Program>, i: nat, p: Program, t: Tally, key: int, f: Field)
    requires i < |ps|
    ensures Total(ps[i := p], t, key, f) + Share(ps[i], t, key, f) == Total(ps, t, key, f) + Share(p, t, key, f)
  {
    assert Shares(ps[i := p], t, key, f) == Shares(ps, t, key, f)[i := Share(p, t, key, f)];
    SumUpdate(Shares(ps, t, key, f), i, Share(p, t, key, f));
  }

  lemma TotalAppend(ps: seq<Program>, p: Program, t: Tally, key: int, f: Field)
    ensures Total(ps + [p], t, key, f) == Total(ps, t, key, f) + Share(p, t, key, f)
  {
    assert Shares(ps + [p], t, key, f) == Shares(ps, t, key, f) + [Share(p, t, key, f)];
    SumAppend(Shares(ps, t, key, f), Share(p, t, key, f));
  }

  lemma TotalZero(ps: seq<Program>, t: Tally, key: int, f: Field)
    requires forall p :: p in ps ==> Share(p, t, key, f) == 0
    ensures Total(ps, t, key, f) == 0
  {
    assert Shares(ps, t, key, f) == seq(|ps|, _ => 0);
    SumZero(|ps|);
  }

  lemma TotalBelow(ps: seq<Program>, t: Tally, u: Tally, key: int, f: Field)
    requires forall p :: p in ps ==> Share(p, t, key, f) <= Share(p, u, key, f)
    ensures Total(ps, t, key, f) <= Total(ps, u, key, f)
  {
    SumMonotone(Shares(ps, t, key, f), Shares(ps, u, key, f));
  }

  /** Every arrived byte or packet is done, pending or lost. */
  lemma {:induction false} Balance(ps: seq<Program>, key: int, f: Field)
    ensures Total(ps, Arrived, key, f) ==
            Total(ps, Done, key, f) + Total(ps, Pending, key, f) + Total(ps, Lost, key, f)
  {
    if ps != [] {
      var n := |ps| - 1;
      assert ps == ps[..n] + [ps[n]];
      Balance(ps[..n], key, f);
      forall t: Tally ensures Total(ps, t, key, f) == Total(ps[..n], t, key, f) + Share(ps[n], t, key, f) {
        TotalAppend(ps[..n], ps[n], t, key, f);
      }
    }
  }

  function PerCpu(ps: seq<Program>, cpus: nat, key: int, f: Field): seq<nat> {
    seq(cpus, c requires 0 <= c < cpus => Total(ps, OnCpu(c), key, f))
  }

  /** Summing the per-CPU tallies gives the tally over all CPUs. */
  lemma {:induction false} SumOverCpus(ps: seq<Program>, cpus: nat, key: int, f: Field)
    requires forall p :: p in ps ==> p.skb.cpu < cpus
    ensures Sum(PerCpu(ps, cpus, key, f)) == Total(ps, Done, key, f)
  {
    if ps == [] {
      assert PerCpu(ps, cpus, key, f) == seq(cpus, _ => 0);
      SumZero(cpus);
    } else {
      var n := |ps| - 1;
      var p := ps[n];
      assert ps == ps[..n] + [p];
      SumOverCpus(ps[..n], cpus, key, f);
      var before, c := PerCpu(ps[..n], cpus, key, f), p.skb.cpu;
      var x := Share(p, Done, key, f);
      forall c' | 0 <= c' < cpus
        ensures PerCpu(ps, cpus, key, f)[c'] == before[c := before[c] + x][c']
      {
        TotalAppend(ps[..n], p, OnCpu(c'), key, f);
      }
      assert PerCpu(ps, cpus, key, f) == before[c := before[c] + x];
      SumUpdate(before, c, before[c] + x);
      TotalAppend(ps[..n], p, Done, key, f);
    }
  }

  // ---------------------------------------------------------------- the invariant

  ghost predicate ProgramOk(s: State, p: Program) {
    && p.skb.cpu < s.cpus
    && (p.pc in {AddBytes, AddPackets, Counted} ==> p.skb.ifindex in s.table)
    && (p.pc == Relookup ==> p.skb.ifindex in s.table || |s.table| == MAX_ENTRIES)
    && (p.pc == Missed ==> p.skb.ifindex !in s.table && |s.table| == MAX_ENTRIES)
  }

  ghost predicate SlotsOk(s: State, key: int)
    requires key in s.table
  {
    && |s.table[key]| == s.cpus
    && forall c: nat, f: Field :: c < s.cpus ==>
         Get(s.table[key][c], f) == Low64(Total(s.programs, OnCpu(c), key, f))
  }

  ghost predicate Inv(s: State) {
    && |s.table| <= MAX_ENTRIES
    && (forall p :: p in s.programs ==> ProgramOk(s, p))
    && (forall key :: key in s.table ==> SlotsOk(s, key))
  }

  lemma ArriveKeepsInv(s: State, skb: Packet)
    requires Inv(s) && skb.cpu < s.cpus
    ensures Inv(Step(s, Arrive(skb)))
  {
    var s' := Step(s, Arrive(skb));
    forall key | key in s'.table ensures SlotsOk(s', key) {
      assert SlotsOk(s, key);
      forall c: nat, f: Field | c < s.cpus
        ensures Get(s'.table[key][c], f) == Low64(Total(s'.programs, OnCpu(c), key, f))
      {
        TotalAppend(s.programs, Program(skb, Lookup), OnCpu(c), key, f);
      }
    }
  }

  lemma InsertKeepsInv(s: State, i: nat)
    requires Inv(s) && i < |s.programs| && s.programs[i].pc == Insert
    ensures Inv(Step(s, Advance(i)))
  {
    var s' := Step(s, Advance(i));
    var p, key0 := s.programs[i], s.programs[i].skb.ifindex;
    assert ProgramOk(s, p);
    var p' := s'.programs[i];
    assert |s'.table| <= MAX_ENTRIES && (key0 !in s.table && key0 in s'.table ==> |s.table| < MAX_ENTRIES);
    forall q | q in s'.programs ensures ProgramOk(s', q) {
      if q != p' {
        assert q in s.programs && ProgramOk(s, q);
      }
    }
    forall key | key in s'.table ensures SlotsOk(s', key) {
      forall c: nat, f: Field | c < s.cpus
        ensures Get(s'.table[key][c], f) == Low64(Total(s'.programs, OnCpu(c), key, f))
      {
        TotalUpdate(s.programs, i, p', OnCpu(c), key, f);
        if key !in s.table {
          forall q | q in s.programs ensures Share(q, OnCpu(c), key, f) == 0 {
            assert ProgramOk(s, q);
          }
          TotalZero(s.programs, OnCpu(c), key, f);
        } else {
          assert SlotsOk(s, key);
        }
      }
    }
  }

  lemma AdvanceKeepsSlots(s: State, i: nat, key: int)
    requires Inv(s) && i < |s.programs| && s.programs[i].pc != Insert && key in s.table
    ensures var s' := Step(s, Advance(i)); s'.table.Keys == s.table.Keys && SlotsOk(s', key)
  {
    hide Total, Low64;
    var p := s.programs[i];
    var s' := Step(s, Advance(i));
    var p' := s'.programs[i];
    assert ProgramOk(s, p) && SlotsOk(s, key) && (p.skb.ifindex in s.table ==> SlotsOk(s, p.skb.ifindex));
    forall c: nat, f: Field | c < s.cpus
      ensures Get(s'.table[key][c], f) == Low64(Total(s'.programs, OnCpu(c), key, f))
    {
      TotalUpdate(s.programs, i, p', OnCpu(c), key, f);
      AddLow64(Total(s.programs, OnCpu(c), key, f), Weight(p.skb, key, f));
    }
  }

  lemma AdvanceKeepsPrograms(s: State, i: nat)
    requires Inv(s) && i < |s.programs| && s.programs[i].pc != Insert
    ensures var s' := Step(s, Advance(i)); forall q :: q in s'.programs ==> ProgramOk(s', q)
  {
    var p := s.programs[i];
    var s' := Step(s, Advance(i));
    assert ProgramOk(s, p);
    KeysKept(s, i);
    forall q | q in s'.programs ensures ProgramOk(s', q) {
      if q != s'.programs[i] {
        assert q in s.programs && ProgramOk(s, q);
      }
    }
  }

  lemma AdvanceKeepsInv(s: State, i: nat)
    requires Inv(s) && i < |s.programs|
    ensures Inv(Step(s, Advance(i)))
  {
    if s.programs[i].pc == Insert {
      InsertKeepsInv(s, i);
    } else {
      var s' := Step(s, Advance(i));
      AdvanceKeepsPrograms(s, i);
      forall key | key in s.table ensures s'.table.Keys == s.table.Keys && SlotsOk(s', key) {
        AdvanceKeepsSlots(s, i, key);
      }
      KeysKept(s, i);
    }
  }

  lemma KeysKept(s: State, i: nat)
    requires i < |s.programs| && s.programs[i].pc != Insert
    ensures var s' := Step(s, Advance(i)); s'.table.Keys == s.table.Keys && |s'.table| == |s.table|
  {
    var s' := Step(s, Advance(i));
    assert s'.table.Keys == s.table.Keys;
    assert |s'.table| == |s'.table.Keys| == |s.table.Keys| == |s.table|;
  }

  lemma StepKeepsInv(s: State, e: Event)
    requires Inv(s)
    ensures Inv(Step(s, e)) && Step(s, e).cpus == s.cpus
  {
    match e
    case Arrive(skb) => if skb.cpu < s.cpus { ArriveKeepsInv(s, skb); }
    case Advance(i) => if i < |s.programs| { AdvanceKeepsInv(s, i); }
    case _ =>
      var s' := Step(s, e);
      assert forall p :: p in s'.programs ==> ProgramOk(s, p);
      assert forall key :: key in s'.table ==> SlotsOk(s, key);
  }

  lemma {:induction false} RunKeepsInv(s: State, es: seq<Event>)
    requires Inv(s)
    ensures Inv(Run(s, es)) && Run(s, es).cpus == s.cpus
    decreases |es|
  {
    if es != [] {
      StepKeepsInv(s, es[0]);
      RunKeepsInv(Step(s, es[0]), es[1..]);
    }
  }

  lemma Reached(cpus: nat, es: seq<Event>)
    ensures Inv(Run(Boot(cpus), es)) && Run(Boot(cpus), es).cpus == cpus
  {
    RunKeepsInv(Boot(cpus), es);
  }

  // ---------------------------------------------------------------- conservation

  function Column(slots: seq<Counters>, f: Field): seq<u64> {
    seq(|slots|, c requires 0 <= c < |slots| => Get(slots[c], f))
  }

  lemma SlotTotal(s: State, key: int, f: Field)
    requires Inv(s) && key in s.table
    ensures Sum64(Column(s.table[key], f)) == Low64(Total(s.programs, Done, key, f))
  {
    assert SlotsOk(s, key);
    assert forall p :: p in s.programs ==> ProgramOk(s, p);
    SumOverCpus(s.programs, s.cpus, key, f);
    Sum64OfLow64(Column(s.table[key], f), PerCpu(s.programs, s.cpus, key, f));
  }

  /** In every interleaving: for an interface in the map, the slots summed over all CPUs plus what is in flight
      are everything that arrived (in 64-bit arithmetic). For one outside the map nothing was ever added. */
  lemma Conservation(cpus: nat, es: seq<Event>, key: int, f: Field)
    ensures var s := Run(Boot(cpus), es);
            var ps := s.programs;
            && (key in s.table ==>
                  && Total(ps, Arrived, key, f) == Total(ps, Done, key, f) + Total(ps, Pending, key, f)
                  && Add64(Sum64(Column(s.table[key], f)), Total(ps, Pending, key, f)) ==
                     Low64(Total(ps, Arrived, key, f)))
            && (key !in s.table ==> Total(ps, Done, key, f) == 0)
  {
    hide Run, Boot, Step, SlotsOk;
    var s := Run(Boot(cpus), es);
    Reached(cpus, es);
    assert forall p :: p in s.programs ==> ProgramOk(s, p);
    if key in s.table {
      Balance(s.programs, key, f);
      TotalZero(s.programs, Lost, key, f);
      SlotTotal(s, key, f);
      AddLow64(Total(s.programs, Done, key, f), Total(s.programs, Pending, key, f));
    } else {
      TotalZero(s.programs, Done, key, f);
    }
  }

  /** A packet goes uncounted only when the map held 128 keys, none of them its own; and then no packet of its
      interface is, or ever was, counted. */
  lemma MissedOnlyWhenFull(cpus: nat, es: seq<Event>, p: Program)
    requires p in Run(Boot(cpus), es).programs && p.pc == Missed
    ensures var s := Run(Boot(cpus), es);
            && |s.table| == 128
            && p.skb.ifindex !in s.table
            && forall q :: q in s.programs && q.skb.ifindex == p.skb.ifindex ==> q.pc != Counted
  {
    var s := Run(Boot(cpus), es);
    Reached(cpus, es);
    assert ProgramOk(s, p);
    assert forall q :: q in s.programs ==> ProgramOk(s, q);
  }

  // ---------------------------------------------------------------- progress

  function StepsLeft(pc: Pc): nat {
    match pc
    case Lookup => 5
    case Insert => 4
    case Relookup => 3
    case AddBytes => 2
    case AddPackets => 1
    case Counted => 0
    case Missed => 0
  }

  function Advances(es: seq<Event>, i: nat): nat
    decreases |es|
  {
    if es == [] then 0 else (if es[0] == Advance(i) then 1 else 0) + Advances(es[1..], i)
  }

  lemma StepBringsOn(s: State, e: Event, i: nat)
    requires Inv(s) && i < |s.programs|
    ensures var s' := Step(s, e);
            && i < |s'.programs| && s'.programs[i].skb == s.programs[i].skb
            && StepsLeft(s'.programs[i].pc) <= StepsLeft(s.programs[i].pc)
            && (e == Advance(i) && StepsLeft(s.programs[i].pc) > 0 ==>
                  StepsLeft(s'.programs[i].pc) < StepsLeft(s.programs[i].pc))
  {
    var p := s.programs[i];
    assert ProgramOk(s, p);
    assert p.skb.ifindex in s.table ==> SlotsOk(s, p.skb.ifindex);
    hide Total, Low64, Inv;
  }

  lemma {:induction false} RunBringsOn(s: State, es: seq<Event>, i: nat)
    requires Inv(s) && i < |s.programs|
    ensures var s' := Run(s, es);
            && i < |s'.programs| && s'.programs[i].skb == s.programs[i].skb
            && (StepsLeft(s'.programs[i].pc) == 0
                || StepsLeft(s'.programs[i].pc) + Advances(es, i) <= StepsLeft(s.programs[i].pc))
    decreases |es|
  {
    hide Inv, Step;
    if es != [] {
      StepBringsOn(s, es[0], i);
      StepKeepsInv(s, es[0]);
      RunBringsOn(Step(s, es[0]), es[1..], i);
    }
  }

  /** In every interleaving a program is through after five of its own steps, whatever the others do meanwhile. */
  lemma ProgramsFinish(s: State, es: seq<Event>, i: nat)
    requires Inv(s) && i < |s.programs| && Advances(es, i) >= 5
    ensures i < |Run(s, es).programs| && Run(s, es).programs[i].pc in {Counted, Missed}
  {
    hide Inv, Step, Run;
    RunBringsOn(s, es, i);
  }

  /** Once all programs are through, nothing is missing: the slots of an interface in the map, summed over all CPUs,
      are all that ever arrived for it. */
  lemma QuiescentIsExact(cpus: nat, es: seq<Event>, key: int, f: Field)
    requires var s := Run(Boot(cpus), es);
             key in s.table && forall p :: p in s.programs ==> p.pc in {Counted, Missed}
    ensures var s := Run(Boot(cpus), es);
            Sum64(Column(s.table[key], f)) == Low64(Total(s.programs, Arrived, key, f))
  {
    Conservation(cpus, es, key, f);
    Reached(cpus, es);
    hide Run, Boot, Step;
    var s := Run(Boot(cpus), es);
    assert forall p :: p in s.programs ==> ProgramOk(s, p);
    TotalZero(s.programs, Pending, key, f);
    SlotTotal(s, key, f);
  }

  // ---------------------------------------------------------------- reading while packets arrive

  predicate Copied(r: Reader, c: nat, f: Field) {
    r.Reading? && (c < r.cpu || (c == r.cpu && f.Ord() < r.field.Ord()))
  }

  predicate ReadDone(s: State) {
    s.reader.Reading? && s.reader.cpu == s.cpus
  }

  /** Every word copied so far lies between its value when the read began and its value now. */
  ghost predicate Between(s0: State, s: State, key: int, f: Field) {
    && s.cpus == s0.cpus && key in s0.table && key in s.table
    && |s0.table[key]| == |s.table[key]| == s.cpus
    && s.reader.Reading? && s.reader.key == key && |s.reader.values| == s.cpus && s.reader.cpu <= s.cpus
    && (s.reader.cpu == s.cpus ==> s.reader.field == RcvBytes)
    && (forall c: nat :: c < s.cpus ==> Get(s0.table[key][c], f) <= Get(s.table[key][c], f))
    && (forall c: nat :: c < s.cpus && Copied(s.reader, c, f) ==>
          Get(s0.table[key][c], f) <= Get(s.reader.values[c], f) <= Get(s.table[key][c], f))
  }

  lemma ArrivedGrows(s: State, e: Event, key: int, f: Field)
    ensures Total(s.programs, Arrived, key, f) <= Total(Step(s, e).programs, Arrived, key, f)
  {
    match e
    case Arrive(skb) => if skb.cpu < s.cpus { TotalAppend(s.programs, Program(skb, Lookup), Arrived, key, f); }
    case Advance(i) =>
      if i < |s.programs| {
        TotalUpdate(s.programs, i, Step(s, e).programs[i], Arrived, key, f);
      }
    case _ =>
  }

  lemma OnCpuGrows(s: State, e: Event, c: nat, key: int, f: Field)
    ensures Total(s.programs, OnCpu(c), key, f) <= Total(Step(s, e).programs, OnCpu(c), key, f)
  {
    match e
    case Arrive(skb) => if skb.cpu < s.cpus { TotalAppend(s.programs, Program(skb, Lookup), OnCpu(c), key, f); }
    case Advance(i) =>
      if i < |s.programs| {
        TotalUpdate(s.programs, i, Step(s, e).programs[i], OnCpu(c), key, f);
      }
    case _ =>
  }

  lemma {:induction false} ArrivedGrowsOverRun(s: State, es: seq<Event>, key: int, f: Field)
    ensures Total(s.programs, Arrived, key, f) <= Total(Run(s, es).programs, Arrived, key, f)
    decreases |es|
  {
    if es != [] {
      ArrivedGrows(s, es[0], key, f);
      ArrivedGrowsOverRun(Step(s, es[0]), es[1..], key, f);
    }
  }

  /** Keys never leave the map. */
  lemma KeyStays(s: State, e: Event, key: int)
    requires key in s.table
    ensures key in Step(s, e).table
  {
  }

  /** Below wrap-around no slot ever decreases. */
  lemma SlotGrows(s: State, e: Event, key: int, c: nat, f: Field)
    requires Inv(s) && key in s.table && c < s.cpus
    requires Total(Step(s, e).programs, Arrived, key, f) < TWO_64
    ensures key in Step(s, e).table && |s.table[key]| == |Step(s, e).table[key]| == s.cpus
    ensures Get(s.table[key][c], f) <= Get(Step(s, e).table[key][c], f)
  {
    StepKeepsInv(s, e);
    KeyStays(s, e, key);
    OnCpuGrows(s, e, c, key, f);
    ExactSlot(s, key, c, f);
    hide Step, Total, SlotsOk;
    ExactSlot(Step(s, e), key, c, f);
  }

  /** Below wrap-around a slot shows exactly its own CPU's additions; above it still shows no more. */
  lemma ExactSlot(s: State, key: int, c: nat, f: Field)
    requires Inv(s) && key in s.table && c < s.cpus
    ensures |s.table[key]| == s.cpus && Get(s.table[key][c], f) <= Total(s.programs, OnCpu(c), key, f)
    ensures Total(s.programs, Arrived, key, f) < TWO_64 ==>
              Get(s.table[key][c], f) == Total(s.programs, OnCpu(c), key, f)
  {
    hide Total;
    assert SlotsOk(s, key);
    TotalBelow(s.programs, OnCpu(c), Arrived, key, f);
  }

  lemma StepKeepsBetween(s0: State, s: State, e: Event, key: int, f: Field)
    requires Inv(s) && Between(s0, s, key, f) && !e.StartRead?
    requires Total(Step(s, e).programs, Arrived, key, f) < TWO_64
    ensures Between(s0, Step(s, e), key, f)
  {
    hide Total, ProgramOk, Low64;
    var s' := Step(s, e);
    StepKeepsInv(s, e);
    KeyStays(s, e, key);
    assert SlotsOk(s, key) && SlotsOk(s', key);
    forall c: nat | c < s.cpus ensures Get(s.table[key][c], f) <= Get(s'.table[key][c], f) {
      SlotGrows(s, e, key, c, f);
    }
  }

  lemma {:induction false} RunKeepsBetween(s0: State, s: State, es: seq<Event>, key: int, f: Field)
    requires Inv(s) && Between(s0, s, key, f)
    requires forall e :: e in es ==> !e.StartRead?
    requires Total(Run(s, es).programs, Arrived, key, f) < TWO_64
    ensures Between(s0, Run(s, es), key, f)
    decreases |es|
  {
    if es != [] {
      ArrivedGrowsOverRun(Step(s, es[0]), es[1..], key, f);
      StepKeepsBetween(s0, s, es[0], key, f);
      StepKeepsInv(s, es[0]);
      RunKeepsBetween(s0, Step(s, es[0]), es[1..], key, f);
    }
  }

  /** The counts behind a completed read, as exact sums. */
  function ReadSum(s: State, f: Field): nat
    requires s.reader.Reading?
  {
    Sum(Column(s.reader.values, f))
  }

  function TrueSum(s: State, key: int, f: Field): nat
    requires key in s.table
  {
    Sum(Column(s.table[key], f))
  }

  lemma TrueSumIsDone(s: State, key: int, f: Field)
    requires Inv(s) && key in s.table && Total(s.programs, Arrived, key, f) < TWO_64
    ensures TrueSum(s, key, f) == Total(s.programs, Done, key, f) < TWO_64
  {
    assert SlotsOk(s, key);
    assert forall p :: p in s.programs ==> ProgramOk(s, p);
    forall c: nat | c < s.cpus ensures Column(s.table[key], f)[c] == PerCpu(s.programs, s.cpus, key, f)[c] {
      TotalBelow(s.programs, OnCpu(c), Arrived, key, f);
    }
    assert Column(s.table[key], f) == PerCpu(s.programs, s.cpus, key, f);
    SumOverCpus(s.programs, s.cpus, key, f);
    TotalBelow(s.programs, Done, Arrived, key, f);
  }

  /** A read that runs while packets keep arriving returns, word for word, a sum between the true total when it
      began and the true total when it ended. `during` is any interleaving. */
  lemma SnapshotBounds(s: State, key: int, during: seq<Event>, f: Field)
    requires Inv(s) && key in s.table
    requires forall e :: e in during ==> !e.StartRead?
    requires var s' := Run(Step(s, StartRead(key)), during);
             ReadDone(s') && Total(s'.programs, Arrived, key, f) < TWO_64
    ensures var s' := Run(Step(s, StartRead(key)), during);
            && Inv(s') && key in s'.table && s'.reader.key == key
            && TrueSum(s, key, f) <= ReadSum(s', f) <= TrueSum(s', key, f) < TWO_64
            && Sum64(Column(s'.reader.values, f)) == ReadSum(s', f)
  {
    var s1 := Step(s, StartRead(key));
    var s' := Run(s1, during);
    StepKeepsInv(s, StartRead(key));
    RunKeepsInv(s1, during);
    assert SlotsOk(s, key);
    RunKeepsBetween(s, s1, during, key, f);
    SumMonotone(Column(s.table[key], f), Column(s'.reader.values, f));
    SumMonotone(Column(s'.reader.values, f), Column(s'.table[key], f));
    TrueSumIsDone(s', key, f);
    Sum64Exact(Column(s'.reader.values, f));
  }

  /** How many words the read has copied. */
  function Position(r: Reader): nat
    requires r.Reading?
  {
    4 * r.cpu + r.field.Ord()
  }

  function WordsRead(es: seq<Event>): nat
    decreases |es|
  {
    if es == [] then 0 else (if es[0].ReadWord? then 1 else 0) + WordsRead(es[1..])
  }

  ghost predicate Underway(s: State, key: int) {
    && Inv(s) && key in s.table && s.reader.Reading? && s.reader.key == key
    && |s.reader.values| == s.cpus && Position(s.reader) <= 4 * s.cpus
  }

  lemma StepReadsOn(s: State, e: Event, key: int)
    requires Underway(s, key) && !e.StartRead?
    ensures var s' := Step(s, e);
            && Underway(s', key) && s'.cpus == s.cpus
            && Position(s'.reader) == if e.ReadWord? && Position(s.reader) < 4 * s.cpus then Position(s.reader) + 1
                                      else Position(s.reader)
  {
    StepKeepsInv(s, e);
    KeyStays(s, e, key);
    assert SlotsOk(s, key);
    hide Inv, Total, Low64;
  }

  lemma {:induction false} RunReadsOn(s: State, es: seq<Event>, key: int)
    requires Underway(s, key) && forall e :: e in es ==> !e.StartRead?
    ensures var s' := Run(s, es);
            && Underway(s', key) && s'.cpus == s.cpus
            && (Position(s'.reader) == 4 * s.cpus || Position(s'.reader) == Position(s.reader) + WordsRead(es))
    decreases |es|
  {
    hide Inv, Step;
    if es != [] {
      StepReadsOn(s, es[0], key);
      RunReadsOn(Step(s, es[0]), es[1..], key);
    }
  }

  /** A read is through once it has copied four words for each CPU, whatever the programs do meanwhile. */
  lemma ReadsFinish(s: State, key: int, during: seq<Event>)
    requires Inv(s) && key in s.table && forall e :: e in during ==> !e.StartRead?
    requires WordsRead(during) >= 4 * s.cpus
    ensures ReadDone(Run(Step(s, StartRead(key)), during))
  {
    StepKeepsInv(s, StartRead(key));
    RunReadsOn(Step(s, StartRead(key)), during, key);
  }

  lemma Sum64Exact(s: seq<u64>)
    requires Sum(s) < TWO_64
    ensures Sum64(s) == Sum(s)
  {
    forall i | 0 <= i < |s| ensures s[i] == Low64(s[i]) { }
    Sum64OfLow64(s, s);
  }

  lemma {:induction false} DoneGrowsOverRun(s: State, es: seq<Event>, key: int, f: Field)
    requires Inv(s) && key in s.table && Total(Run(s, es).programs, Arrived, key, f) < TWO_64
    ensures Inv(Run(s, es)) && key in Run(s, es).table
    ensures TrueSum(s, key, f) <= TrueSum(Run(s, es), key, f)
    decreases |es|
  {
    RunKeepsInv(s, es);
    if es != [] {
      var s1 := Step(s, es[0]);
      ArrivedGrowsOverRun(s1, es[1..], key, f);
      StepKeepsInv(s, es[0]);
      KeyStays(s, es[0], key);
      assert SlotsOk(s, key) && SlotsOk(s1, key);
      forall c: nat | c < s.cpus ensures Get(s.table[key][c], f) <= Get(s1.table[key][c], f) {
        SlotGrows(s, es[0], key, c, f);
      }
      SumMonotone(Column(s.table[key], f), Column(s1.table[key], f));
      DoneGrowsOverRun(s1, es[1..], key, f);
    }
  }

  /** Below wrap-around, a later poll of the same interface never returns less than an earlier one. */
  lemma PollsNeverDecrease(s: State, key: int, first: seq<Event>, gap: seq<Event>, second: seq<Event>, f: Field)
    requires Inv(s) && key in s.table
    requires forall e :: e in first + second ==> !e.StartRead?
    requires ReadDone(Run(Step(s, StartRead(key)), first))
    requires var mid := Run(Run(Step(s, StartRead(key)), first), gap);
             var end := Run(Step(mid, StartRead(key)), second);
             ReadDone(end) && Total(end.programs, Arrived, key, f) < TWO_64
    ensures var one := Run(Step(s, StartRead(key)), first);
            var two := Run(Step(Run(one, gap), StartRead(key)), second);
            Sum64(Column(one.reader.values, f)) <= Sum64(Column(two.reader.values, f))
  {
    var one := Run(Step(s, StartRead(key)), first);
    var mid := Run(one, gap);
    var two := Run(Step(mid, StartRead(key)), second);
    forall e | e in first ensures !e.StartRead? { assert e in first + second; }
    forall e | e in second ensures !e.StartRead? { assert e in first + second; }
    ArrivedGrowsOverRun(Step(mid, StartRead(key)), second, key, f);
    assert Step(mid, StartRead(key)).programs == mid.programs;
    ArrivedGrowsOverRun(one, gap, key, f);
    SnapshotBounds(s, key, first, f);
    DoneGrowsOverRun(one, gap, key, f);
    SnapshotBounds(mid, key, second, f);
  }

  // ---------------------------------------------------------------- the programs as straight-line code

  /** The table after one program instance has run with nothing else in between. */
  function Alone(cpus: nat, t: Table, skb: Packet): Table {
    var s := Step(Step(State(cpus, t, [Program(skb, Lookup)], Idle), Advance(0)), Advance(0));
    Step(Step(Step(s, Advance(0)), Advance(0)), Advance(0)).table
  }

  ghost predicate Widths(t: Table, cpus: nat) {
    forall k :: k in t ==> |t[k]| == cpus
  }

  /** The slot of a CPU before, all zero when its key is new. */
  function SlotBefore(t: Table, key: int, cpu: nat): Counters {
    if key in t && cpu < |t[key]| then t[key][cpu] else Counters(0, 0, 0, 0)
  }

  /** Only the slot of `cpu` under `key` has changed, to `slot`; a new key has zeros in the other slots. */
  ghost predicate OnlySlot(t: Table, t': Table, cpus: nat, key: int, cpu: nat, slot: Counters)
    requires cpu < cpus
  {
    && t'.Keys == t.Keys + {key} && |t'[key]| == cpus && t'[key][cpu] == slot
    && (forall c: nat :: c < cpus && c != cpu ==> t'[key][c] == SlotBefore(t, key, c))
    && (forall k :: k in t && k != key ==> t'[k] == t[k])
  }

  /** An egress packet is counted as sent: `len` bytes and one packet more, and nothing received. */
  ghost predicate Sent(t: Table, t': Table, cpus: nat, cpu: nat, key: int, len: nat)
    requires cpu < cpus
  {
    if key !in t && |t| >= 128 then t' == t
    else
      var was := SlotBefore(t, key, cpu);
      OnlySlot(t, t', cpus, key, cpu,
               Counters(was.rcvBytes, was.rcvPackets, Add64(was.sndBytes, len), Add64(was.sndPackets, 1)))
  }

  /** An ingress packet is counted as received, and nothing sent. */
  ghost predicate Received(t: Table, t': Table, cpus: nat, cpu: nat, key: int, len: nat)
    requires cpu < cpus
  {
    if key !in t && |t| >= 128 then t' == t
    else
      var was := SlotBefore(t, key, cpu);
      OnlySlot(t, t', cpus, key, cpu,
               Counters(Add64(was.rcvBytes, len), Add64(was.rcvPackets, 1), was.sndBytes, was.sndPackets))
  }

  /** A counter block with a packet's length and 1 added in the packet's direction. */
  function Counting(c: Counters, dir: Direction, len: nat): Counters {
    if dir == Egress
    then Counters(c.rcvBytes, c.rcvPackets, Add64(c.sndBytes, len), Add64(c.sndPackets, 1))
    else Counters(Add64(c.rcvBytes, len), Add64(c.rcvPackets, 1), c.sndBytes, c.sndPackets)
  }

  lemma TwoAdditionsSlot(t: Table, skb: Packet)
    requires skb.ifindex in t && skb.cpu < |t[skb.ifindex]|
    ensures var slots, t1 := t[skb.ifindex], FetchAndAdd(t, skb, skb.dir.Bytes(), skb.len);
            FetchAndAdd(t1, skb, skb.dir.Packets(), 1) ==
            t[skb.ifindex := slots[skb.cpu := Counting(slots[skb.cpu], skb.dir, skb.len)]]
  {
    hide Add64;
    var slots, t1 := t[skb.ifindex], FetchAndAdd(t, skb, skb.dir.Bytes(), skb.len);
    var a := t1[skb.ifindex][skb.cpu];
    var b := Set(a, skb.dir.Packets(), Add64(Get(a, skb.dir.Packets()), 1));
    assert b == Counting(slots[skb.cpu], skb.dir, skb.len);
    assert slots[skb.cpu := a][skb.cpu := b] == slots[skb.cpu := b];
  }

  lemma OneSlotChanged(t: Table, cpus: nat, key: int, cpu: nat, slot: Counters)
    requires cpu < cpus && Widths(t, cpus) && (key in t || |t| < 128)
    ensures var t1 := UpdateNoExist(t, cpus, key);
            && key in t1 && |t1[key]| == cpus && t1[key][cpu] == SlotBefore(t, key, cpu)
            && OnlySlot(t, t1[key := t1[key][cpu := slot]], cpus, key, cpu, slot)
  {
  }

  lemma AloneCounts(cpus: nat, t: Table, skb: Packet)
    requires skb.cpu < cpus && Widths(t, cpus)
    ensures var key := skb.ifindex;
            if key !in t && |t| >= 128 then Alone(cpus, t, skb) == t
            else OnlySlot(t, Alone(cpus, t, skb), cpus, key, skb.cpu,
                          Counting(SlotBefore(t, key, skb.cpu), skb.dir, skb.len))
  {
    AloneIsTwoAdditions(cpus, t, skb);
    hide Alone, FetchAndAdd, Counting, OnlySlot;
    if skb.ifindex in t || |t| < 128 {
      OneSlotChanged(t, cpus, skb.ifindex, skb.cpu, Counting(SlotBefore(t, skb.ifindex, skb.cpu), skb.dir, skb.len));
      TwoAdditionsSlot(UpdateNoExist(t, cpus, skb.ifindex), skb);
    }
  }

  lemma EgressIsSent(cpus: nat, t: Table, cpu: nat, ifindex: int, len: nat)
    requires cpu < cpus && Widths(t, cpus)
    ensures Sent(t, Alone(cpus, t, Packet(cpu, ifindex, Egress, len)), cpus, cpu, ifindex, len)
  {
    AloneCounts(cpus, t, Packet(cpu, ifindex, Egress, len));
    hide Alone, OnlySlot, Add64;
  }

  lemma IngressIsReceived(cpus: nat, t: Table, cpu: nat, ifindex: int, len: nat)
    requires cpu < cpus && Widths(t, cpus)
    ensures Received(t, Alone(cpus, t, Packet(cpu, ifindex, Ingress, len)), cpus, cpu, ifindex, len)
  {
    AloneCounts(cpus, t, Packet(cpu, ifindex, Ingress, len));
    hide Alone, OnlySlot, Add64;
  }

  class IfStatsMap {
    const cpus: nat
    var table: Table

    constructor (cpus: nat)
      ensures this.cpus == cpus && table == map[]
    {
      this.cpus := cpus;
      table := map[];
    }

    ghost predicate Valid()
      reads this
    {
      forall key :: key in table ==> |table[key]| == cpus
    }

    method UpdateElemNoExist(key: int)
      requires Valid()
      modifies this
      ensures Valid() && table == UpdateNoExist(old(table), cpus, key)
    {
      if key !in table && |table| < MAX_ENTRIES {
        table := table[key := seq(cpus, _ => ZERO)];
      }
    }

    method SyncFetchAndAdd(skb: Packet, f: Field, n: nat)
      requires Valid() && skb.ifindex in table && skb.cpu < cpus
      modifies this
      ensures Valid() && table == FetchAndAdd(old(table), skb, f, n)
    {
      var slots := table[skb.ifindex];
      var c := slots[skb.cpu];
      table := table[skb.ifindex := slots[skb.cpu := Set(c, f, Add64(Get(c, f), n))]];
    }

    method OnEgress(cpu: nat, ifindex: int, len: nat)
      requires Valid() && cpu < cpus
      modifies this
      ensures Valid() && table == Alone(cpus, old(table), Packet(cpu, ifindex, Egress, len))
      ensures Sent(old(table), table, cpus, cpu, ifindex, len)
    {
      hide Alone;
      var skb := Packet(cpu, ifindex, Egress, len);
      AloneIsTwoAdditions(cpus, table, skb);
      EgressIsSent(cpus, table, cpu, ifindex, len);
      hide Sent;
      if ifindex !in table {
        UpdateElemNoExist(ifindex);
        if ifindex !in table {
          return;
        }
      }
      SyncFetchAndAdd(skb, SndBytes, len);
      SyncFetchAndAdd(skb, SndPackets, 1);
    }

    method OnIngress(cpu: nat, ifindex: int, len: nat)
      requires Valid() && cpu < cpus
      modifies this
      ensures Valid() && table == Alone(cpus, old(table), Packet(cpu, ifindex, Ingress, len))
      ensures Received(old(table), table, cpus, cpu, ifindex, len)
    {
      hide Alone;
      var skb := Packet(cpu, ifindex, Ingress, len);
      AloneIsTwoAdditions(cpus, table, skb);
      IngressIsReceived(cpus, table, cpu, ifindex, len);
      hide Received;
      if ifindex !in table {
        UpdateElemNoExist(ifindex);
        if ifindex !in table {
          return;
        }
      }
      SyncFetchAndAdd(skb, RcvBytes, len);
      SyncFetchAndAdd(skb, RcvPackets, 1);
    }
  }

  lemma AloneIsTwoAdditions(cpus: nat, t: Table, skb: Packet)
    requires skb.cpu < cpus
    requires forall k :: k in t ==> |t[k]| == cpus
    ensures var t1 := UpdateNoExist(t, cpus, skb.ifindex);
            && (skb.ifindex in t1 ==>
                  Alone(cpus, t, skb) ==
                  FetchAndAdd(FetchAndAdd(t1, skb, skb.dir.Bytes(), skb.len), skb, skb.dir.Packets(), 1))
            && (skb.ifindex !in t1 ==> Alone(cpus, t, skb) == t)
  {
    var s0 := State(cpus, t, [Program(skb, Lookup)], Idle);
    var s1 := Step(s0, Advance(0));
    var s2 := Step(s1, Advance(0));
    var s3 := Step(s2, Advance(0));
    if skb.ifindex in t {
      assert s1 == s0.(programs := [Program(skb, AddBytes)]);
      assert s3.programs == [Program(skb, Counted)];
    } else {
      assert s2.programs == [Program(skb, Relookup)] && s2.table == UpdateNoExist(t, cpus, skb.ifindex);
      assert s3.programs[0].pc == if skb.ifindex in s2.table then AddBytes else Missed;
    }
  }

  lemma FetchAndAddAt(t: Table, skb: Packet, g: Field, n: nat, c: nat, f: Field)
    requires skb.ifindex in t && skb.cpu < |t[skb.ifindex]| && c < |t[skb.ifindex]|
    ensures Get(FetchAndAdd(t, skb, g, n)[skb.ifindex][c], f) ==
            if c == skb.cpu && f == g then Add64(Get(t[skb.ifindex][c], f), n) else Get(t[skb.ifindex][c], f)
  {
  }

  lemma TwoAdditionsAt(t: Table, skb: Packet, c: nat, f: Field)
    requires skb.ifindex in t && skb.cpu < |t[skb.ifindex]| && c < |t[skb.ifindex]|
    ensures var t1 := FetchAndAdd(t, skb, skb.dir.Bytes(), skb.len);
            Get(FetchAndAdd(t1, skb, skb.dir.Packets(), 1)[skb.ifindex][c], f) ==
            Add64(Get(t[skb.ifindex][c], f), if c == skb.cpu then Weight(skb, skb.ifindex, f) else 0)
  {
    FetchAndAddAt(t, skb, skb.dir.Bytes(), skb.len, c, f);
    FetchAndAddAt(FetchAndAdd(t, skb, skb.dir.Bytes(), skb.len), skb, skb.dir.Packets(), 1, c, f);
  }

  /** Run alone, a program adds the packet to its own CPU's slot of its own interface and changes nothing else; on a
      full map without that interface it changes nothing at all. */
  lemma AloneAddsOnePacket(cpus: nat, t: Table, skb: Packet, c: nat, f: Field)
    requires skb.cpu < cpus && c < cpus
    requires forall k :: k in t ==> |t[k]| == cpus
    ensures var t' := Alone(cpus, t, skb);
            var key := skb.ifindex;
            if key in t || |t| < MAX_ENTRIES then
              && key in t' && |t'[key]| == cpus
              && t' == t[key := t'[key]]
              && Get(t'[key][c], f) ==
                 Add64(if key in t then Get(t[key][c], f) else 0, if c == skb.cpu then Weight(skb, key, f) else 0)
            else t' == t
  {
    AloneIsTwoAdditions(cpus, t, skb);
    var t1 := UpdateNoExist(t, cpus, skb.ifindex);
    if skb.ifindex in t1 {
      TwoAdditionsAt(t1, skb, c, f);
    }
  }
}
