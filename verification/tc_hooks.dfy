/** Attaching the two TC programs to every interface, rolling back on failure, and taking everything down again. The
    library is a state machine over hooks and filters; an oracle may make any call fail with any code. It comes in two
    kinds. Either each direction of an interface has a hook of its own, which a destroy call removes; or both directions
    share one queueing discipline: creating either hook brings both, and destroying one only empties it. */
module TcHooks {
  import opened Words
  import opened IfStats

  const EEXIST := 17
  const ENOENT := 2

  datatype Prog = Ours(dir: Direction) | Foreign(id: nat)

  /** Where a filter sits under a hook. */
  datatype Slot = Slot(handle: nat, priority: nat)

  /** A `bpf_tc_hook`: one attach point of one interface. */
  datatype Point = Point(ifindex: int, dir: Direction)

  /** The hooks that exist, each with its filters. */
  type Hooks = map<Point, map<Slot, Prog>>

  datatype Kernel = Kernel(shared: bool, hooks: Hooks, calls: nat)

  /** The fault of the n-th library call; 0 lets it go through. */
  type Oracle = nat -> int

  // ---------------------------------------------------------------- the library calls

  function Partner(pt: Point): Point {
    Point(pt.ifindex, if pt.dir.Ingress? then Egress else Ingress)
  }

  /** The hooks after the creation of `pt`, which is not there yet. */
  function WithHook(shared: bool, h: Hooks, pt: Point): Hooks {
    if shared && Partner(pt) !in h then h[pt := map[]][Partner(pt) := map[]] else h[pt := map[]]
  }

  function HookCreate(o: Oracle, k: Kernel, pt: Point): (r: (Kernel, int))
    ensures r.0.shared == k.shared && r.0.calls == k.calls + 1
  {
    var fault, k' := o(k.calls), k.(calls := k.calls + 1);
    if fault != 0 then (k', fault)
    else if pt in k.hooks then (k', -EEXIST)
    else (k'.(hooks := WithHook(k.shared, k.hooks, pt)), 0)
  }

  function HookDestroy(o: Oracle, k: Kernel, pt: Point): (r: (Kernel, int))
    ensures r.0.shared == k.shared && r.0.calls == k.calls + 1
  {
    var fault, k' := o(k.calls), k.(calls := k.calls + 1);
    if fault != 0 then (k', fault)
    else if pt !in k.hooks then (k', -ENOENT)
    else (k'.(hooks := if k.shared then k.hooks[pt := map[]] else k.hooks - {pt}), 0)
  }

  function Attach(o: Oracle, k: Kernel, pt: Point, slot: Slot, prog: Prog): (r: (Kernel, int))
    ensures r.0.shared == k.shared && r.0.calls == k.calls + 1
  {
    var fault, k' := o(k.calls), k.(calls := k.calls + 1);
    if fault != 0 then (k', fault)
    else if pt !in k.hooks then (k', -ENOENT)
    else if slot in k.hooks[pt] then (k', -EEXIST)
    else (k'.(hooks := k.hooks[pt := k.hooks[pt][slot := prog]]), 0)
  }

  function Detach(o: Oracle, k: Kernel, pt: Point, slot: Slot): (r: (Kernel, int))
    ensures r.0.shared == k.shared && r.0.calls == k.calls + 1
  {
    var fault, k' := o(k.calls), k.(calls := k.calls + 1);
    if fault != 0 then (k', fault)
    else if pt !in k.hooks || slot !in k.hooks[pt] then (k', -ENOENT)
    else (k'.(hooks := k.hooks[pt := k.hooks[pt] - {slot}]), 0)
  }

  function OptSlot(dir: Direction): Slot {
    if dir.Ingress? then Slot(1, 1) else Slot(2, 1)
  }

  // ---------------------------------------------------------------- one interface

  datatype Visit = Visit(kernel: Kernel, createdIngress: bool, createdEgress: bool)

  function DestroyIf(created: bool, o: Oracle, k: Kernel, pt: Point): (k': Kernel)
    ensures k'.shared == k.shared && k'.calls == k.calls + if created then 1 else 0
  {
    if created then HookDestroy(o, k, pt).0 else k
  }

  predicate Unusable(err: int) {
    err != 0 && err != -EEXIST
  }

  function VisitInterface(o: Oracle, k: Kernel, ifindex: int): (v: Visit)
    ensures v.kernel.shared == k.shared && k.calls <= v.kernel.calls
  {
    var ing, egr := Point(ifindex, Ingress), Point(ifindex, Egress);
    var k1 := HookDestroy(o, k, ing).0;
    var k2 := HookDestroy(o, k1, egr).0;
    var (k3, inErr) := HookCreate(o, k2, ing);
    if Unusable(inErr) then Visit(k3, false, false) else
    var (k4, egErr) := HookCreate(o, k3, egr);
    if Unusable(egErr) then Visit(DestroyIf(inErr == 0, o, k4, ing), inErr == 0, false) else
    Visit(AttachPrograms(o, k4, ifindex, inErr == 0, egErr == 0), inErr == 0, egErr == 0)
  }

  /** The second half of the visit, once both hooks are usable. */
  function AttachPrograms(o: Oracle, k4: Kernel, ifindex: int, createdIn: bool, createdEg: bool): (k': Kernel)
    ensures k'.shared == k4.shared && k4.calls <= k'.calls
  {
    var ing, egr := Point(ifindex, Ingress), Point(ifindex, Egress);
    var (k5, inAttach) := Attach(o, k4, ing, OptSlot(Ingress), Ours(Ingress));
    if inAttach != 0 then
      DestroyIf(createdEg, o, DestroyIf(createdIn, o, k5, ing), egr)
    else
    var (k6, egAttach) := Attach(o, k5, egr, OptSlot(Egress), Ours(Egress));
    if egAttach != 0 then
      var k7 := Detach(o, k6, ing, OptSlot(Ingress)).0;
      DestroyIf(createdEg, o, DestroyIf(createdIn, o, k7, ing), egr)
    else
      k6
  }

  // ---------------------------------------------------------------- what one call does

  /** None of this run's programs sits at `pt`. */
  predicate Clean(h: Hooks, pt: Point) {
    pt in h ==> forall s :: s in h[pt] ==> h[pt][s].Foreign?
  }

  /** Of this run's programs exactly the one meant for `pt` sits there, in its own slot. */
  predicate Has(h: Hooks, pt: Point) {
    && pt in h && OwnSlot(pt.dir) in h[pt] && h[pt][OwnSlot(pt.dir)] == Ours(pt.dir)
    && forall s :: s in h[pt] && s != OwnSlot(pt.dir) ==> h[pt][s].Foreign?
  }

  /** Handle 1 for ingress, 2 for egress, priority 1 for both. */
  function OwnSlot(dir: Direction): Slot {
    match dir case Ingress => Slot(1, 1) case Egress => Slot(2, 1)
  }

  ghost predicate SameElsewhere(h: Hooks, h': Hooks, pt: Point) {
    forall q :: q != pt ==> (q in h <==> q in h') && (q in h ==> h[q] == h'[q])
  }

  /** `pt` is there with the own slot free. */
  predicate Free(h: Hooks, pt: Point) {
    pt in h && OptSlot(pt.dir) !in h[pt]
  }

  lemma CreateEffect(o: Oracle, k: Kernel, pt: Point)
    ensures var (k', err) := HookCreate(o, k, pt);
            && SameOutside(k.hooks, k'.hooks, pt.ifindex)
            && (err == 0 <==> pt !in k.hooks && o(k.calls) == 0)
            && (Unusable(err) <==> !Usable(o(k.calls)))
            && (err != 0 ==> k'.hooks == k.hooks)
            && (pt in k'.hooks <==> pt in k.hooks || err == 0)
            && (Free(k'.hooks, pt) <==> Free(k.hooks, pt) || err == 0)
            && (Clean(k.hooks, pt) ==> Clean(k'.hooks, pt))
  {
  }

  /** What creating one hook does to the hook of the other direction. */
  lemma CreateOther(o: Oracle, k: Kernel, pt: Point)
    ensures var (k', err) := HookCreate(o, k, pt);
            var q := Partner(pt);
            && (q in k'.hooks <==> q in k.hooks || (k.shared && err == 0))
            && (Free(k'.hooks, q) <==> Free(k.hooks, q) || (k.shared && err == 0 && q !in k.hooks))
            && (Clean(k'.hooks, q) <==> Clean(k.hooks, q))
  {
  }

  lemma DestroyEffect(o: Oracle, k: Kernel, pt: Point)
    ensures var k' := HookDestroy(o, k, pt).0;
            && SameElsewhere(k.hooks, k'.hooks, pt)
            && (pt in k'.hooks <==> pt in k.hooks && (k.shared || o(k.calls) != 0))
            && (Free(k'.hooks, pt) <==> pt in k'.hooks && (Free(k.hooks, pt) || o(k.calls) == 0))
            && (Clean(k'.hooks, pt) <==> Clean(k.hooks, pt) || o(k.calls) == 0)
            && (Has(k'.hooks, pt) <==> Has(k.hooks, pt) && o(k.calls) != 0)
  {
  }

  lemma DestroyIfEffect(created: bool, o: Oracle, k: Kernel, pt: Point)
    ensures var k', gone := DestroyIf(created, o, k, pt), created && o(k.calls) == 0;
            && SameElsewhere(k.hooks, k'.hooks, pt)
            && (pt in k'.hooks <==> pt in k.hooks && (k.shared || !gone))
            && (Clean(k'.hooks, pt) <==> Clean(k.hooks, pt) || gone)
            && (Has(k'.hooks, pt) <==> Has(k.hooks, pt) && !gone)
  {
    DestroyEffect(o, k, pt);
  }

  /** Does the program's own attach call, the one numbered `call`, go through? */
  predicate Attaches(o: Oracle, h: Hooks, call: nat, pt: Point) {
    o(call) == 0 && Free(h, pt)
  }

  lemma AttachEffect(o: Oracle, k: Kernel, pt: Point)
    requires Clean(k.hooks, pt)
    ensures var (k', err) := Attach(o, k, pt, OptSlot(pt.dir), Ours(pt.dir));
            && SameElsewhere(k.hooks, k'.hooks, pt)
            && (err == 0 <==> Attaches(o, k.hooks, k.calls, pt))
            && (err != 0 ==> k'.hooks == k.hooks)
            && (pt in k'.hooks <==> pt in k.hooks)
            && (err == 0 ==> Has(k'.hooks, pt))
  {
  }

  lemma DetachEffect(o: Oracle, k: Kernel, pt: Point)
    ensures var k' := Detach(o, k, pt, OptSlot(pt.dir)).0;
            && SameElsewhere(k.hooks, k'.hooks, pt)
            && (pt in k'.hooks <==> pt in k.hooks)
            && (Clean(k.hooks, pt) ==> Clean(k'.hooks, pt))
            && (Has(k.hooks, pt) && o(k.calls) == 0 ==> Clean(k'.hooks, pt))
            && (Has(k.hooks, pt) && o(k.calls) != 0 ==> Has(k'.hooks, pt))
  {
  }

  lemma NotBoth(h: Hooks, pt: Point)
    ensures !(Clean(h, pt) && Has(h, pt))
  {
  }

  /** `Clean` and `Has` look at one hook only. */
  lemma Elsewhere(h: Hooks, h': Hooks, pt: Point, q: Point)
    requires SameElsewhere(h, h', pt) && q != pt
    ensures (Clean(h, q) <==> Clean(h', q)) && (Has(h, q) <==> Has(h', q)) && (q in h <==> q in h')
    ensures Free(h, q) <==> Free(h', q)
  {
  }

  // ---------------------------------------------------------------- both or neither

  predicate NoneOfOurs(h: Hooks, ifindex: int) {
    Clean(h, Point(ifindex, Ingress)) && Clean(h, Point(ifindex, Egress))
  }

  predicate BothOfOurs(h: Hooks, ifindex: int) {
    Has(h, Point(ifindex, Ingress)) && Has(h, Point(ifindex, Egress))
  }

  // What a visit will meet, seen from the state `k` before it. Its calls destroy the two hooks, create them, and attach
  // the two programs, ingress first each time.

  /** Does the hook at `pt` outlast its destruction with call `call`? */
  predicate Stands(o: Oracle, k: Kernel, call: nat, pt: Point) {
    pt in k.hooks && (k.shared || o(call) != 0)
  }

  predicate CreatesIngress(o: Oracle, k: Kernel, ifindex: int) {
    !Stands(o, k, k.calls, Point(ifindex, Ingress)) && o(k.calls + 2) == 0
  }

  predicate CreatesEgress(o: Oracle, k: Kernel, ifindex: int) {
    && !Stands(o, k, k.calls + 1, Point(ifindex, Egress)) && !(k.shared && CreatesIngress(o, k, ifindex))
    && o(k.calls + 3) == 0
  }

  /** Does the attach in direction `dir` go through? The hook is new, or it outlasted with the slot free, or it was
      emptied. */
  predicate WillAttach(o: Oracle, k: Kernel, ifindex: int, dir: Direction) {
    var pt, call := Point(ifindex, dir), if dir.Ingress? then k.calls else k.calls + 1;
    var inNew, egNew := CreatesIngress(o, k, ifindex), CreatesEgress(o, k, ifindex);
    && o(call + 4) == 0
    && if Stands(o, k, call, pt) then o(call) == 0 || OptSlot(dir) !in k.hooks[pt]
       else (if dir.Ingress? then inNew else egNew) || (k.shared && (inNew || egNew))
  }

  predicate HooksUsable(o: Oracle, call: nat) {
    Usable(o(call + 2)) && Usable(o(call + 3))
  }

  /** Does a create call with this fault leave a hook to use? Either it goes through, or the hook exists already, which
      is error 17. */
  predicate Usable(fault: int) {
    fault == 0 || fault == -17
  }

  /** Seen from before the visit: will both programs be attached? */
  predicate AttachesBoth(o: Oracle, k: Kernel, ifindex: int) {
    && HooksUsable(o, k.calls)
    && WillAttach(o, k, ifindex, Ingress) && WillAttach(o, k, ifindex, Egress)
  }

  /** Seen from before the visit: will only the egress attach fail, and then the detach of the ingress program as well
      as, where the visit created the ingress hook, its destruction? */
  predicate StaysHalfAttached(o: Oracle, k: Kernel, ifindex: int) {
    && HooksUsable(o, k.calls)
    && WillAttach(o, k, ifindex, Ingress) && !WillAttach(o, k, ifindex, Egress)
    && o(k.calls + 6) != 0 && (CreatesIngress(o, k, ifindex) ==> o(k.calls + 7) != 0)
  }

  lemma AttachProgramsAllOrNothing(o: Oracle, k: Kernel, ifindex: int, createdIn: bool, createdEg: bool)
    requires NoneOfOurs(k.hooks, ifindex)
    ensures var h, ing, egr, c := AttachPrograms(o, k, ifindex, createdIn, createdEg).hooks,
                                  Point(ifindex, Ingress), Point(ifindex, Egress), k.calls;
            && (BothOfOurs(h, ifindex) <==> Attaches(o, k.hooks, c, ing) && Attaches(o, k.hooks, c + 1, egr))
            && (BothOfOurs(h, ifindex) || NoneOfOurs(h, ifindex) <==>
                !(&& Attaches(o, k.hooks, c, ing) && !Attaches(o, k.hooks, c + 1, egr)
                  && o(c + 2) != 0 && (createdIn ==> o(c + 3) != 0)))
  {
    hide Clean, Has, HookDestroy, Attach, Detach, DestroyIf, SameElsewhere;
    var ing, egr := Point(ifindex, Ingress), Point(ifindex, Egress);
    AttachEffect(o, k, ing);
    var (k5, inAttach) := Attach(o, k, ing, OptSlot(Ingress), Ours(Ingress));
    Elsewhere(k.hooks, k5.hooks, ing, egr);
    var k' := AttachPrograms(o, k, ifindex, createdIn, createdEg);
    if inAttach != 0 {
      TwoDestroys(o, k5, ifindex, createdIn, createdEg);
    } else {
      AttachEffect(o, k5, egr);
      var (k6, egAttach) := Attach(o, k5, egr, OptSlot(Egress), Ours(Egress));
      Elsewhere(k5.hooks, k6.hooks, egr, ing);
      if egAttach != 0 {
        DetachEffect(o, k6, ing);
        var k7 := Detach(o, k6, ing, OptSlot(Ingress)).0;
        Elsewhere(k6.hooks, k7.hooks, ing, egr);
        TwoDestroys(o, k7, ifindex, createdIn, createdEg);
      }
    }
    NotBoth(k'.hooks, ing);
    NotBoth(k'.hooks, egr);
  }

  function One(b: bool): nat {
    if b then 1 else 0
  }

  lemma TwoDestroys(o: Oracle, k: Kernel, ifindex: int, createdIn: bool, createdEg: bool)
    ensures var ing, egr := Point(ifindex, Ingress), Point(ifindex, Egress);
            var k' := DestroyIf(createdEg, o, DestroyIf(createdIn, o, k, ing), egr);
            var inGone := createdIn && o(k.calls) == 0;
            var egGone := createdEg && o(if createdIn then k.calls + 1 else k.calls) == 0;
            && SameOutside(k.hooks, k'.hooks, ifindex)
            && k'.calls == k.calls + One(createdIn) + One(createdEg)
            && (ing in k'.hooks <==> ing in k.hooks && (k.shared || !inGone))
            && (egr in k'.hooks <==> egr in k.hooks && (k.shared || !egGone))
            && (Clean(k'.hooks, ing) <==> Clean(k.hooks, ing) || inGone)
            && (Clean(k'.hooks, egr) <==> Clean(k.hooks, egr) || egGone)
            && (Has(k'.hooks, ing) <==> Has(k.hooks, ing) && !inGone)
            && (Has(k'.hooks, egr) <==> Has(k.hooks, egr) && !egGone)
  {
    hide Clean, Has, DestroyIf;
    var ing, egr := Point(ifindex, Ingress), Point(ifindex, Egress);
    var k1 := DestroyIf(createdIn, o, k, ing);
    var k2 := DestroyIf(createdEg, o, k1, egr);
    DestroyIfEffect(createdIn, o, k, ing);
    Elsewhere(k.hooks, k1.hooks, ing, egr);
    DestroyIfEffect(createdEg, o, k1, egr);
    Elsewhere(k1.hooks, k2.hooks, egr, ing);
  }

  /** The first two calls of a visit. */
  lemma EmptiedHooks(o: Oracle, k: Kernel, ifindex: int)
    requires NoneOfOurs(k.hooks, ifindex)
    ensures var ing, egr, c := Point(ifindex, Ingress), Point(ifindex, Egress), k.calls;
            var k2 := HookDestroy(o, HookDestroy(o, k, ing).0, egr).0;
            && k2.calls == c + 2 && k2.shared == k.shared
            && NoneOfOurs(k2.hooks, ifindex) && SameOutside(k.hooks, k2.hooks, ifindex)
            && (ing in k2.hooks <==> Stands(o, k, c, ing)) && (egr in k2.hooks <==> Stands(o, k, c + 1, egr))
            && (Free(k2.hooks, ing) <==> Stands(o, k, c, ing) && (o(c) == 0 || OptSlot(Ingress) !in k.hooks[ing]))
            && (Free(k2.hooks, egr) <==>
                Stands(o, k, c + 1, egr) && (o(c + 1) == 0 || OptSlot(Egress) !in k.hooks[egr]))
  {
    var ing, egr := Point(ifindex, Ingress), Point(ifindex, Egress);
    assert Free(k.hooks, ing) <==> ing in k.hooks && OptSlot(Ingress) !in k.hooks[ing];
    assert Free(k.hooks, egr) <==> egr in k.hooks && OptSlot(Egress) !in k.hooks[egr];
    hide Clean, Has, Free, HookDestroy;
    var k1 := HookDestroy(o, k, ing).0;
    var k2 := HookDestroy(o, k1, egr).0;
    DestroyEffect(o, k, ing);
    Elsewhere(k.hooks, k1.hooks, ing, egr);
    DestroyEffect(o, k1, egr);
    Elsewhere(k1.hooks, k2.hooks, egr, ing);
  }

  /** The two calls that follow. */
  lemma FreshHooks(o: Oracle, k: Kernel, ifindex: int)
    requires NoneOfOurs(k.hooks, ifindex)
    ensures var ing, egr, c := Point(ifindex, Ingress), Point(ifindex, Egress), k.calls;
            var k2 := HookDestroy(o, HookDestroy(o, k, ing).0, egr).0;
            var (k3, inErr) := HookCreate(o, k2, ing);
            var (k4, egErr) := HookCreate(o, k3, egr);
            && k4.calls == c + 4
            && NoneOfOurs(k3.hooks, ifindex) && NoneOfOurs(k4.hooks, ifindex)
            && SameOutside(k.hooks, k3.hooks, ifindex) && SameOutside(k.hooks, k4.hooks, ifindex)
            && (inErr == 0 <==> CreatesIngress(o, k, ifindex)) && (egErr == 0 <==> CreatesEgress(o, k, ifindex))
            && (Unusable(inErr) <==> !Usable(o(c + 2))) && (Unusable(egErr) <==> !Usable(o(c + 3)))
            && (ing in k3.hooks <==> Stands(o, k, c, ing) || inErr == 0)
            && (egr in k3.hooks <==> Stands(o, k, c + 1, egr) || (k.shared && inErr == 0))
            && (ing in k4.hooks <==> Stands(o, k, c, ing) || inErr == 0 || (k.shared && egErr == 0))
            && (egr in k4.hooks <==> Stands(o, k, c + 1, egr) || egErr == 0 || (k.shared && inErr == 0))
            && (Attaches(o, k4.hooks, c + 4, ing) <==> WillAttach(o, k, ifindex, Ingress))
            && (Attaches(o, k4.hooks, c + 5, egr) <==> WillAttach(o, k, ifindex, Egress))
  {
    var ing, egr := Point(ifindex, Ingress), Point(ifindex, Egress);
    EmptiedHooks(o, k, ifindex);
    hide Clean, Has, Free, HookDestroy, HookCreate, Unusable, Usable, Stands;
    var k2 := HookDestroy(o, HookDestroy(o, k, ing).0, egr).0;
    var k3 := HookCreate(o, k2, ing).0;
    CreateEffect(o, k2, ing);
    CreateOther(o, k2, ing);
    CreateEffect(o, k3, egr);
    CreateOther(o, k3, egr);
  }

  /** For every sequence of return codes: the visit leaves both programs exactly when its own six calls will allow it,
      and something else than both or neither exactly when only the egress attach will fail and then the rollback
      too. */
  lemma AllOrNothing(o: Oracle, k: Kernel, ifindex: int)
    requires NoneOfOurs(k.hooks, ifindex)
    ensures var h := VisitInterface(o, k, ifindex).kernel.hooks;
            && (BothOfOurs(h, ifindex) <==> AttachesBoth(o, k, ifindex))
            && (BothOfOurs(h, ifindex) || NoneOfOurs(h, ifindex) <==> !StaysHalfAttached(o, k, ifindex))
  {
    hide Clean, Has, HookDestroy, HookCreate, AttachPrograms, DestroyIf, WillAttach, Attaches, Unusable;
    hide SameElsewhere, CreatesIngress, CreatesEgress, Stands;
    var ing, egr := Point(ifindex, Ingress), Point(ifindex, Egress);
    FreshHooks(o, k, ifindex);
    var k2 := HookDestroy(o, HookDestroy(o, k, ing).0, egr).0;
    var (k3, inErr) := HookCreate(o, k2, ing);
    var (k4, egErr) := HookCreate(o, k3, egr);
    var h := VisitInterface(o, k, ifindex).kernel.hooks;
    NotBoth(h, ing);
    if !Unusable(inErr) {
      if Unusable(egErr) {
        DestroyIfEffect(inErr == 0, o, k4, ing);
        Elsewhere(k4.hooks, h, ing, egr);
      } else {
        AttachProgramsAllOrNothing(o, k4, ifindex, inErr == 0, egErr == 0);
      }
    }
  }

  /** The concrete failing case: without any hooks before, the calls from the sixth on fail. */
  lemma FailedRollbackStaysHalfAttached(shared: bool, ifindex: int)
    ensures var k := Kernel(shared, map[], 0);
            var h := VisitInterface(n => if n < 5 then 0 else -ENOENT, k, ifindex).kernel.hooks;
            && NoneOfOurs(k.hooks, ifindex)
            && Has(h, Point(ifindex, Ingress)) && Clean(h, Point(ifindex, Egress))
  {
  }

  // ---------------------------------------------------------------- what a visit can and cannot touch

  ghost predicate SameOutside(h: Hooks, h': Hooks, ifindex: int) {
    forall q: Point :: q.ifindex != ifindex ==> (q in h <==> q in h') && (q in h ==> h[q] == h'[q])
  }

  /** At `pt` there is nothing of ours or exactly our program. A hook of its own that was not there before has its flag;
      a shared one is there if it was before or one of the two flags is set, and only then. */
  ghost predicate Accounted(shared: bool, h: Hooks, h': Hooks, pt: Point, own: bool, other: bool) {
    && (Clean(h', pt) || Has(h', pt))
    && (if shared then pt in h' <==> pt in h || own || other else pt in h' ==> pt in h || own)
  }

  lemma AttachProgramsLeaves(o: Oracle, k: Kernel, ifindex: int, createdIn: bool, createdEg: bool)
    requires NoneOfOurs(k.hooks, ifindex)
    ensures var k' := AttachPrograms(o, k, ifindex, createdIn, createdEg);
            && SameOutside(k.hooks, k'.hooks, ifindex) && k.calls <= k'.calls
            && Accounted(k.shared, k.hooks, k'.hooks, Point(ifindex, Ingress), false, false)
            && Accounted(k.shared, k.hooks, k'.hooks, Point(ifindex, Egress), false, false)
  {
    hide Clean, Has, HookDestroy, Attach, Detach, DestroyIf;
    var ing, egr := Point(ifindex, Ingress), Point(ifindex, Egress);
    AttachEffect(o, k, ing);
    var (k5, inAttach) := Attach(o, k, ing, OptSlot(Ingress), Ours(Ingress));
    Elsewhere(k.hooks, k5.hooks, ing, egr);
    if inAttach != 0 {
      TwoDestroys(o, k5, ifindex, createdIn, createdEg);
    } else {
      AttachEffect(o, k5, egr);
      var (k6, egAttach) := Attach(o, k5, egr, OptSlot(Egress), Ours(Egress));
      Elsewhere(k5.hooks, k6.hooks, egr, ing);
      if egAttach != 0 {
        DetachEffect(o, k6, ing);
        var k7 := Detach(o, k6, ing, OptSlot(Ingress)).0;
        Elsewhere(k6.hooks, k7.hooks, ing, egr);
        TwoDestroys(o, k7, ifindex, createdIn, createdEg);
      }
    }
  }

  /** A visit touches no other interface, and its flags account for the hooks that are there afterwards. */
  lemma VisitLeaves(o: Oracle, k: Kernel, ifindex: int)
    requires NoneOfOurs(k.hooks, ifindex)
    ensures var v := VisitInterface(o, k, ifindex);
            && SameOutside(k.hooks, v.kernel.hooks, ifindex) && k.calls <= v.kernel.calls
            && Accounted(k.shared, k.hooks, v.kernel.hooks, Point(ifindex, Ingress), v.createdIngress, v.createdEgress)
            && Accounted(k.shared, k.hooks, v.kernel.hooks, Point(ifindex, Egress), v.createdEgress, v.createdIngress)
  {
    hide Clean, Has, HookDestroy, HookCreate, AttachPrograms, DestroyIf, WillAttach, Attaches;
    var ing, egr := Point(ifindex, Ingress), Point(ifindex, Egress);
    FreshHooks(o, k, ifindex);
    var k2 := HookDestroy(o, HookDestroy(o, k, ing).0, egr).0;
    var (k3, inErr) := HookCreate(o, k2, ing);
    var (k4, egErr) := HookCreate(o, k3, egr);
    if !Unusable(inErr) {
      if Unusable(egErr) {
        DestroyIfEffect(inErr == 0, o, k4, ing);
        Elsewhere(k4.hooks, DestroyIf(inErr == 0, o, k4, ing).hooks, ing, egr);
      } else {
        AttachProgramsLeaves(o, k4, ifindex, inErr == 0, egErr == 0);
      }
    }
  }

  /** The five ways in which a visit ends. */
  datatype Exit = NoIngressHook | NoEgressHook | NoIngressProgram | NoEgressProgram | BothAttached

  /** Seen from before the visit: how will it end? */
  function ExitOf(o: Oracle, k: Kernel, ifindex: int): Exit {
    if !Usable(o(k.calls + 2)) then NoIngressHook
    else if !Usable(o(k.calls + 3)) then NoEgressHook
    else if !WillAttach(o, k, ifindex, Ingress) then NoIngressProgram
    else if !WillAttach(o, k, ifindex, Egress) then NoEgressProgram
    else BothAttached
  }

  /** How many calls a visit makes before it starts to destroy hooks again. */
  function CallsBefore(e: Exit): nat {
    match e
    case NoIngressHook => 3
    case NoEgressHook => 4
    case NoIngressProgram => 5
    case NoEgressProgram => 7
    case BothAttached => 6
  }

  /** Does the visit destroy an ingress hook, or an egress hook, that it created? */
  predicate RollsBackIngress(e: Exit) {
    e == NoEgressHook || e == NoIngressProgram || e == NoEgressProgram
  }

  predicate RollsBackEgress(e: Exit) {
    e == NoIngressProgram || e == NoEgressProgram
  }

  /** What is left of the hooks when creation is over, before any rollback. */
  predicate IngressThere(o: Oracle, k: Kernel, ifindex: int, inNew: bool, egNew: bool) {
    Stands(o, k, k.calls, Point(ifindex, Ingress)) || inNew || (k.shared && egNew)
  }

  predicate EgressThere(o: Oracle, k: Kernel, ifindex: int, inNew: bool, egNew: bool) {
    Stands(o, k, k.calls + 1, Point(ifindex, Egress)) || egNew || (k.shared && inNew)
  }

  lemma AttachProgramsExactly(o: Oracle, k: Kernel, ifindex: int, createdIn: bool, createdEg: bool)
    requires NoneOfOurs(k.hooks, ifindex)
    ensures var k' := AttachPrograms(o, k, ifindex, createdIn, createdEg);
            var ing, egr := Point(ifindex, Ingress), Point(ifindex, Egress);
            var inOk, egOk := Attaches(o, k.hooks, k.calls, ing), Attaches(o, k.hooks, k.calls + 1, egr);
            if inOk && egOk then
              k'.calls == k.calls + 2 && (ing in k'.hooks <==> ing in k.hooks) && (egr in k'.hooks <==> egr in k.hooks)
            else
              var n := k.calls + if inOk then 3 else 1;
              && k'.calls == n + One(createdIn) + One(createdEg)
              && (ing in k'.hooks <==> ing in k.hooks && (k.shared || !(createdIn && o(n) == 0)))
              && (egr in k'.hooks <==> egr in k.hooks && (k.shared || !(createdEg && o(n + One(createdIn)) == 0)))
  {
    hide Clean, Has, Free, HookDestroy, Attach, Detach, DestroyIf;
    var ing, egr := Point(ifindex, Ingress), Point(ifindex, Egress);
    AttachEffect(o, k, ing);
    var (k5, inAttach) := Attach(o, k, ing, OptSlot(Ingress), Ours(Ingress));
    Elsewhere(k.hooks, k5.hooks, ing, egr);
    if inAttach != 0 {
      TwoDestroys(o, k5, ifindex, createdIn, createdEg);
    } else {
      AttachEffect(o, k5, egr);
      var (k6, egAttach) := Attach(o, k5, egr, OptSlot(Egress), Ours(Egress));
      Elsewhere(k5.hooks, k6.hooks, egr, ing);
      if egAttach != 0 {
        DetachEffect(o, k6, ing);
        var k7 := Detach(o, k6, ing, OptSlot(Ingress)).0;
        Elsewhere(k6.hooks, k7.hooks, ing, egr);
        TwoDestroys(o, k7, ifindex, createdIn, createdEg);
      }
    }
  }

  /** For every sequence of return codes, exactly what a visit does with the hooks: a flag is set exactly if the visit's
      own create call went through; a hook is there afterwards exactly if it outlasted the visit's first calls or was
      created, and no rollback of the hook it created went through; and so many calls were made. */
  lemma VisitExactly(o: Oracle, k: Kernel, ifindex: int)
    requires NoneOfOurs(k.hooks, ifindex)
    ensures var v, e, ing, egr :=
              VisitInterface(o, k, ifindex), ExitOf(o, k, ifindex), Point(ifindex, Ingress), Point(ifindex, Egress);
            var inNew, egNew := CreatesIngress(o, k, ifindex), e != NoIngressHook && CreatesEgress(o, k, ifindex);
            var n := k.calls + CallsBefore(e);
            var inBack, egBack := inNew && RollsBackIngress(e), egNew && RollsBackEgress(e);
            && v.createdIngress == inNew && v.createdEgress == egNew
            && v.kernel.calls == n + One(inBack) + One(egBack)
            && (ing in v.kernel.hooks <==>
                IngressThere(o, k, ifindex, inNew, egNew) && (k.shared || !(inBack && o(n) == 0)))
            && (egr in v.kernel.hooks <==>
                EgressThere(o, k, ifindex, inNew, egNew) && (k.shared || !(egBack && o(n + One(inBack)) == 0)))
  {
    hide Clean, Has, HookDestroy, HookCreate, AttachPrograms, DestroyIf, WillAttach, Attaches, SameElsewhere, Stands;
    var ing, egr := Point(ifindex, Ingress), Point(ifindex, Egress);
    FreshHooks(o, k, ifindex);
    var k2 := HookDestroy(o, HookDestroy(o, k, ing).0, egr).0;
    var (k3, inErr) := HookCreate(o, k2, ing);
    var (k4, egErr) := HookCreate(o, k3, egr);
    if !Unusable(inErr) {
      if Unusable(egErr) {
        DestroyIfEffect(inErr == 0, o, k4, ing);
        Elsewhere(k4.hooks, DestroyIf(inErr == 0, o, k4, ing).hooks, ing, egr);
      } else {
        AttachProgramsExactly(o, k4, ifindex, inErr == 0, egErr == 0);
      }
    }
  }

  /** The destructor's work on one interface. */
  function TearDownInterface(o: Oracle, k: Kernel, ifindex: int, createdIn: bool, createdEg: bool): (k': Kernel)
    ensures k'.shared == k.shared && k.calls <= k'.calls
  {
    var ing, egr := Point(ifindex, Ingress), Point(ifindex, Egress);
    var k1 := Detach(o, k, ing, OptSlot(Ingress)).0;
    var k2 := Detach(o, k1, egr, OptSlot(Egress)).0;
    DestroyIf(createdEg, o, DestroyIf(createdIn, o, k2, ing), egr)
  }

  /** Seen from before the teardown: which call destroys the egress hook, if its flag is set. */
  function EgressDestroy(k: Kernel, createdIn: bool): nat {
    k.calls + if createdIn then 3 else 2
  }

  /** Seen from before the teardown: do return codes let the program at `pt`, if there is one, be detached with call
      `detach`, or its flagged hook be destroyed with call `destroy`? */
  predicate ComesOff(o: Oracle, h: Hooks, pt: Point, detach: nat, created: bool, destroy: nat) {
    Has(h, pt) ==> o(detach) == 0 || (created && o(destroy) == 0)
  }

  /** `OwnAtMost` is what the teardown finds on an interface, `TornDown` exactly what it leaves there; `k` is the
      library's state before. */
  ghost predicate OwnAtMost(h: Hooks, ifindex: int) {
    forall d: Direction :: Clean(h, Point(ifindex, d)) || Has(h, Point(ifindex, d))
  }

  ghost predicate TornDown(o: Oracle, k: Kernel, h: Hooks, ifindex: int, createdIn: bool, createdEg: bool) {
    var ing, egr := Point(ifindex, Ingress), Point(ifindex, Egress);
    && (Clean(h, ing) <==> ComesOff(o, k.hooks, ing, k.calls, createdIn, k.calls + 2))
    && (Clean(h, egr) <==> ComesOff(o, k.hooks, egr, k.calls + 1, createdEg, EgressDestroy(k, createdIn)))
    && (ing in h <==> ing in k.hooks && (k.shared || !(createdIn && o(k.calls + 2) == 0)))
    && (egr in h <==> egr in k.hooks && (k.shared || !(createdEg && o(EgressDestroy(k, createdIn)) == 0)))
  }

  lemma TwoDetaches(o: Oracle, k: Kernel, ifindex: int)
    requires OwnAtMost(k.hooks, ifindex)
    ensures var ing, egr, c := Point(ifindex, Ingress), Point(ifindex, Egress), k.calls;
            var k' := Detach(o, Detach(o, k, ing, OptSlot(Ingress)).0, egr, OptSlot(Egress)).0;
            && SameOutside(k.hooks, k'.hooks, ifindex) && k'.calls == c + 2
            && (ing in k'.hooks <==> ing in k.hooks) && (egr in k'.hooks <==> egr in k.hooks)
            && (Clean(k'.hooks, ing) <==> (Has(k.hooks, ing) ==> o(c) == 0))
            && (Clean(k'.hooks, egr) <==> (Has(k.hooks, egr) ==> o(c + 1) == 0))
  {
    hide Clean, Has, Detach;
    var ing, egr := Point(ifindex, Ingress), Point(ifindex, Egress);
    var k1 := Detach(o, k, ing, OptSlot(Ingress)).0;
    var k2 := Detach(o, k1, egr, OptSlot(Egress)).0;
    DetachEffect(o, k, ing);
    Elsewhere(k.hooks, k1.hooks, ing, egr);
    DetachEffect(o, k1, egr);
    Elsewhere(k1.hooks, k2.hooks, egr, ing);
    NotBoth(k2.hooks, ing);
    NotBoth(k2.hooks, egr);
  }

  /** For every sequence of return codes: of each hook, our program is gone exactly when it can be detached or its
      flagged hook destroyed, if it was there at all; and exactly the flagged hooks that can be destroyed are gone, none
      when they are shared. */
  lemma TearDownLeaves(o: Oracle, k: Kernel, ifindex: int, createdIn: bool, createdEg: bool)
    requires OwnAtMost(k.hooks, ifindex)
    ensures var k' := TearDownInterface(o, k, ifindex, createdIn, createdEg);
            && SameOutside(k.hooks, k'.hooks, ifindex) && k'.calls == k.calls + 2 + One(createdIn) + One(createdEg)
            && TornDown(o, k, k'.hooks, ifindex, createdIn, createdEg)
  {
    hide Clean, Has, Detach, DestroyIf, OwnAtMost;
    var ing, egr := Point(ifindex, Ingress), Point(ifindex, Egress);
    TwoDetaches(o, k, ifindex);
    var k2 := Detach(o, Detach(o, k, ing, OptSlot(Ingress)).0, egr, OptSlot(Egress)).0;
    TwoDestroys(o, k2, ifindex, createdIn, createdEg);
  }

  // ---------------------------------------------------------------- all interfaces

  function VisitAll(o: Oracle, k: Kernel, ifs: seq<int>): (r: (Kernel, seq<Visit>))
    ensures |r.1| == |ifs| && r.0.shared == k.shared
  {
    if ifs == [] then (k, [])
    else
      var n := |ifs| - 1;
      var (k', vs) := VisitAll(o, k, ifs[..n]);
      var v := VisitInterface(o, k', ifs[n]);
      (v.kernel, vs + [v])
  }

  function TearDownAll(o: Oracle, k: Kernel, ifs: seq<int>, createdIn: seq<bool>, createdEg: seq<bool>): (k': Kernel)
    requires |createdIn| == |createdEg| == |ifs|
    ensures k'.shared == k.shared
  {
    if ifs == [] then k
    else
      var n := |ifs| - 1;
      var before := TearDownAll(o, k, ifs[..n], createdIn[..n], createdEg[..n]);
      TearDownInterface(o, before, ifs[n], createdIn[n], createdEg[n])
  }

  /** What the attach loop guarantees for one interface; `before` is the library's state when its visit began. */
  ghost predicate Settled(o: Oracle, before: Kernel, h: Hooks, h': Hooks, ifindex: int, v: Visit) {
    && (BothOfOurs(h', ifindex) <==> AttachesBoth(o, before, ifindex))
    && (BothOfOurs(h', ifindex) || NoneOfOurs(h', ifindex) <==> !StaysHalfAttached(o, before, ifindex))
    && Accounted(before.shared, h, h', Point(ifindex, Ingress), v.createdIngress, v.createdEgress)
    && Accounted(before.shared, h, h', Point(ifindex, Egress), v.createdEgress, v.createdIngress)
  }

  /** The same hooks with the same filters on one interface. */
  ghost predicate SameOn(h: Hooks, h': Hooks, ifindex: int) {
    forall d: Direction ::
      && (Point(ifindex, d) in h <==> Point(ifindex, d) in h')
      && (Point(ifindex, d) in h ==> h[Point(ifindex, d)] == h'[Point(ifindex, d)])
  }

  lemma SameOnIs(h: Hooks, h': Hooks, ifindex: int)
    requires SameOn(h, h', ifindex)
    ensures forall d: Direction :: Clean(h, Point(ifindex, d)) <==> Clean(h', Point(ifindex, d))
    ensures forall d: Direction :: Has(h, Point(ifindex, d)) <==> Has(h', Point(ifindex, d))
    ensures forall d: Direction :: Point(ifindex, d) in h <==> Point(ifindex, d) in h'
  {
  }

  /** `Settled` looks at one interface only. */
  lemma SettledFrame(o: Oracle, before: Kernel, h: Hooks, h': Hooks, g: Hooks, g': Hooks, ifindex: int, v: Visit)
    requires Settled(o, before, h, h', ifindex, v) && SameOn(h, g, ifindex) && SameOn(h', g', ifindex)
    ensures Settled(o, before, g, g', ifindex, v)
  {
    hide Clean, Has, AttachesBoth, StaysHalfAttached, SameOn;
    SameOnIs(h, g, ifindex);
    SameOnIs(h', g', ifindex);
  }

  ghost predicate SameOutsideAll(h: Hooks, h': Hooks, ifs: seq<int>) {
    forall q: Point :: q.ifindex !in ifs ==> (q in h <==> q in h') && (q in h ==> h[q] == h'[q])
  }

  lemma VisitSettles(o: Oracle, k: Kernel, ifindex: int)
    requires NoneOfOurs(k.hooks, ifindex)
    ensures var v := VisitInterface(o, k, ifindex);
            && Settled(o, k, k.hooks, v.kernel.hooks, ifindex, v)
            && SameOutside(k.hooks, v.kernel.hooks, ifindex) && k.calls <= v.kernel.calls
  {
    hide Clean, Has, VisitInterface, AttachesBoth, StaysHalfAttached;
    AllOrNothing(o, k, ifindex);
    VisitLeaves(o, k, ifindex);
  }

  lemma CleanFrame(h: Hooks, h': Hooks, ifs: seq<int>, i: int)
    requires SameOutsideAll(h, h', ifs) && i !in ifs
    ensures SameOn(h, h', i)
    ensures NoneOfOurs(h, i) <==> NoneOfOurs(h', i)
    ensures OwnAtMost(h, i) <==> OwnAtMost(h', i)
  {
    assert SameOn(h, h', i);
    SameOnIs(h, h', i);
    hide Clean, Has;
  }

  lemma OutsideGrows(h: Hooks, g: Hooks, h': Hooks, ifs: seq<int>, i: int)
    requires SameOutsideAll(h, g, ifs) && SameOutside(g, h', i)
    ensures SameOutsideAll(h, h', ifs + [i])
    ensures forall j :: j in ifs && j != i ==> SameOn(g, h', j)
  {
    forall q: Point | q.ifindex !in ifs + [i] ensures q.ifindex !in ifs && q.ifindex != i { }
  }

  /** After the whole attach loop, for every sequence of return codes: each interface has both programs, or both or
      neither, exactly when the state before its own visit and the return codes foretell it. */
  lemma {:induction false} EveryInterfaceSettled(o: Oracle, k: Kernel, ifs: seq<int>)
    requires Distinct(ifs) && forall i :: i in ifs ==> NoneOfOurs(k.hooks, i)
    ensures var (k', vs) := VisitAll(o, k, ifs);
            && SameOutsideAll(k.hooks, k'.hooks, ifs) && k.calls <= k'.calls
            && forall j :: 0 <= j < |ifs| ==>
                 Settled(o, VisitAll(o, k, ifs[..j]).0, k.hooks, k'.hooks, ifs[j], vs[j])
  {
    hide Settled, NoneOfOurs, VisitInterface, SameOn, SameOutside, SameOutsideAll;
    if ifs == [] {
      NothingOutside(k.hooks);
    } else {
      var n := |ifs| - 1;
      var before, last := ifs[..n], ifs[n];
      EveryInterfaceSettled(o, k, before);
      var (k1, vs1) := VisitAll(o, k, before);
      assert last !in before;
      CleanFrame(k.hooks, k1.hooks, before, last);
      VisitSettles(o, k1, last);
      var v := VisitInterface(o, k1, last);
      var (k', vs) := VisitAll(o, k, ifs);
      assert k' == v.kernel && vs == vs1 + [v] && ifs == before + [last];
      OutsideGrows(k.hooks, k1.hooks, k'.hooks, before, last);
      forall j | 0 <= j < |ifs| ensures Settled(o, VisitAll(o, k, ifs[..j]).0, k.hooks, k'.hooks, ifs[j], vs[j]) {
        SameOnItself(k.hooks, ifs[j]);
        SameOnItself(k'.hooks, ifs[j]);
        if j < n {
          assert before[j] == ifs[j] && vs[j] == vs1[j] && before[..j] == ifs[..j];
          SettledFrame(o, VisitAll(o, k, ifs[..j]).0, k.hooks, k1.hooks, k.hooks, k'.hooks, ifs[j], vs[j]);
        } else {
          SameOnSymmetric(k.hooks, k1.hooks, last);
          SettledFrame(o, k1, k1.hooks, k'.hooks, k.hooks, k'.hooks, last, v);
        }
      }
    }
  }

  lemma NothingOutside(h: Hooks)
    ensures SameOutsideAll(h, h, [])
  {
  }

  lemma SameOnItself(h: Hooks, ifindex: int)
    ensures SameOn(h, h, ifindex)
  {
  }

  lemma SameOnSymmetric(h: Hooks, h': Hooks, ifindex: int)
    requires SameOn(h, h', ifindex)
    ensures SameOn(h', h, ifindex)
  {
  }

  /** `TornDown` looks at one interface and the number of calls so far. */
  lemma TornDownFrame(o: Oracle, k: Kernel, h: Hooks, g: Hooks, ifindex: int, createdIn: bool, createdEg: bool)
    requires TornDown(o, k, h, ifindex, createdIn, createdEg) && SameOn(h, g, ifindex)
    ensures TornDown(o, k, g, ifindex, createdIn, createdEg)
  {
    hide Clean, Has, ComesOff, SameOn;
    SameOnIs(h, g, ifindex);
  }

  /** The library's state when the teardown of interface `j` begins. */
  function TearDownUpTo(o: Oracle, k: Kernel, ifs: seq<int>, createdIn: seq<bool>, createdEg: seq<bool>, j: nat): Kernel
    requires |createdIn| == |createdEg| == |ifs| && j <= |ifs|
  {
    TearDownAll(o, k, ifs[..j], createdIn[..j], createdEg[..j])
  }

  /** What the whole teardown leaves on interface `j`: what its own teardown left of what was there from the start. */
  ghost predicate LeftAt(o: Oracle, k: Kernel, ifs: seq<int>, createdIn: seq<bool>, createdEg: seq<bool>,
                         h: Hooks, j: nat)
    requires |createdIn| == |createdEg| == |ifs| && j < |ifs|
  {
    var kj := TearDownUpTo(o, k, ifs, createdIn, createdEg, j);
    && k.calls <= kj.calls && SameOn(kj.hooks, k.hooks, ifs[j])
    && TornDown(o, kj, h, ifs[j], createdIn[j], createdEg[j])
  }

  lemma LeftAtStays(o: Oracle, k: Kernel, ifs: seq<int>, createdIn: seq<bool>, createdEg: seq<bool>,
                    h: Hooks, h': Hooks, n: nat, j: nat)
    requires |createdIn| == |createdEg| == |ifs| && j < n <= |ifs|
    requires LeftAt(o, k, ifs[..n], createdIn[..n], createdEg[..n], h, j) && SameOn(h, h', ifs[j])
    ensures LeftAt(o, k, ifs, createdIn, createdEg, h', j)
  {
    hide TearDownAll, SameOn, TornDown;
    assert ifs[..n][..j] == ifs[..j] && createdIn[..n][..j] == createdIn[..j] && createdEg[..n][..j] == createdEg[..j];
    var kj := TearDownUpTo(o, k, ifs, createdIn, createdEg, j);
    TornDownFrame(o, kj, h, h', ifs[j], createdIn[j], createdEg[j]);
  }

  /** The same for every interface at once, each from the state that its own teardown finds. */
  lemma {:induction false} TearDownAllLeaves(o: Oracle, k: Kernel, ifs: seq<int>,
                                             createdIn: seq<bool>, createdEg: seq<bool>)
    requires Distinct(ifs) && |createdIn| == |createdEg| == |ifs|
    requires forall i :: i in ifs ==> OwnAtMost(k.hooks, i)
    ensures var k' := TearDownAll(o, k, ifs, createdIn, createdEg);
            && SameOutsideAll(k.hooks, k'.hooks, ifs) && k.calls <= k'.calls
            && forall j :: 0 <= j < |ifs| ==> LeftAt(o, k, ifs, createdIn, createdEg, k'.hooks, j)
  {
    if ifs == [] {
      NothingOutside(k.hooks);
    } else {
      var n := |ifs| - 1;
      var before, last, cin, ceg := ifs[..n], ifs[n], createdIn[..n], createdEg[..n];
      TearDownAllLeaves(o, k, before, cin, ceg);
      var k1, k' := TearDownAll(o, k, before, cin, ceg), TearDownAll(o, k, ifs, createdIn, createdEg);
      assert k' == TearDownInterface(o, k1, last, createdIn[n], createdEg[n]);
      assert ifs == before + [last] && last !in before;
      hide TearDownAll, TornDown, OwnAtMost, TearDownInterface, SameOn, SameOutside, SameOutsideAll, NoneOfOurs;
      CleanFrame(k.hooks, k1.hooks, before, last);
      SameOnSymmetric(k.hooks, k1.hooks, last);
      TearDownLeaves(o, k1, last, createdIn[n], createdEg[n]);
      OutsideGrows(k.hooks, k1.hooks, k'.hooks, before, last);
      assert LeftAt(o, k, ifs, createdIn, createdEg, k'.hooks, n);
      hide LeftAt;
      forall j | 0 <= j < n ensures LeftAt(o, k, ifs, createdIn, createdEg, k'.hooks, j) {
        assert before[j] == ifs[j] && before[j] in before;
        LeftAtStays(o, k, ifs, createdIn, createdEg, k1.hooks, k'.hooks, n, j);
      }
    }
  }

  function CreatedIngress(vs: seq<Visit>): seq<bool> {
    seq(|vs|, i requires 0 <= i < |vs| => vs[i].createdIngress)
  }

  function CreatedEgress(vs: seq<Visit>): seq<bool> {
    seq(|vs|, i requires 0 <= i < |vs| => vs[i].createdEgress)
  }

  /** An interface that the attach loop settled, as the teardown finds it. */
  lemma SettledIsOwn(o: Oracle, before: Kernel, h: Hooks, h1: Hooks, ifindex: int, v: Visit)
    requires Settled(o, before, h, h1, ifindex, v)
    ensures OwnAtMost(h1, ifindex)
  {
    hide Clean, Has;
    forall d: Direction ensures Clean(h1, Point(ifindex, d)) || Has(h1, Point(ifindex, d)) {
      if d.Ingress? { } else { }
    }
  }

  /** The state after a run's set-up, and the flags it leaves for the teardown. */
  function SetUp(o: Oracle, k: Kernel, ifs: seq<int>): (Kernel, seq<bool>, seq<bool>) {
    var (k1, vs) := VisitAll(o, k, ifs);
    (k1, CreatedIngress(vs), CreatedEgress(vs))
  }

  function AfterRun(o: Oracle, k: Kernel, ifs: seq<int>): Kernel {
    var (k1, cin, ceg) := SetUp(o, k, ifs);
    TearDownAll(o, k1, ifs, cin, ceg)
  }

  /** For every sequence of return codes over the whole life of the object: each of this run's programs is gone at the
      end exactly when its teardown's return codes let it come off, and each hook left by the set-up exactly when it is
      not shared, its flag is set and its destruction goes through. */
  lemma RunLeaves(o: Oracle, k: Kernel, ifs: seq<int>)
    requires Distinct(ifs) && forall i :: i in ifs ==> NoneOfOurs(k.hooks, i)
    ensures var (k1, cin, ceg) := SetUp(o, k, ifs);
            && SameOutsideAll(k.hooks, AfterRun(o, k, ifs).hooks, ifs)
            && forall j :: 0 <= j < |ifs| ==>
                 && Settled(o, VisitAll(o, k, ifs[..j]).0, k.hooks, k1.hooks, ifs[j], VisitAll(o, k, ifs).1[j])
                 && LeftAt(o, k1, ifs, cin, ceg, AfterRun(o, k, ifs).hooks, j)
  {
    hide OwnAtMost, LeftAt, Settled, NoneOfOurs, VisitAll, TearDownAll;
    var (k1, vs) := VisitAll(o, k, ifs);
    EveryInterfaceSettled(o, k, ifs);
    forall j | 0 <= j < |ifs| ensures OwnAtMost(k1.hooks, ifs[j]) {
      SettledIsOwn(o, VisitAll(o, k, ifs[..j]).0, k.hooks, k1.hooks, ifs[j], vs[j]);
    }
    TearDownAllLeaves(o, k1, ifs, CreatedIngress(vs), CreatedEgress(vs));
  }

  ghost predicate NoFaultsFrom(o: Oracle, n: nat) {
    forall i: nat :: n <= i ==> o(i) == 0
  }

  /** The hooks of an interface after a run whose teardown calls go through. */
  ghost predicate HooksAfter(shared: bool, h: Hooks, h2: Hooks, ifindex: int, v: Visit) {
    forall d: Direction ::
      var pt := Point(ifindex, d);
      if shared then pt in h2 <==> pt in h || v.createdIngress || v.createdEgress else pt in h2 ==> pt in h
  }

  lemma NothingLeft(o: Oracle, k0: Kernel, h: Hooks, h1: Hooks, k1: Kernel, h2: Hooks, ifindex: int, v: Visit)
    requires Settled(o, k0, h, h1, ifindex, v) && SameOn(k1.hooks, h1, ifindex) && k0.shared == k1.shared
    requires TornDown(o, k1, h2, ifindex, v.createdIngress, v.createdEgress) && NoFaultsFrom(o, k1.calls)
    ensures NoneOfOurs(h2, ifindex) && HooksAfter(k0.shared, h, h2, ifindex, v)
  {
    hide Clean, Has, BothOfOurs, AttachesBoth, StaysHalfAttached;
    forall d: Direction
      ensures var pt := Point(ifindex, d);
              if k0.shared then pt in h2 <==> pt in h || v.createdIngress || v.createdEgress else pt in h2 ==> pt in h
    {
      if d.Ingress? { } else { }
    }
  }

  /** In particular, whatever happened while attaching, a teardown whose calls go through leaves none of this run's
      programs; flags still set for rolled-back hooks do no harm. Of the hooks it leaves none that was not there before,
      unless they are shared: then it leaves exactly those that were there or that the set-up created. */
  lemma TearDownUndoesSetUp(o: Oracle, k: Kernel, ifs: seq<int>)
    requires Distinct(ifs) && forall i :: i in ifs ==> NoneOfOurs(k.hooks, i)
    requires NoFaultsFrom(o, VisitAll(o, k, ifs).0.calls)
    ensures var k2, vs := AfterRun(o, k, ifs), VisitAll(o, k, ifs).1;
            && (forall i :: i in ifs ==> NoneOfOurs(k2.hooks, i))
            && (forall j :: 0 <= j < |ifs| ==> HooksAfter(k.shared, k.hooks, k2.hooks, ifs[j], vs[j]))
            && (!k.shared ==> k2.hooks.Keys <= k.hooks.Keys)
            && SameOutsideAll(k.hooks, k2.hooks, ifs)
  {
    var (k1, vs) := VisitAll(o, k, ifs);
    var k2, cin, ceg := AfterRun(o, k, ifs), CreatedIngress(vs), CreatedEgress(vs);
    forall j | 0 <= j < |ifs|
      ensures TearDownUpTo(o, k1, ifs, cin, ceg, j).shared == VisitAll(o, k, ifs[..j]).0.shared
    {
    }
    hide NoneOfOurs, SameOn, Settled, TornDown, VisitAll, TearDownAll, TearDownUpTo, HooksAfter;
    RunLeaves(o, k, ifs);
    forall j | 0 <= j < |ifs|
      ensures NoneOfOurs(k2.hooks, ifs[j]) && HooksAfter(k.shared, k.hooks, k2.hooks, ifs[j], vs[j])
    {
      var k0, kj := VisitAll(o, k, ifs[..j]).0, TearDownUpTo(o, k1, ifs, cin, ceg, j);
      NothingLeft(o, k0, k.hooks, k1.hooks, kj, k2.hooks, ifs[j], vs[j]);
    }
    if !k.shared {
      forall q | q in k2.hooks ensures q in k.hooks {
        if q.ifindex in ifs {
          var j :| 0 <= j < |ifs| && ifs[j] == q.ifindex;
          NoneNew(k.hooks, k2.hooks, q, vs[j]);
        }
      }
    }
  }

  lemma NoneNew(h: Hooks, h2: Hooks, q: Point, v: Visit)
    requires HooksAfter(false, h, h2, q.ifindex, v) && q in h2
    ensures q in h
  {
    assert q == Point(q.ifindex, q.dir);
  }

  lemma VisitOne(o: Oracle, k: Kernel, ifindex: int)
    ensures VisitAll(o, k, [ifindex]) == (VisitInterface(o, k, ifindex).kernel, [VisitInterface(o, k, ifindex)])
  {
    hide VisitInterface;
    var ifs := [ifindex];
    assert ifs[..0] == [];
    assert VisitAll(o, k, ifs[..0]) == (k, []);
    var v := VisitInterface(o, k, ifs[0]);
    assert VisitAll(o, k, ifs) == (v.kernel, [] + [v]);
    assert [] + [v] == [v];
  }

  /** Without hooks before, six calls that go through attach both programs. A shared hook that the ingress call has
      created makes the egress call answer that it exists, so only one flag is set. */
  lemma SetUpGoesThrough(o: Oracle, shared: bool, ifindex: int)
    requires forall n: nat :: n < 6 ==> o(n) == 0
    ensures var k := Kernel(shared, map[], 0);
            var v := VisitInterface(o, k, ifindex);
            && VisitAll(o, k, [ifindex]) == (v.kernel, [v])
            && BothOfOurs(v.kernel.hooks, ifindex) && v.kernel.calls == 6
            && v.createdIngress && v.createdEgress == !shared
  {
    VisitOne(o, Kernel(shared, map[], 0), ifindex);
    assert o(0) == 0 && o(1) == 0 && o(2) == 0 && o(3) == 0 && o(4) == 0 && o(5) == 0;
  }

  /** What is left of such a set-up. */
  lemma AfterGoodSetUp(o: Oracle, shared: bool, ifindex: int)
    requires forall n: nat :: n < 6 ==> o(n) == 0
    ensures var h := AfterRun(o, Kernel(shared, map[], 0), [ifindex]).hooks;
            && (Clean(h, Point(ifindex, Ingress)) <==> o(6) == 0 || o(8) == 0)
            && (Clean(h, Point(ifindex, Egress)) <==> o(7) == 0 || (!shared && o(9) == 0))
  {
    var k := Kernel(shared, map[], 0);
    SetUpGoesThrough(o, shared, ifindex);
    hide Clean, VisitInterface, VisitAll, TearDownInterface, TearDownAll;
    var v := VisitInterface(o, k, ifindex);
    assert CreatedIngress([v]) == [true] && CreatedEgress([v]) == [!shared];
    assert SetUp(o, k, [ifindex]) == (v.kernel, [true], [!shared]);
    TearDownOne(o, v.kernel, ifindex, true, !shared);
    BothIsOwn(v.kernel.hooks, ifindex);
    TearDownLeaves(o, v.kernel, ifindex, true, !shared);
  }

  lemma BothIsOwn(h: Hooks, ifindex: int)
    requires BothOfOurs(h, ifindex)
    ensures OwnAtMost(h, ifindex)
  {
    forall d: Direction ensures Has(h, Point(ifindex, d)) {
      if d.Ingress? { } else { }
    }
  }

  lemma TearDownOne(o: Oracle, k: Kernel, ifindex: int, createdIn: bool, createdEg: bool)
    ensures TearDownAll(o, k, [ifindex], [createdIn], [createdEg]) ==
            TearDownInterface(o, k, ifindex, createdIn, createdEg)
  {
    hide TearDownInterface;
    var ifs, cin, ceg := [ifindex], [createdIn], [createdEg];
    assert ifs[..0] == [] && cin[..0] == [] && ceg[..0] == [];
    assert TearDownAll(o, k, ifs[..0], cin[..0], ceg[..0]) == k;
    assert TearDownAll(o, k, ifs, cin, ceg) == TearDownInterface(o, k, ifs[0], cin[0], ceg[0]);
  }

  /** The concrete failing cases: after a good set-up every call fails; or, with shared hooks, only the two detach calls
      do, and the egress program stays because its hook's flag is not set. */
  lemma RefusedTearDownLeavesBoth(o: Oracle, shared: bool, ifindex: int)
    requires forall n: nat :: o(n) == if n < 6 then 0 else -ENOENT
    ensures var h := AfterRun(o, Kernel(shared, map[], 0), [ifindex]).hooks;
            !Clean(h, Point(ifindex, Ingress)) && !Clean(h, Point(ifindex, Egress))
  {
    AfterGoodSetUp(o, shared, ifindex);
  }

  lemma RefusedDetachLeavesEgress(o: Oracle, ifindex: int)
    requires forall n: nat :: o(n) == if n == 6 || n == 7 then -ENOENT else 0
    ensures var h := AfterRun(o, Kernel(true, map[], 0), [ifindex]).hooks;
            Clean(h, Point(ifindex, Ingress)) && !Clean(h, Point(ifindex, Egress))
  {
    AfterGoodSetUp(o, true, ifindex);
  }

  // ---------------------------------------------------------------- the code

  class TcLibrary {
    const oracle: Oracle
    const shared: bool
    var hooks: Hooks
    var calls: nat

    constructor (oracle: Oracle, shared: bool, hooks: Hooks)
      ensures this.oracle == oracle && State() == Kernel(shared, hooks, 0)
    {
      this.oracle := oracle;
      this.shared := shared;
      this.hooks := hooks;
      calls := 0;
    }

    function State(): Kernel
      reads this
    {
      Kernel(shared, hooks, calls)
    }

    method Apply(r: (Kernel, int)) returns (err: int)
      requires r.0.shared == shared
      modifies this
      ensures State() == r.0 && err == r.1
    {
      hooks, calls, err := r.0.hooks, r.0.calls, r.1;
    }

    method Create(pt: Point) returns (err: int)
      modifies this
      ensures (State(), err) == HookCreate(oracle, old(State()), pt)
    {
      err := Apply(HookCreate(oracle, State(), pt));
    }

    method Destroy(pt: Point) returns (err: int)
      modifies this
      ensures (State(), err) == HookDestroy(oracle, old(State()), pt)
    {
      err := Apply(HookDestroy(oracle, State(), pt));
    }

    method AttachProg(pt: Point, slot: Slot, prog: Prog) returns (err: int)
      modifies this
      ensures (State(), err) == Attach(oracle, old(State()), pt, slot, prog)
    {
      err := Apply(Attach(oracle, State(), pt, slot, prog));
    }

    method DetachProg(pt: Point, slot: Slot) returns (err: int)
      modifies this
      ensures (State(), err) == Detach(oracle, old(State()), pt, slot)
    {
      err := Apply(Detach(oracle, State(), pt, slot));
    }
  }

  /** The hook and flag arrays of `NetMonitor`, one entry for each interface. */
  class TcAttachments {
    const lib: TcLibrary
    const ifs: seq<int>
    const hooksIngress: array<Point>
    const hooksEgress: array<Point>
    const createdIngress: array<bool>
    const createdEgress: array<bool>

    ghost predicate Valid() {
      && hooksIngress.Length == hooksEgress.Length == createdIngress.Length == createdEgress.Length == |ifs|
      && hooksIngress != hooksEgress && createdIngress != createdEgress
    }

    /** Index i names interface i in both hook arrays. */
    ghost predicate Named()
      requires Valid()
      reads hooksIngress, hooksEgress
    {
      forall i :: 0 <= i < |ifs| ==>
        hooksIngress[i] == Point(ifs[i], Ingress) && hooksEgress[i] == Point(ifs[i], Egress)
    }

    /** The constructor: fill the arrays, then visit every interface. */
    constructor (lib: TcLibrary, ifs: seq<int>)
      modifies lib
      ensures this.lib == lib && this.ifs == ifs && Valid() && Named()
      ensures fresh(createdIngress) && fresh(createdEgress) && fresh(hooksIngress) && fresh(hooksEgress)
      ensures var (k, vs) := VisitAll(lib.oracle, old(lib.State()), ifs);
              lib.State() == k && createdIngress[..] == CreatedIngress(vs) && createdEgress[..] == CreatedEgress(vs)
    {
      this.lib := lib;
      this.ifs := ifs;
      hooksIngress := new Point[|ifs|](_ => Point(0, Ingress));
      hooksEgress := new Point[|ifs|](_ => Point(0, Egress));
      createdIngress := new bool[|ifs|](_ => false);
      createdEgress := new bool[|ifs|](_ => false);
      new;
      NameHooks();
      AttachAll();
    }

    method NameHooks()
      requires Valid()
      modifies hooksIngress, hooksEgress
      ensures Named()
    {
      var i := 0;
      for j := 0 to |ifs|
        invariant i == j
        invariant forall q :: 0 <= q < j ==>
                    hooksIngress[q] == Point(ifs[q], Ingress) && hooksEgress[q] == Point(ifs[q], Egress)
      {
        hooksIngress[i] := Point(ifs[j], Ingress);
        hooksEgress[i] := Point(ifs[j], Egress);
        i := i + 1;
      }
    }

    /** The attach loop; the index `i` into the arrays is kept by hand. */
    method AttachAll()
      requires Valid() && Named()
      requires forall q :: 0 <= q < |ifs| ==> !createdIngress[q] && !createdEgress[q]
      modifies lib, createdIngress, createdEgress
      ensures var (k, vs) := VisitAll(lib.oracle, old(lib.State()), ifs);
              lib.State() == k && createdIngress[..] == CreatedIngress(vs) && createdEgress[..] == CreatedEgress(vs)
    {
      hide VisitInterface;
      var i := 0;
      ghost var k0, o := lib.State(), lib.oracle;
      for j := 0 to |ifs|
        invariant i == j && Named()
        invariant lib.State() == VisitAll(o, k0, ifs[..j]).0
        invariant createdIngress[..j] == CreatedIngress(VisitAll(o, k0, ifs[..j]).1)
        invariant createdEgress[..j] == CreatedEgress(VisitAll(o, k0, ifs[..j]).1)
        invariant forall q :: j <= q < |ifs| ==> !createdIngress[q] && !createdEgress[q]
      {
        ghost var cin, ceg, vs := createdIngress[..], createdEgress[..], VisitAll(o, k0, ifs[..j]).1;
        assert ifs[..j + 1][..j] == ifs[..j];
        ghost var v := VisitInterface(o, lib.State(), ifs[j]);
        i := AttachInterface(i);
        assert CreatedIngress(vs + [v]) == CreatedIngress(vs) + [v.createdIngress];
        assert CreatedEgress(vs + [v]) == CreatedEgress(vs) + [v.createdEgress];
        assert createdIngress[..j + 1] == cin[..j] + [v.createdIngress];
        assert createdEgress[..j + 1] == ceg[..j] + [v.createdEgress];
        forall q | j + 1 <= q < |ifs| ensures !createdIngress[q] && !createdEgress[q] {
          assert createdIngress[q] == createdIngress[..][q] == cin[q];
          assert createdEgress[q] == createdEgress[..][q] == ceg[q];
        }
      }
      assert ifs[..|ifs|] == ifs;
    }

    /** The loop body for the interface at index `i`; every exit moves the index on to the next interface. */
    method AttachInterface(i: nat) returns (next: nat)
      requires Valid() && Named() && i < |ifs| && !createdIngress[i] && !createdEgress[i]
      modifies lib, createdIngress, createdEgress
      ensures next == i + 1
      ensures var v := VisitInterface(lib.oracle, old(lib.State()), ifs[i]);
              && lib.State() == v.kernel
              && createdIngress[..] == old(createdIngress[..])[i := v.createdIngress]
              && createdEgress[..] == old(createdEgress[..])[i := v.createdEgress]
    {
      var err := lib.Destroy(hooksIngress[i]);
      err := lib.Destroy(hooksEgress[i]);
      err := lib.Create(hooksIngress[i]);
      if err == 0 {
        createdIngress[i] := true;
      }
      if err != 0 && err != -EEXIST {
        return i + 1;
      }
      err := lib.Create(hooksEgress[i]);
      if err == 0 {
        createdEgress[i] := true;
      }
      if err != 0 && err != -EEXIST {
        if createdIngress[i] {
          err := lib.Destroy(hooksIngress[i]);
        }
        return i + 1;
      }
      AttachBoth(i);
      return i + 1;
    }

    method AttachBoth(i: nat)
      requires Valid() && Named() && i < |ifs|
      modifies lib
      ensures lib.State() == AttachPrograms(lib.oracle, old(lib.State()), ifs[i], createdIngress[i], createdEgress[i])
    {
      var err := lib.AttachProg(hooksIngress[i], OptSlot(Ingress), Ours(Ingress));
      if err != 0 {
        if createdIngress[i] {
          err := lib.Destroy(hooksIngress[i]);
        }
        if createdEgress[i] {
          err := lib.Destroy(hooksEgress[i]);
        }
        return;
      }
      err := lib.AttachProg(hooksEgress[i], OptSlot(Egress), Ours(Egress));
      if err != 0 {
        err := lib.DetachProg(hooksIngress[i], OptSlot(Ingress));
        if createdIngress[i] {
          err := lib.Destroy(hooksIngress[i]);
        }
        if createdEgress[i] {
          err := lib.Destroy(hooksEgress[i]);
        }
      }
    }

    /** The destructor. */
    method TearDown()
      requires Valid() && Named()
      modifies lib
      ensures lib.State() == TearDownAll(lib.oracle, old(lib.State()), ifs, createdIngress[..], createdEgress[..])
    {
      hide HookDestroy, Detach;
      ghost var k0, o, cin, ceg := lib.State(), lib.oracle, createdIngress[..], createdEgress[..];
      for i := 0 to |ifs|
        invariant Named() && createdIngress[..] == cin && createdEgress[..] == ceg
        invariant lib.State() == TearDownAll(o, k0, ifs[..i], cin[..i], ceg[..i])
      {
        assert ifs[..i + 1][..i] == ifs[..i] && cin[..i + 1][..i] == cin[..i] && ceg[..i + 1][..i] == ceg[..i];
        var err := lib.DetachProg(hooksIngress[i], OptSlot(Ingress));
        err := lib.DetachProg(hooksEgress[i], OptSlot(Egress));
        if createdIngress[i] {
          err := lib.Destroy(hooksIngress[i]);
        }
        if createdEgress[i] {
          err := lib.Destroy(hooksEgress[i]);
        }
      }
      assert ifs[..|ifs|] == ifs && cin[..|ifs|] == cin && ceg[..|ifs|] == ceg;
    }
  }
}
