/**
 Whole runs of the cache with the ARC policy: any sequence of allocations, deallocations, uses,
 probes and permission changes. What every reachable state satisfies, and what the replacement data
 and the ghost lists say about the history that led to it.
 */
module CacheRuns {
  import opened Common
  import opened ArcSpec
  import opened ArcPolicy
  import opened CacheSpec
  import opened CacheLaws

  /** `Retag` is a write to a slot's `tag` by code outside the cache; the cache itself has none. */
  datatype Op =
    | Alloc(a: Addr, entry: Entry, now: Tick)
    | Dealloc(a: Addr)
    | Use(a: Addr, now: Tick)
    | ProbeFor(a: Addr, now: Tick)
    | SetPerm(a: Addr, perm: Permission)
    | Retag(s: nat, w: nat, tag: Addr)

  /** What the source asserts of its callers, no resident made NotPresent, and no division by zero. */
  ghost predicate Enabled(g: Geometry, st: State, op: Op)
    requires Inv(g, st)
  {
    match op
    case Alloc(a, e, now) =>
      IsLine(g, a) && Lookup(g, st, a).None? && Avail(g, st, a) && !Allocate(g, st, a, e, now).AllocTrap?
    case Dealloc(a) => Lookup(g, st, a).Some?
    case Use(a, now) => true
    case ProbeFor(a, now) => !Avail(g, st, a)
    case SetPerm(a, perm) => Lookup(g, st, a).Some? && perm != NotPresent
    case Retag(s, w, tag) => s < g.numSets && w < g.assoc
  }

  ghost function Apply(g: Geometry, st: State, op: Op): State
    requires Inv(g, st) && Enabled(g, st, op)
  {
    match op
    case Alloc(a, e, now) => AllocateFindsSlot(g, st, a, e, now); Allocate(g, st, a, e, now).st
    case Dealloc(a) => Deallocate(g, st, a)
    case Use(a, now) => Touch(g, st, a, now)
    case ProbeFor(a, now) => Probe(g, st, a, now)
    case SetPerm(a, perm) => SetPermission(g, st, a, perm)
    case Retag(s, w, tag) => var c := st.cells[s][w]; WithCell(st, s, w, c.(rd := c.rd.(tag := tag)))
  }

  /** The same operation on a plain map from addresses to lines. */
  ghost function MapStep(m: map<Addr, Line>, op: Op): map<Addr, Line> {
    match op
    case Alloc(a, e, now) => m[a := Line(a, Invalid, e)]
    case Dealloc(a) => m - {a}
    case SetPerm(a, perm) => if a in m then m[a := m[a].(perm := perm)] else m
    case _ => m
  }

  /** Every step keeps the invariant and does to the contents what the plain map operation does. */
  lemma StepKeepsInvAndRefines(g: Geometry, st: State, op: Op)
    requires Inv(g, st) && Enabled(g, st, op)
    ensures Inv(g, Apply(g, st, op))
    ensures Contents(g, Apply(g, st, op)) == MapStep(Contents(g, st), op)
  {
    match op
    case Alloc(a, e, now) =>
      AllocateFindsSlot(g, st, a, e, now);
      AllocateKeepsInv(g, st, a, e, now);
    case Dealloc(a) => DeallocateKeepsInv(g, st, a);
    case Use(a, now) => TouchKeepsInv(g, st, a, now);
    case ProbeFor(a, now) => ProbeKeepsInv(g, st, a, now);
    case SetPerm(a, perm) => SetPermissionKeepsInv(g, st, a, perm);
    case Retag(s, w, tag) =>
      assert SlotOk(g, st, s, w);
      RelabelKeepsInv(g, st, s, w, st.cells[s][w].rd.(tag := tag));
  }

  /** The state after `ops`, or None if some operation was not enabled. */
  ghost function Run(g: Geometry, ops: seq<Op>): (r: Option<State>)
    requires GeometryOk(g)
    ensures r.Some? ==> Inv(g, r.value)
  {
    if ops == [] then EmptyStateInv(g); Some(EmptyState(g))
    else
      var n := |ops| - 1;
      match Run(g, ops[..n])
      case None => None
      case Some(st) =>
        if Enabled(g, st, ops[n]) then
          StepKeepsInvAndRefines(g, st, ops[n]);
          Some(Apply(g, st, ops[n]))
        else None
  }

  ghost function MapRun(ops: seq<Op>): map<Addr, Line> {
    if ops == [] then map[] else MapStep(MapRun(ops[..|ops| - 1]), ops[|ops| - 1])
  }

  /** The cache is a plain map from addresses to entries and permissions, whatever the policy evicts. */
  lemma {:induction false} RunRefinesMap(g: Geometry, ops: seq<Op>)
    requires GeometryOk(g) && Run(g, ops).Some?
    ensures Contents(g, Run(g, ops).value) == MapRun(ops)
  {
    if ops == [] {
      EmptyStateInv(g);
    } else {
      var n := |ops| - 1;
      RunRefinesMap(g, ops[..n]);
      StepKeepsInvAndRefines(g, Run(g, ops[..n]).value, ops[n]);
    }
  }

  /** Every prefix of a run is a run, and the policy's vectors only grow along it. */
  lemma {:induction false} VectorsNeverShrink(g: Geometry, ops: seq<Op>, k: nat)
    requires GeometryOk(g) && Run(g, ops).Some? && k <= |ops|
    ensures Run(g, ops[..k]).Some?
    ensures |Run(g, ops[..k]).value.arc.p| <= |Run(g, ops).value.arc.p|
  {
    var n := |ops| - 1;
    if k == |ops| {
      assert ops[..k] == ops;
    } else {
      assert ops[..n][..k] == ops[..k];
      VectorsNeverShrink(g, ops[..n], k);
      StepGrowsVectors(g, Run(g, ops[..n]).value, ops[n]);
    }
  }

  lemma StepGrowsVectors(g: Geometry, st: State, op: Op)
    requires Inv(g, st) && Enabled(g, st, op)
    ensures |st.arc.p| <= |Apply(g, st, op).arc.p|
  {
    match op
    case Alloc(a, e, now) =>
      AllocateFindsSlot(g, st, a, e, now);
      AllocateFrame(g, st, a, e, now);
      ResetEffect(st.arc, SetOf(g, a), st.cells[SetOf(g, a)][AllocWay(g, st, a)].rd.tag);
    case ProbeFor(a, now) => EvictEffect(st.arc, SetOf(g, a), Row(st, SetOf(g, a)), now);
    case _ =>
  }

  // ---------------------------------------------------------------- history of a line

  function LastAlloc(ops: seq<Op>, a: Addr): (k: int)
    ensures -1 <= k < |ops|
    ensures k >= 0 ==> ops[k].Alloc? && ops[k].a == a
  {
    if ops == [] then -1
    else
      var n := |ops| - 1;
      if ops[n].Alloc? && ops[n].a == a then n else LastAlloc(ops[..n], a)
  }

  predicate Uses(op: Op, a: Addr) { (op.Alloc? || op.Use?) && op.a == a }

  function LastUse(ops: seq<Op>, a: Addr): (k: int)
    ensures -1 <= k < |ops|
    ensures k >= 0 ==> Uses(ops[k], a)
    ensures forall j :: k < j < |ops| ==> !Uses(ops[j], a)
  {
    if ops == [] then -1
    else
      var n := |ops| - 1;
      if Uses(ops[n], a) then n else LastUse(ops[..n], a)
  }

  ghost function DataOf(g: Geometry, st: State, a: Addr): Repl
    requires Inv(g, st) && a in st.index
  {
    assert IndexOk(g, st, a);
    st.cells[SetOf(g, a)][st.index[a]].rd
  }

  /** What an allocation gives its own line. */
  lemma AllocHistory(g: Geometry, st: State, a: Addr, e: Entry, now: Tick)
    requires Inv(g, st) && Enabled(g, st, Alloc(a, e, now)) && Inv(g, Apply(g, st, Alloc(a, e, now)))
    ensures var st' := Apply(g, st, Alloc(a, e, now)); var s := SetOf(g, a);
            && a in st'.index && st'.index[a] == AllocWay(g, st, a) < g.assoc
            && DataOf(g, st', a).tick == now
            && var tag := st.cells[s][st'.index[a]].rd.tag;
               DataOf(g, st', a).listId == 1 <==> tag !in B1(st.arc, s) && tag !in B2(st.arc, s)
  {
    AllocateFindsSlot(g, st, a, e, now);
    AllocateFrame(g, st, a, e, now);
    ResetEffect(st.arc, SetOf(g, a), st.cells[SetOf(g, a)][AllocWay(g, st, a)].rd.tag);
  }

  /** How any other step changes the tick and the list of a line that is resident after it. */
  lemma StepHistory(g: Geometry, st: State, op: Op, a: Addr)
    requires Inv(g, st) && Enabled(g, st, op) && Inv(g, Apply(g, st, op)) && a in Apply(g, st, op).index
    requires !(op.Alloc? && op.a == a)
    ensures var st' := Apply(g, st, op);
            && a in st.index && st'.index[a] == st.index[a]
            && var was := DataOf(g, st, a);
               DataOf(g, st', a).(tag := 0) == (if op.Use? && op.a == a then Touched(was, op.now) else was).(tag := 0)
  {
    assert IndexOk(g, st, a);
    match op
    case Alloc(b, e, now) =>
      AllocateFindsSlot(g, st, b, e, now);
      AllocateFrame(g, st, b, e, now);
      assert SlotOk(g, st, SetOf(g, b), AllocWay(g, st, b));
    case Dealloc(b) => assert IndexOk(g, st, b);
    case Use(b, now) => LookupIsScan(g, st, b); assert IndexOk(g, st, b);
    case ProbeFor(b, now) =>
    case SetPerm(b, perm) => assert IndexOk(g, st, b);
    case Retag(s, w, tag) =>
  }

  /** The last allocation of a resident line, the state it met, and its last use. */
  ghost predicate HistoryOf(g: Geometry, ops: seq<Op>, st: State, a: Addr)
    requires Inv(g, st) && a in st.index
  {
    var k, u := LastAlloc(ops, a), LastUse(ops, a);
    && 0 <= k <= u
    && Run(g, ops[..k]).Some?
    && IndexOk(g, st, a)
    && var before := Run(g, ops[..k]).value;
       var tag := before.cells[SetOf(g, a)][st.index[a]].rd.tag;
       var rd := DataOf(g, st, a);
       && rd.tick == ops[u].now
       && (rd.listId == 1 <==> u == k && tag !in B1(before.arc, SetOf(g, a)) && tag !in B2(before.arc, SetOf(g, a)))
  }

  /** An allocation of `a` starts its history. */
  lemma HistoryStart(g: Geometry, ops: seq<Op>, st: State, a: Addr)
    requires GeometryOk(g) && ops != [] && Run(g, ops[..|ops| - 1]) == Some(st)
    requires var op := ops[|ops| - 1];
             Enabled(g, st, op) && Inv(g, Apply(g, st, op)) && a in Apply(g, st, op).index && op.Alloc? && op.a == a
    ensures HistoryOf(g, ops, Apply(g, st, ops[|ops| - 1]), a)
  {
    var op := ops[|ops| - 1];
    AllocHistory(g, st, a, op.entry, op.now);
    assert IndexOk(g, Apply(g, st, op), a);
  }

  /** Any other step carries it on. */
  lemma HistoryStep(g: Geometry, ops: seq<Op>, st: State, a: Addr)
    requires GeometryOk(g) && ops != [] && Inv(g, st) && a in st.index
    requires var op := ops[|ops| - 1];
             Enabled(g, st, op) && Inv(g, Apply(g, st, op)) && a in Apply(g, st, op).index && !(op.Alloc? && op.a == a)
    requires HistoryOf(g, ops[..|ops| - 1], st, a)
    ensures HistoryOf(g, ops, Apply(g, st, ops[|ops| - 1]), a)
  {
    var n := |ops| - 1;
    StepHistory(g, st, ops[n], a);
    assert ops[..n][..LastAlloc(ops[..n], a)] == ops[..LastAlloc(ops[..n], a)];
    assert IndexOk(g, Apply(g, st, ops[n]), a);
    assert IndexOk(g, st, a);
    assert SlotOk(g, st, SetOf(g, a), st.index[a]);
  }

  lemma ResidentBefore(g: Geometry, st: State, op: Op, a: Addr)
    requires Inv(g, st) && Enabled(g, st, op) && Inv(g, Apply(g, st, op)) && a in Apply(g, st, op).index
    ensures (op.Alloc? && op.a == a) || a in st.index
  {
    if !(op.Alloc? && op.a == a) {
      StepHistory(g, st, op, a);
    }
  }

  /**
   A resident line is on T1 exactly when it was not used since its last allocation and that allocation
   hit neither ghost list, and its tick is that of its last use or allocation.
   */
  lemma {:induction false} ListAndTickMeanHistory(g: Geometry, ops: seq<Op>, a: Addr)
    requires GeometryOk(g) && Run(g, ops).Some? && a in Run(g, ops).value.index
    ensures HistoryOf(g, ops, Run(g, ops).value, a)
  {
    if ops == [] {
    } else {
      var n := |ops| - 1;
      var st := Run(g, ops[..n]).value;
      ResidentBefore(g, st, ops[n], a);
      if ops[n].Alloc? && ops[n].a == a {
        HistoryStart(g, ops, st, a);
      } else {
        ListAndTickMeanHistory(g, ops[..n], a);
        HistoryStep(g, ops, st, a);
      }
    }
  }

  predicate Timed(op: Op) { op.Alloc? || op.Use? || op.ProbeFor? }

  ghost predicate ClockRuns(ops: seq<Op>) {
    forall i, j :: 0 <= i < j < |ops| && Timed(ops[i]) && Timed(ops[j]) ==> ops[i].now <= ops[j].now
  }

  /** The line in slot (s, w), on T1 or T2 of its set. */
  ghost predicate OnListIn(g: Geometry, st: State, s: nat, w: nat, t1: bool)
    requires Shape(g, st)
  {
    s < g.numSets && w < g.assoc && st.cells[s][w].line.Some? && OnList(st.cells[s][w].rd, t1)
  }

  ghost function LastUseTick(ops: seq<Op>, a: Addr): Tick
    requires LastUse(ops, a) >= 0
  {
    ops[LastUse(ops, a)].now
  }

  /** The line in slot (s, w) of a reachable state, and what its tick says about the run. */
  lemma SlotHistory(g: Geometry, ops: seq<Op>, s: nat, w: nat)
    requires GeometryOk(g) && Run(g, ops).Some? && s < g.numSets && w < g.assoc
    requires Run(g, ops).value.cells[s][w].line.Some?
    ensures var c := Run(g, ops).value.cells[s][w];
            LastUse(ops, c.line.value.addr) >= 0 && c.rd.tick == LastUseTick(ops, c.line.value.addr)
  {
    var st := Run(g, ops).value;
    var a := st.cells[s][w].line.value.addr;
    assert SlotIndexed(g, st, s, w);
    ListAndTickMeanHistory(g, ops, a);
    assert DataOf(g, st, a) == st.cells[s][w].rd;
  }

  /** Last uses are ordered as their ticks are, and none is later than now. */
  lemma ClockOrdersUses(ops: seq<Op>, a: Addr, b: Addr, probed: Addr, now: Tick)
    requires ClockRuns(ops + [ProbeFor(probed, now)]) && LastUse(ops, a) >= 0 && LastUse(ops, b) >= 0
    ensures LastUse(ops, a) < LastUse(ops, b) ==> LastUseTick(ops, a) <= LastUseTick(ops, b)
    ensures LastUseTick(ops, a) <= now
  {
    var all := ops + [ProbeFor(probed, now)];
    var u, v := LastUse(ops, a), LastUse(ops, b);
    assert all[u] == ops[u] && all[v] == ops[v] && all[|ops|] == ProbeFor(probed, now);
    assert Timed(all[u]) && Timed(all[v]) && Timed(all[|ops|]);
  }

  /** In a full set, what the victim's tick is against that of any line of the chosen list. */
  lemma VictimTick(g: Geometry, st: State, a: Addr, now: Tick, w: nat)
    requires Inv(g, st) && !Avail(g, st, a)
    requires var s := SetOf(g, a); OnListIn(g, st, s, w, FromT1(Row(st, s), P(st.arc, s)))
    ensures var s := SetOf(g, a); var k := ProbeWay(g, st, a, now);
            && k.Some? && st.cells[s][k.value].line.Some?
            && (PickedFromList(g, st, a, now, k.value) ==> st.cells[s][k.value].rd.tick <= st.cells[s][w].rd.tick)
            && (!PickedFromList(g, st, a, now, k.value) ==> now <= st.cells[s][w].rd.tick)
  {
    ProbeFindsVictim(g, st, a, now);
    ProbeChoosesNonemptyList(g, st, a, now);
    var rs := Row(st, SetOf(g, a));
    assert rs[w] == st.cells[SetOf(g, a)][w].rd;
  }

  /** The victim of a probe after `ops`, its list's line in way `w`, and their last uses. */
  ghost predicate LeastRecentlyUsed(g: Geometry, ops: seq<Op>, st: State, a: Addr, now: Tick, w: nat)
    requires Shape(g, st)
  {
    var s := SetOf(g, a);
    var k := ProbeWay(g, st, a, now);
    && k.Some? && st.cells[s][k.value].line.Some? && w < g.assoc && st.cells[s][w].line.Some?
    && var victim, other := st.cells[s][k.value].line.value.addr, st.cells[s][w].line.value.addr;
       && LastUse(ops, victim) >= 0 && LastUse(ops, other) >= 0
       && (PickedFromList(g, st, a, now, k.value) ==>
             && LastUseTick(ops, victim) <= LastUseTick(ops, other)
             && (LastUse(ops, other) < LastUse(ops, victim) ==>
                   LastUseTick(ops, victim) == LastUseTick(ops, other)))
       && (!PickedFromList(g, st, a, now, k.value) ==> LastUseTick(ops, other) == now)
  }

  /**
   Under a clock that never goes back, the victim a probe picks from its list is a least recently used
   line of that list: no line there has an older last use. The fallback is taken only when every
   line of the list was last used at this very tick.
   */
  lemma VictimIsLeastRecentlyUsed(g: Geometry, ops: seq<Op>, a: Addr, now: Tick, w: nat)
    requires GeometryOk(g) && Run(g, ops).Some? && ClockRuns(ops + [ProbeFor(a, now)])
    requires !Avail(g, Run(g, ops).value, a)
    requires var st := Run(g, ops).value; var s := SetOf(g, a);
             OnListIn(g, st, s, w, FromT1(Row(st, s), P(st.arc, s)))
    ensures LeastRecentlyUsed(g, ops, Run(g, ops).value, a, now, w)
  {
    var st := Run(g, ops).value;
    var s := SetOf(g, a);
    VictimTick(g, st, a, now, w);
    var k := ProbeWay(g, st, a, now).value;
    SlotHistory(g, ops, s, k);
    SlotHistory(g, ops, s, w);
    ClockOrdersUses(ops, st.cells[s][w].line.value.addr, st.cells[s][k].line.value.addr, a, now);
  }
}
