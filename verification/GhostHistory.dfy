/**
 The ghost lists over whole runs: what each one holds is an account of the victims selected so far.
 Also what follows from the code as it stands, where no tag ever changes: what a fill does, and a
 discipline of the callers under which the policy never adapts and never divides by zero.
 */
module GhostHistory {
  import opened Common
  import opened ArcSpec
  import opened ArcPolicy
  import opened CacheSpec
  import opened CacheLaws
  import opened CacheRuns

  function GhostList(st: State, s: nat, b1: bool): seq<Addr> {
    if b1 then B1(st.arc, s) else B2(st.arc, s)
  }

  /** The tag a step adds to a ghost list: that of the victim a probe selects from T1 (for B1) or T2. */
  ghost function PushedBy(g: Geometry, st: State, op: Op, s: nat, b1: bool): Option<Addr>
    requires Inv(g, st)
  {
    if op.ProbeFor? && SetOf(g, op.a) == s && ProbeWay(g, st, op.a, op.now).Some? then
      var rd := st.cells[s][ProbeWay(g, st, op.a, op.now).value].rd;
      if (rd.listId == 1) == b1 then Some(rd.tag) else None
    else None
  }

  /** The tag a step takes out of a ghost list: that of the slot an allocation fills, B1 before B2. */
  ghost function HitBy(g: Geometry, st: State, op: Op, s: nat, b1: bool): Option<Addr>
    requires Inv(g, st) && Enabled(g, st, op)
  {
    if op.Alloc? && SetOf(g, op.a) == s then
      AllocateFindsSlot(g, st, op.a, op.entry, op.now);
      var tag := st.cells[s][AllocWay(g, st, op.a)].rd.tag;
      if tag in GhostList(st, s, b1) && (b1 || tag !in GhostList(st, s, true)) then Some(tag) else None
    else None
  }

  ghost predicate StepOfList(l: seq<Addr>, pushed: Option<Addr>, hit: Option<Addr>, cap: nat, l': seq<Addr>) {
    match pushed
    case Some(tag) => cap >= 1 && l' == if |l| < cap then l + [tag] else l[1..] + [tag]
    case None =>
      match hit
      case Some(tag) => exists i :: 0 <= i < |l| && l[i] == tag && tag !in l[..i] && l' == l[..i] + l[i + 1..]
      case None => l' == l
  }

  lemma AllocListStep(g: Geometry, st: State, op: Op, s: nat, b1: bool)
    requires Inv(g, st) && Enabled(g, st, op) && op.Alloc?
    ensures StepOfList(GhostList(st, s, b1), None, HitBy(g, st, op, s, b1), 0, GhostList(Apply(g, st, op), s, b1))
  {
    AllocateFindsSlot(g, st, op.a, op.entry, op.now);
    AllocateFrame(g, st, op.a, op.entry, op.now);
    var t := SetOf(g, op.a);
    ResetEffect(st.arc, t, st.cells[t][AllocWay(g, st, op.a)].rd.tag);
  }

  lemma ProbeListStep(g: Geometry, st: State, op: Op, s: nat, b1: bool)
    requires Inv(g, st) && Enabled(g, st, op) && op.ProbeFor?
    ensures StepOfList(GhostList(st, s, b1), PushedBy(g, st, op, s, b1), None, |Apply(g, st, op).arc.p|,
                       GhostList(Apply(g, st, op), s, b1))
  {
    var t := SetOf(g, op.a);
    EvictEffect(st.arc, t, Row(st, t), op.now);
  }

  /**
   A ghost list gains entries only at the back, one per selected victim, and loses them only by the
   drop of its front at the cap or by a hit that takes out the first match.
   */
  lemma GhostListStep(g: Geometry, st: State, op: Op, s: nat, b1: bool)
    requires Inv(g, st) && Enabled(g, st, op)
    ensures StepOfList(GhostList(st, s, b1), PushedBy(g, st, op, s, b1), HitBy(g, st, op, s, b1),
                       |Apply(g, st, op).arc.p|, GhostList(Apply(g, st, op), s, b1))
  {
    if op.Alloc? {
      AllocListStep(g, st, op, s, b1);
    } else if op.ProbeFor? {
      ProbeListStep(g, st, op, s, b1);
    } else {
      assert Apply(g, st, op).arc == st.arc;
    }
  }

  /** All tags selected into a list so far, in order. */
  ghost function Pushed(g: Geometry, ops: seq<Op>, s: nat, b1: bool): seq<Addr>
    requires GeometryOk(g) && Run(g, ops).Some?
  {
    if ops == [] then []
    else
      var n := |ops| - 1;
      var earlier := Pushed(g, ops[..n], s, b1);
      match PushedBy(g, Run(g, ops[..n]).value, ops[n], s, b1)
      case Some(tag) => earlier + [tag]
      case None => earlier
  }

  /** How often the list was at its cap when a tag came in. */
  ghost function Drops(g: Geometry, ops: seq<Op>, s: nat, b1: bool): nat
    requires GeometryOk(g) && Run(g, ops).Some?
  {
    if ops == [] then 0
    else
      var n := |ops| - 1;
      var st := Run(g, ops[..n]).value;
      Drops(g, ops[..n], s, b1) +
      if PushedBy(g, st, ops[n], s, b1).Some? && |GhostList(st, s, b1)| == |Run(g, ops).value.arc.p| then 1 else 0
  }

  /** How often an allocation hit the list. */
  ghost function Hits(g: Geometry, ops: seq<Op>, s: nat, b1: bool): nat
    requires GeometryOk(g) && Run(g, ops).Some?
  {
    if ops == [] then 0
    else
      var n := |ops| - 1;
      Hits(g, ops[..n], s, b1) + if HitBy(g, Run(g, ops[..n]).value, ops[n], s, b1).Some? then 1 else 0
  }

  /** `x` is obtained from `y` by leaving out elements. */
  ghost predicate Subsequence(x: seq<Addr>, y: seq<Addr>) {
    if x == [] then true
    else if y == [] then false
    else
      || (x[|x| - 1] == y[|y| - 1] && Subsequence(x[..|x| - 1], y[..|y| - 1]))
      || Subsequence(x, y[..|y| - 1])
  }

  lemma {:induction false} SubsequenceRemove(x: seq<Addr>, i: nat, y: seq<Addr>)
    requires i < |x| && Subsequence(x, y)
    ensures Subsequence(RemoveAt(x, i), y)
    decreases |y|
  {
    var x', y' := x[..|x| - 1], y[..|y| - 1];
    var r := RemoveAt(x, i);
    if r == [] {
    } else {
      if x[|x| - 1] == y[|y| - 1] && Subsequence(x', y') {
        if i == |x| - 1 {
          assert r == x';
          SubsequenceLonger(x', y);
        } else {
          SubsequenceRemove(x', i, y');
          assert r[..|r| - 1] == RemoveAt(x', i) && r[|r| - 1] == x[|x| - 1];
        }
      } else {
        SubsequenceRemove(x, i, y');
      }
    }
  }

  lemma SubsequenceLonger(x: seq<Addr>, y: seq<Addr>)
    requires y != [] && Subsequence(x, y[..|y| - 1])
    ensures Subsequence(x, y)
  {
  }

  lemma SubsequencePush(x: seq<Addr>, y: seq<Addr>, t: Addr)
    requires Subsequence(x, y)
    ensures Subsequence(x + [t], y + [t])
  {
    assert (x + [t])[..|x|] == x && (y + [t])[..|y|] == y;
  }

  /**
   The account of a ghost list: an in-order subsequence of the tags selected into it, as long as those
   selected less those dropped at the cap and those hit, and never longer than the number of set slots.
   */
  lemma {:induction false} GhostListAccount(g: Geometry, ops: seq<Op>, s: nat, b1: bool)
    requires GeometryOk(g) && Run(g, ops).Some?
    ensures var l := GhostList(Run(g, ops).value, s, b1);
            && Subsequence(l, Pushed(g, ops, s, b1))
            && |l| == |Pushed(g, ops, s, b1)| - Drops(g, ops, s, b1) - Hits(g, ops, s, b1)
            && |l| <= |Run(g, ops).value.arc.p|
  {
    var st' := Run(g, ops).value;
    CapHolds(st'.arc, s);
    if ops == [] {
    } else {
      var n := |ops| - 1;
      var st := Run(g, ops[..n]).value;
      var l, earlier := GhostList(st, s, b1), Pushed(g, ops[..n], s, b1);
      GhostListAccount(g, ops[..n], s, b1);
      GhostListStep(g, st, ops[n], s, b1);
      StepGrowsVectors(g, st, ops[n]);
      CapHolds(st.arc, s);
      AccountStep(l, earlier, PushedBy(g, st, ops[n], s, b1), HitBy(g, st, ops[n], s, b1), |st'.arc.p|,
                  GhostList(st', s, b1));
    }
  }

  lemma CapHolds(ar: ArcState, s: nat)
    requires ArcInv(ar)
    ensures |B1(ar, s)| <= |ar.p| && |B2(ar, s)| <= |ar.p|
  {
    assert 0 <= P(ar, s);
  }

  /** The same step on the list alone. */
  lemma AccountStep(l: seq<Addr>, earlier: seq<Addr>, pushed: Option<Addr>, hit: Option<Addr>, cap: nat,
                    l': seq<Addr>)
    requires Subsequence(l, earlier) && |l| <= cap
    requires StepOfList(l, pushed, hit, cap, l')
    ensures Subsequence(l', if pushed.Some? then earlier + [pushed.value] else earlier)
    ensures pushed.Some? ==> |l'| == |l| + 1 - (if |l| == cap then 1 else 0)
    ensures pushed.None? ==> |l'| == |l| - (if hit.Some? then 1 else 0)
  {
    if pushed.Some? {
      var tag := pushed.value;
      SubsequencePush(l, earlier, tag);
      SubsequenceRemove(l + [tag], 0, earlier + [tag]);
      assert |l| == cap ==> RemoveAt(l + [tag], 0) == l[1..] + [tag];
    } else if hit.Some? {
      var i :| 0 <= i < |l| && l[i] == hit.value && l' == l[..i] + l[i + 1..];
      SubsequenceRemove(l, i, earlier);
    }
  }

  // ---------------------------------------------------------------- the code as it stands

  ghost predicate NoRetag(ops: seq<Op>) {
    forall i :: 0 <= i < |ops| ==> !ops[i].Retag?
  }

  ghost predicate AllZero(l: seq<Addr>) {
    forall i :: 0 <= i < |l| ==> l[i] == 0
  }

  ghost predicate TagsZero(g: Geometry, st: State)
    requires Shape(g, st)
  {
    && (forall s, w :: 0 <= s < g.numSets && 0 <= w < g.assoc ==> st.cells[s][w].rd.tag == 0)
    && (forall s: nat, b1: bool :: AllZero(GhostList(st, s, b1)))
  }

  lemma StepKeepsCellTags(g: Geometry, st: State, op: Op, s: nat, w: nat)
    requires Inv(g, st) && Enabled(g, st, op) && !op.Retag? && s < g.numSets && w < g.assoc
    ensures Shape(g, Apply(g, st, op)) && Apply(g, st, op).cells[s][w].rd.tag == st.cells[s][w].rd.tag
  {
    if op.Alloc? {
      AllocateFindsSlot(g, st, op.a, op.entry, op.now);
      AllocateFrame(g, st, op.a, op.entry, op.now);
    }
  }

  lemma StepKeepsGhostsZero(g: Geometry, st: State, op: Op, s: nat, b1: bool)
    requires Inv(g, st) && Enabled(g, st, op) && !op.Retag? && TagsZero(g, st)
    ensures AllZero(GhostList(Apply(g, st, op), s, b1))
  {
    var l := GhostList(st, s, b1);
    assert AllZero(l);
    GhostListStep(g, st, op, s, b1);
    var pushed := PushedBy(g, st, op, s, b1);
    assert pushed.Some? ==> pushed.value == 0;
    StaysZero(l, |Apply(g, st, op).arc.p|);
  }

  lemma StaysZero(l: seq<Addr>, cap: nat)
    requires AllZero(l)
    ensures AllZero(PushCapped(l, 0, cap))
    ensures forall tag | tag in l :: AllZero(RemoveFirst(l, tag))
  {
  }

  lemma StepKeepsTagsZero(g: Geometry, st: State, op: Op)
    requires Inv(g, st) && Enabled(g, st, op) && !op.Retag? && TagsZero(g, st)
    requires Inv(g, Apply(g, st, op))
    ensures TagsZero(g, Apply(g, st, op))
  {
    forall s, w | 0 <= s < g.numSets && 0 <= w < g.assoc
      ensures Apply(g, st, op).cells[s][w].rd.tag == 0
    {
      StepKeepsCellTags(g, st, op, s, w);
    }
    forall s: nat, b1: bool
      ensures AllZero(GhostList(Apply(g, st, op), s, b1))
    {
      StepKeepsGhostsZero(g, st, op, s, b1);
    }
  }

  lemma ZeroIn(l: seq<Addr>)
    requires AllZero(l)
    ensures 0 in l <==> l != []
    ensures l == [0] <==> |l| == 1
  {
    if l != [] {
      assert l[0] == 0;
    }
  }

  /** Nothing in the cache or the policy writes a tag, so every tag and every ghost is zero for ever. */
  lemma {:induction false} TagsStayZero(g: Geometry, ops: seq<Op>)
    requires GeometryOk(g) && Run(g, ops).Some? && NoRetag(ops)
    ensures TagsZero(g, Run(g, ops).value)
  {
    if ops == [] {
    } else {
      var n := |ops| - 1;
      TagsStayZero(g, ops[..n]);
      StepKeepsTagsZero(g, Run(g, ops[..n]).value, ops[n]);
    }
  }

  /**
   So a ghost hit says nothing about the address: with no tag writes, a fill goes to T1 exactly when
   both ghost lists of its set are empty, and it divides by zero exactly when B1 has one entry and
   B2 has some.
   */
  lemma FillsWithoutTags(g: Geometry, ops: seq<Op>, a: Addr, e: Entry, now: Tick)
    requires GeometryOk(g) && Run(g, ops).Some? && NoRetag(ops)
    requires var st := Run(g, ops).value; IsLine(g, a) && Lookup(g, st, a).None? && Avail(g, st, a)
    ensures var st := Run(g, ops).value; var s := SetOf(g, a); var r := Allocate(g, st, a, e, now);
            && (r.AllocTrap? <==> |B1(st.arc, s)| == 1 && |B2(st.arc, s)| >= 1)
            && (!r.AllocTrap? ==>
                  && r.Allocated? && Inv(g, r.st) && a in r.st.index
                  && (DataOf(g, r.st, a).listId == 1 <==> B1(st.arc, s) == [] && B2(st.arc, s) == []))
  {
    var st := Run(g, ops).value;
    var s := SetOf(g, a);
    TagsStayZero(g, ops);
    AllocateFindsSlot(g, st, a, e, now);
    var w := AllocWay(g, st, a);
    assert st.cells[s][w].rd.tag == 0;
    assert AllZero(GhostList(st, s, true)) && AllZero(GhostList(st, s, false));
    ZeroIn(B1(st.arc, s));
    ZeroIn(B2(st.arc, s));
    ResetTrapsExactlyWhen(st.arc, s, 0);
    if Allocate(g, st, a, e, now).Allocated? {
      AllocateKeepsInv(g, st, a, e, now);
      AllocHistory(g, st, a, e, now);
    }
  }

  // ---------------------------------------------------------------- a discipline that keeps the policy idle

  predicate Probes(g: Geometry, op: Op, s: nat) { op.ProbeFor? && SetOf(g, op.a) == s }

  predicate Fills(g: Geometry, op: Op, s: nat) { op.Alloc? && SetOf(g, op.a) == s }

  /** Between any two probes of a set there is a fill of it. */
  ghost predicate FillsBetweenProbes(g: Geometry, ops: seq<Op>) {
    forall i, j, s :: 0 <= i < j < |ops| && Probes(g, ops[i], s) && Probes(g, ops[j], s) ==>
      exists k :: i < k < j && Fills(g, ops[k], s)
  }

  /** The set was probed and not filled since. */
  predicate Outstanding(g: Geometry, ops: seq<Op>, s: nat) {
    if ops == [] then false
    else
      var n := |ops| - 1;
      Probes(g, ops[n], s) || (!Fills(g, ops[n], s) && Outstanding(g, ops[..n], s))
  }

  lemma {:induction false} OutstandingProbe(g: Geometry, ops: seq<Op>, s: nat) returns (i: nat)
    requires Outstanding(g, ops, s)
    ensures i < |ops| && Probes(g, ops[i], s) && forall k :: i < k < |ops| ==> !Fills(g, ops[k], s)
  {
    var n := |ops| - 1;
    if Probes(g, ops[n], s) {
      i := n;
    } else {
      i := OutstandingProbe(g, ops[..n], s);
    }
  }

  /** Under the discipline a probe never meets an outstanding one. */
  lemma ProbesAlternate(g: Geometry, ops: seq<Op>, s: nat)
    requires ops != [] && FillsBetweenProbes(g, ops) && Probes(g, ops[|ops| - 1], s)
    ensures !Outstanding(g, ops[..|ops| - 1], s)
  {
    if Outstanding(g, ops[..|ops| - 1], s) {
      var i := OutstandingProbe(g, ops[..|ops| - 1], s);
    }
  }

  lemma PrefixAlternates(g: Geometry, ops: seq<Op>)
    requires ops != [] && FillsBetweenProbes(g, ops)
    ensures FillsBetweenProbes(g, ops[..|ops| - 1])
  {
    var front := ops[..|ops| - 1];
    forall i, j, s | 0 <= i < j < |front| && Probes(g, front[i], s) && Probes(g, front[j], s)
      ensures exists k :: i < k < j && Fills(g, front[k], s)
    {
      assert Probes(g, ops[i], s) && Probes(g, ops[j], s);
      var k :| i < k < j && Fills(g, ops[k], s);
      assert Fills(g, front[k], s);
    }
  }

  /** The policy has nothing to adapt in set `s`: target 0 and at most one ghost, there while a probe is open. */
  ghost predicate Idle(st: State, s: nat, open: bool) {
    P(st.arc, s) == 0 && Ghosts(st.arc, s) == if open then 1 else 0
  }

  lemma IdleProbe(g: Geometry, st: State, op: Op, s: nat, open: bool)
    requires Inv(g, st) && Enabled(g, st, op) && op.ProbeFor? && Idle(st, s, open)
    requires Probes(g, op, s) ==> !open
    ensures Idle(Apply(g, st, op), s, open || Probes(g, op, s))
  {
    var t := SetOf(g, op.a);
    EvictEffect(st.arc, t, Row(st, t), op.now);
    ProbeFindsVictim(g, st, op.a, op.now);
  }

  lemma IdleFill(g: Geometry, st: State, op: Op, s: nat, open: bool)
    requires Inv(g, st) && Enabled(g, st, op) && op.Alloc? && TagsZero(g, st) && Idle(st, s, open)
    ensures Idle(Apply(g, st, op), s, open && !Fills(g, op, s))
  {
    var t := SetOf(g, op.a);
    AllocateFindsSlot(g, st, op.a, op.entry, op.now);
    AllocateFrame(g, st, op.a, op.entry, op.now);
    var tag := st.cells[t][AllocWay(g, st, op.a)].rd.tag;
    assert tag == 0;
    ResetEffect(st.arc, t, 0);
    if t == s {
      assert AllZero(GhostList(st, s, true)) && AllZero(GhostList(st, s, false));
      ZeroIn(B1(st.arc, s));
      ZeroIn(B2(st.arc, s));
      Adaptation(st.arc, s, 0);
      ResetKeepsInv(st.arc, s, 0);
      assert 0 <= P(Apply(g, st, op).arc, s);
    }
  }

  lemma IdleStep(g: Geometry, st: State, op: Op, s: nat, open: bool)
    requires Inv(g, st) && Enabled(g, st, op) && !op.Retag? && TagsZero(g, st) && Idle(st, s, open)
    requires Probes(g, op, s) ==> !open
    ensures Idle(Apply(g, st, op), s, Probes(g, op, s) || (!Fills(g, op, s) && open))
  {
    if op.Alloc? {
      IdleFill(g, st, op, s, open);
    } else if op.ProbeFor? {
      IdleProbe(g, st, op, s, open);
    } else {
      assert Apply(g, st, op).arc == st.arc;
    }
  }

  /**
   If every two probes of a set have a fill of it between them, as when each probe is followed by the
   eviction and the fill it was made for, the target of every set stays 0 for ever, and a set has one
   ghost while a probe of it is outstanding and none otherwise.
   */
  lemma {:induction false} DisciplineKeepsIdle(g: Geometry, ops: seq<Op>, s: nat)
    requires GeometryOk(g) && Run(g, ops).Some? && NoRetag(ops) && FillsBetweenProbes(g, ops)
    ensures Idle(Run(g, ops).value, s, Outstanding(g, ops, s))
  {
    if ops == [] {
    } else {
      var n := |ops| - 1;
      PrefixAlternates(g, ops);
      DisciplineKeepsIdle(g, ops[..n], s);
      TagsStayZero(g, ops[..n]);
      if Probes(g, ops[n], s) {
        ProbesAlternate(g, ops, s);
      }
      IdleStep(g, Run(g, ops[..n]).value, ops[n], s, Outstanding(g, ops[..n], s));
    }
  }

  /** So under it the division by zero is unreachable, and a fill goes to T2 exactly when it answers a probe. */
  lemma DisciplineNeverTraps(g: Geometry, ops: seq<Op>, a: Addr, e: Entry, now: Tick)
    requires GeometryOk(g) && Run(g, ops).Some? && NoRetag(ops) && FillsBetweenProbes(g, ops)
    requires var st := Run(g, ops).value; IsLine(g, a) && Lookup(g, st, a).None? && Avail(g, st, a)
    ensures var r := Allocate(g, Run(g, ops).value, a, e, now);
            && r.Allocated? && Inv(g, r.st) && a in r.st.index
            && (DataOf(g, r.st, a).listId == 2 <==> Outstanding(g, ops, SetOf(g, a)))
  {
    DisciplineKeepsIdle(g, ops, SetOf(g, a));
    FillsWithoutTags(g, ops, a, e, now);
    var r := Allocate(g, Run(g, ops).value, a, e, now);
    assert IndexOk(g, r.st, a);
    assert SlotOk(g, r.st, SetOf(g, a), r.st.index[a]);
  }
}
