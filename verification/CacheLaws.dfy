/** What every cache operation keeps, the map it refines, and how the operations work together. */
module CacheLaws {
  import opened Common
  import opened ArcSpec
  import opened ArcPolicy
  import opened CacheSpec

  /** st' is st but for the cell (s, w). */
  ghost predicate SameBut(g: Geometry, st: State, st': State, s: nat, w: nat)
    requires Shape(g, st) && Shape(g, st')
  {
    forall i, j | 0 <= i < g.numSets && 0 <= j < g.assoc && (i, j) != (s, w) :: st'.cells[i][j] == st.cells[i][j]
  }

  // ---------------------------------------------------------------- allocate

  /** The slot an allocation of `a` takes. */
  function AllocWay(g: Geometry, st: State, a: Addr): nat
    requires Shape(g, st)
  {
    FirstOpen(st.cells[SetOf(g, a)])
  }

  /** An allocation in detail: the slot it takes, what it writes there, and that it writes nothing else. */
  lemma AllocateFrame(g: Geometry, st: State, a: Addr, e: Entry, now: Tick)
    requires Shape(g, st) && SameLengths(st.arc) && Allocate(g, st, a, e, now).Allocated?
    ensures var st' := Allocate(g, st, a, e, now).st; var s := SetOf(g, a); var w := AllocWay(g, st, a);
            && Shape(g, st') && w < g.assoc
            && st'.index == st.index[a := w]
            && var rd := st.cells[s][w].rd;
               && Reset(st.arc, s, rd.tag).Done?
               && st'.arc == Reset(st.arc, s, rd.tag).arc
               && st'.cells[s][w] == Cell(Some(Line(a, Invalid, e)),
                                          Repl(now, Reset(st.arc, s, rd.tag).listId, true, rd.tag))
               && SameBut(g, st, st', s, w)
  {
  }

  /**
   Allocation keeps the index and the array in agreement exactly when it takes an empty slot for an
   address the index does not know, or re-uses the slot of that very address. A NotPresent line of
   another address, or of `a` itself further back in the set, breaks it.
   */
  lemma AllocateKeepsAgreementExactlyWhen(g: Geometry, st: State, a: Addr, e: Entry, now: Tick)
    requires Shape(g, st) && Agree(g, st) && SameLengths(st.arc) && Allocate(g, st, a, e, now).Allocated?
    ensures Shape(g, Allocate(g, st, a, e, now).st)
    ensures var c := st.cells[SetOf(g, a)][AllocWay(g, st, a)];
            Agree(g, Allocate(g, st, a, e, now).st) <==> (c.line.None? && a !in st.index) || Holds(c, a)
  {
    var s, w := SetOf(g, a), AllocWay(g, st, a);
    var c := st.cells[s][w];
    var st' := Allocate(g, st, a, e, now).st;
    AllocateFrame(g, st, a, e, now);
    assert SlotIndexed(g, st, s, w) && IndexOk(g, st, a);
    if c.line.Some? && !Holds(c, a) {
      var b := c.line.value.addr;
      assert b in st'.index && st'.index[b] == w && SetOf(g, b) == s;
      assert !IndexOk(g, st', b);
    } else if a in st.index && !Holds(c, a) {
      assert !SlotIndexed(g, st', s, st.index[a]);
    } else {
      AllocateAgrees(g, st, a, st', w);
    }
  }

  lemma AllocateAgrees(g: Geometry, st: State, a: Addr, st': State, w: nat)
    requires Shape(g, st) && Shape(g, st') && Agree(g, st) && w < g.assoc
    requires st'.index == st.index[a := w] && SameBut(g, st, st', SetOf(g, a), w)
    requires Holds(st'.cells[SetOf(g, a)][w], a)
    requires var c := st.cells[SetOf(g, a)][w]; (c.line.None? && a !in st.index) || Holds(c, a)
    ensures Agree(g, st')
  {
    forall b
      ensures IndexOk(g, st', b)
    {
      assert IndexOk(g, st, b);
    }
    forall i: nat, j: nat | i < g.numSets && j < g.assoc
      ensures SlotIndexed(g, st', i, j)
    {
      assert SlotIndexed(g, st, i, j) && SlotIndexed(g, st, SetOf(g, a), w);
    }
  }

  lemma AllocateKeepsInv(g: Geometry, st: State, a: Addr, e: Entry, now: Tick)
    requires Inv(g, st) && IsLine(g, a) && Lookup(g, st, a).None? && Allocate(g, st, a, e, now).Allocated?
    ensures Inv(g, Allocate(g, st, a, e, now).st)
    ensures Contents(g, Allocate(g, st, a, e, now).st) == Contents(g, st)[a := Line(a, Invalid, e)]
  {
    var s, w := SetOf(g, a), AllocWay(g, st, a);
    var st' := Allocate(g, st, a, e, now).st;
    LookupIsScan(g, st, a);
    AllocateFrame(g, st, a, e, now);
    assert SlotOk(g, st, s, w);
    AllocateAgrees(g, st, a, st', w);
    ResetKeepsInv(st.arc, s, st.cells[s][w].rd.tag);
    ResetEffect(st.arc, s, st.cells[s][w].rd.tag);
    forall i: nat, j: nat | i < g.numSets && j < g.assoc
      ensures SlotOk(g, st', i, j)
    {
      assert SlotOk(g, st, i, j);
    }
    ContentsUpdated(g, st, st', a);
  }

  /** With agreement before and after, changing the cell of `a` changes only the entry of `a`. */
  lemma ContentsUpdated(g: Geometry, st: State, st': State, a: Addr)
    requires Shape(g, st) && Shape(g, st') && Agree(g, st) && Agree(g, st')
    requires a in st'.index && st'.index == st.index[a := st'.index[a]]
    requires SameBut(g, st, st', SetOf(g, a), st'.index[a])
    ensures IndexOk(g, st', a)
    ensures Contents(g, st') == Contents(g, st)[a := LineOf(g, st', a)]
  {
    assert IndexOk(g, st', a);
    forall b | b in st.index && b != a
      ensures IndexOk(g, st, b) && IndexOk(g, st', b) && LineOf(g, st', b) == LineOf(g, st, b)
    {
      assert IndexOk(g, st, b) && IndexOk(g, st', b);
    }
  }

  /** An allocation the callers are allowed to make never runs out of slots. */
  lemma AllocateFindsSlot(g: Geometry, st: State, a: Addr, e: Entry, now: Tick)
    requires Inv(g, st) && Lookup(g, st, a).None?
    ensures Avail(g, st, a) <==> !Allocate(g, st, a, e, now).NoOpenSlot?
  {
    var s := SetOf(g, a);
    LookupIsScan(g, st, a);
    if Avail(g, st, a) {
      var w :| 0 <= w < g.assoc && (Open(st.cells[s][w]) || Holds(st.cells[s][w], a));
      assert !InSlot(g, st, a, s, w);
    } else {
      assert forall w :: 0 <= w < g.assoc ==> !Open(st.cells[s][w]);
    }
  }

  // ---------------------------------------------------------------- the other operations

  lemma DeallocateKeepsInv(g: Geometry, st: State, a: Addr)
    requires Inv(g, st) && Lookup(g, st, a).Some?
    ensures Inv(g, Deallocate(g, st, a))
    ensures Contents(g, Deallocate(g, st, a)) == Contents(g, st) - {a}
  {
    var st' := Deallocate(g, st, a);
    assert IndexOk(g, st, a);
    forall b
      ensures IndexOk(g, st', b)
      ensures b in st'.index ==> IndexOk(g, st, b) && LineOf(g, st', b) == LineOf(g, st, b)
    {
      assert IndexOk(g, st, b);
    }
    forall i: nat, j: nat | i < g.numSets && j < g.assoc
      ensures SlotIndexed(g, st', i, j) && SlotOk(g, st', i, j)
    {
      assert SlotIndexed(g, st, i, j) && SlotOk(g, st, i, j);
    }
  }

  /** Rewriting the cell of a resident line, keeping its address and the policy state. */
  lemma RewriteKeepsInv(g: Geometry, st: State, a: Addr, c: Cell)
    requires Inv(g, st) && a in st.index && CellOk(c) && Holds(c, a)
    ensures IndexOk(g, st, a)
    ensures var st' := WithCell(st, SetOf(g, a), st.index[a], c);
            Inv(g, st') && Contents(g, st') == Contents(g, st)[a := c.line.value]
  {
    assert IndexOk(g, st, a);
    var st' := WithCell(st, SetOf(g, a), st.index[a], c);
    AllocateAgrees(g, st, a, st', st.index[a]);
    forall i: nat, j: nat | i < g.numSets && j < g.assoc
      ensures SlotOk(g, st', i, j)
    {
      assert SlotOk(g, st, i, j);
    }
    ContentsUpdated(g, st, st', a);
  }

  lemma TouchKeepsInv(g: Geometry, st: State, a: Addr, now: Tick)
    requires Inv(g, st)
    ensures Inv(g, Touch(g, st, a, now))
    ensures Contents(g, Touch(g, st, a, now)) == Contents(g, st)
  {
    if Lookup(g, st, a).Some? {
      assert IndexOk(g, st, a);
      var c := st.cells[SetOf(g, a)][st.index[a]];
      assert SlotOk(g, st, SetOf(g, a), st.index[a]);
      RelabelKeepsInv(g, st, SetOf(g, a), st.index[a], Touched(c.rd, now));
    }
  }

  lemma SetPermissionKeepsInv(g: Geometry, st: State, a: Addr, perm: Permission)
    requires Inv(g, st) && Lookup(g, st, a).Some? && perm != NotPresent
    ensures Inv(g, SetPermission(g, st, a, perm))
    ensures a in Contents(g, st)
    ensures Contents(g, SetPermission(g, st, a, perm)) == Contents(g, st)[a := Contents(g, st)[a].(perm := perm)]
  {
    assert IndexOk(g, st, a);
    var c := st.cells[SetOf(g, a)][st.index[a]];
    assert SlotOk(g, st, SetOf(g, a), st.index[a]);
    RewriteKeepsInv(g, st, a, c.(line := Some(c.line.value.(perm := perm))));
  }

  /** Changing only the policy state. */
  lemma PolicyStepKeepsInv(g: Geometry, st: State, arc: ArcState)
    requires Inv(g, st) && ArcInv(arc)
    ensures Inv(g, st.(arc := arc)) && Contents(g, st.(arc := arc)) == Contents(g, st)
  {
    var st' := st.(arc := arc);
    forall b
      ensures IndexOk(g, st', b) && (b in st.index ==> IndexOk(g, st, b) && LineOf(g, st', b) == LineOf(g, st, b))
    {
      assert IndexOk(g, st, b);
    }
    forall i: nat, j: nat | i < g.numSets && j < g.assoc
      ensures SlotIndexed(g, st', i, j) && SlotOk(g, st', i, j)
    {
      assert SlotIndexed(g, st, i, j) && SlotOk(g, st, i, j);
    }
  }

  /** Rewriting replacement data anywhere, as long as the valid flags and the lists stay in order. */
  lemma RelabelKeepsInv(g: Geometry, st: State, s: nat, w: nat, rd: Repl)
    requires Inv(g, st) && s < g.numSets && w < g.assoc
    requires CellOk(st.cells[s][w].(rd := rd))
    ensures var st' := WithCell(st, s, w, st.cells[s][w].(rd := rd));
            Inv(g, st') && Contents(g, st') == Contents(g, st)
  {
    var st' := WithCell(st, s, w, st.cells[s][w].(rd := rd));
    forall b
      ensures IndexOk(g, st', b) && (b in st.index ==> IndexOk(g, st, b) && LineOf(g, st', b) == LineOf(g, st, b))
    {
      assert IndexOk(g, st, b);
    }
    forall i: nat, j: nat | i < g.numSets && j < g.assoc
      ensures SlotIndexed(g, st', i, j) && SlotOk(g, st', i, j)
    {
      assert SlotIndexed(g, st, i, j) && SlotOk(g, st, i, j);
    }
  }

  lemma ProbeKeepsInv(g: Geometry, st: State, a: Addr, now: Tick)
    requires Inv(g, st)
    ensures Inv(g, Probe(g, st, a, now))
    ensures Contents(g, Probe(g, st, a, now)) == Contents(g, st)
  {
    var s := SetOf(g, a);
    EvictKeepsInv(st.arc, s, Row(st, s), now);
    PolicyStepKeepsInv(g, st, Evict(st.arc, s, Row(st, s), now));
  }

  // ---------------------------------------------------------------- probe, evict, fill

  /** In a full set the probe always finds a victim, a line of another address in the same set. */
  lemma ProbeFindsVictim(g: Geometry, st: State, a: Addr, now: Tick)
    requires Inv(g, st) && !Avail(g, st, a)
    ensures forall w :: 0 <= w < g.assoc ==> st.cells[SetOf(g, a)][w].line.Some?
    ensures var v := ProbeWay(g, st, a, now);
            && v.Some?
            && var b := st.cells[SetOf(g, a)][v.value].line.value.addr;
               b != a && SetOf(g, b) == SetOf(g, a) && Lookup(g, st, b) == v
    ensures a !in st.index
  {
    var s := SetOf(g, a);
    forall w: nat | w < g.assoc
      ensures st.cells[s][w].line.Some? && st.cells[s][w].rd.valid && !Holds(st.cells[s][w], a)
    {
      assert SlotOk(g, st, s, w) && !Open(st.cells[s][w]);
    }
    assert Row(st, s)[0].valid;
    var w := ProbeWay(g, st, a, now).value;
    var b := st.cells[s][w].line.value.addr;
    LookupIsScan(g, st, b);
    assert InSlot(g, st, b, s, w);
    assert IndexOk(g, st, a);
  }

  /** The line a probe picks from its list by the first scan. */
  ghost predicate PickedFromList(g: Geometry, st: State, a: Addr, now: Tick, k: nat)
    requires Shape(g, st)
  {
    var s := SetOf(g, a);
    k < g.assoc && IsOldest(Row(st, s), FromT1(Row(st, s), P(st.arc, s)), now, k)
  }

  /** The list the target test chooses is not empty, and the fallback needs all of it used at or after now. */
  lemma ProbeChoosesNonemptyList(g: Geometry, st: State, a: Addr, now: Tick)
    requires Inv(g, st) && !Avail(g, st, a)
    ensures var rs := Row(st, SetOf(g, a)); var t1 := FromT1(rs, P(st.arc, SetOf(g, a)));
            && (exists j :: 0 <= j < |rs| && OnList(rs[j], t1))
            && ProbeWay(g, st, a, now).Some?
            && (PickedFromList(g, st, a, now, ProbeWay(g, st, a, now).value) <==>
                exists j :: 0 <= j < |rs| && OnList(rs[j], t1) && rs[j].tick < now)
  {
    var s := SetOf(g, a);
    var rs := Row(st, s);
    var t1 := FromT1(rs, P(st.arc, s));
    ProbeFindsVictim(g, st, a, now);
    forall j | 0 <= j < |rs|
      ensures rs[j].listId == 1 || rs[j].listId == 2
    {
      assert SlotOk(g, st, s, j);
    }
    assert SomeValid(rs);
    assert 0 <= P(st.arc, s);
    ChosenListNonempty(rs, P(st.arc, s));
    if j :| 0 <= j < |rs| && OnList(rs[j], t1) && rs[j].tick < now {
      assert Older(rs[j], t1, now);
    }
  }

  /**
   In a full set whose lines were all used before now, the victim is on T1 exactly when T1 has more ways than
   the target, or all of them; whatever the tags, the ghost lists have a say through the target alone.
   */
  lemma ProbeFollowsTarget(g: Geometry, st: State, a: Addr, now: Tick)
    requires Inv(g, st) && !Avail(g, st, a)
    requires forall w :: 0 <= w < g.assoc ==> st.cells[SetOf(g, a)][w].rd.tick < now
    ensures var s, way := SetOf(g, a), ProbeWay(g, st, a, now);
            var t1 := set w | 0 <= w < g.assoc && st.cells[s][w].rd.listId == 1;
            && way.Some?
            && (st.cells[s][way.value].rd.listId == 1 <==> |t1| > P(st.arc, s) || |t1| == g.assoc)
  {
    var s := SetOf(g, a);
    var rs := Row(st, s);
    ProbeFindsVictim(g, st, a, now);
    forall j | 0 <= j < |rs|
      ensures rs[j].valid && (rs[j].listId == 1 || rs[j].listId == 2)
    {
      assert SlotOk(g, st, s, j);
    }
    assert 0 <= P(st.arc, s);
    VictimOfFullRow(rs, P(st.arc, s), now, ProbeWay(g, st, a, now).value);
    assert (set w | 0 <= w < g.assoc && st.cells[s][w].rd.listId == 1) == set j | 0 <= j < |rs| && rs[j].listId == 1;
  }

  lemma VictimOfFullRow(rs: seq<Repl>, p: int, now: Tick, k: int)
    requires p >= 0 && IsVictim(rs, p, now, k) && ListIdsOk(rs)
    requires forall j :: 0 <= j < |rs| ==> rs[j].valid && rs[j].tick < now
    ensures var t1 := set j | 0 <= j < |rs| && rs[j].listId == 1;
            0 <= k < |rs| && (rs[k].listId == 1 <==> |t1| > p || |t1| == |rs|)
  {
    var t1 := set j | 0 <= j < |rs| && rs[j].listId == 1;
    var t1', t2 := set j | 0 <= j < |rs| && rs[j].valid && rs[j].listId == 1,
                   set j | 0 <= j < |rs| && rs[j].valid && rs[j].listId == 2;
    VictimFollowsTarget(rs, p, now, k);
    assert t1' == t1;
    FillsAll(t1, t2, |rs|);
  }

  lemma FillsAll(a: set<int>, b: set<int>, n: nat)
    requires a !! b && forall j :: j in a + b <==> 0 <= j < n
    ensures |a| == n <==> b == {}
  {
    RangeSize(a + b, n);
    assert |a + b| == |a| + |b|;
  }

  lemma {:induction false} RangeSize(a: set<int>, n: nat)
    requires forall j :: j in a <==> 0 <= j < n
    ensures |a| == n
  {
    if n == 0 {
      if a != {} {
        var j := SomeElement(a);
      }
    } else {
      RangeSize(a - {n - 1}, n - 1);
    }
  }

  /**
   Probe, evict and fill: for an address whose set is full, the address the probe returns can be
   deallocated, then the new one allocated. It lands in the way just vacated, so no panic is
   reachable, and the only way to fail is the division by zero of the policy's target update.
   */
  lemma ProbeEvictFill(g: Geometry, st: State, a: Addr, e: Entry, now: Tick, later: Tick)
    requires Inv(g, st) && IsLine(g, a) && !Avail(g, st, a)
    ensures var way := ProbeWay(g, st, a, now);
            && way.Some? && st.cells[SetOf(g, a)][way.value].line.Some?
            && var b := st.cells[SetOf(g, a)][way.value].line.value.addr;
               var st1 := Probe(g, st, a, now);
               && Inv(g, st1) && Lookup(g, st1, b).Some?
               && var st2 := Deallocate(g, st1, b);
                  && Inv(g, st2) && Avail(g, st2, a) && Lookup(g, st2, a).None?
                  && var r := Allocate(g, st2, a, e, later);
                     && (r.AllocTrap? <==> Reset(st1.arc, SetOf(g, a), st.cells[SetOf(g, a)][way.value].rd.tag).Trap?)
                     && (!r.AllocTrap? ==>
                           && r.Allocated? && r.way == way.value && Inv(g, r.st)
                           && Contents(g, r.st) == (Contents(g, st) - {b})[a := Line(a, Invalid, e)])
  {
    var s := SetOf(g, a);
    ProbeFindsVictim(g, st, a, now);
    var w := ProbeWay(g, st, a, now).value;
    var b := st.cells[s][w].line.value.addr;
    var st1 := Probe(g, st, a, now);
    ProbeKeepsInv(g, st, a, now);
    assert Lookup(g, st1, b) == Lookup(g, st, b);
    var st2 := Deallocate(g, st1, b);
    DeallocateKeepsInv(g, st1, b);
    assert st2.cells[s][w].rd.tag == st.cells[s][w].rd.tag && Open(st2.cells[s][w]);
    forall j | 0 <= j < g.assoc && j != w
      ensures !Open(st2.cells[s][j])
    {
      assert !Open(st.cells[s][j]) && st2.cells[s][j] == st.cells[s][j];
    }
    assert FirstOpen(st2.cells[s]) == w;
    if Allocate(g, st2, a, e, later).Allocated? {
      AllocateKeepsInv(g, st2, a, e, later);
    }
  }
}
