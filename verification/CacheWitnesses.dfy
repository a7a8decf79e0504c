/** Concrete runs of a two-set, two-way cache that show where the source falls short. */
module CacheWitnesses {
  import opened Common
  import opened ArcSpec
  import opened ArcPolicy
  import opened CacheSpec
  import opened CacheLaws
  import opened CacheRuns
  import opened GhostHistory

  const SMALL := Geometry(2, 2, 0, 1, 0)

  /** The first set as given, the second one untouched. */
  function Two(c0: Cell, c1: Cell, index: map<Addr, nat>, arc: ArcState): State {
    var z := Cell(None, Repl(0, 1, false, 0));
    State([[c0, c1], [z, z]], index, arc)
  }

  function Full(a: Addr, e: Entry, tick: Tick, listId: int): Cell {
    Cell(Some(Line(a, Invalid, e)), Repl(tick, listId, true, 0))
  }

  lemma SmallFacts()
    ensures GeometryOk(SMALL)
    ensures SetOf(SMALL, 0) == SetOf(SMALL, 2) == SetOf(SMALL, 4) == 0
    ensures IsLine(SMALL, 0) && IsLine(SMALL, 2) && IsLine(SMALL, 4)
  {
    assert Pow2(1) == 2;
    assert ShiftRight(2, 0) == 2 && ShiftRight(4, 0) == 4;
    assert LowBits(2, 1) == 0 && LowBits(4, 1) == 0;
  }

  lemma TwoWith(c0: Cell, c1: Cell, index: map<Addr, nat>, arc: ArcState, c: Cell)
    ensures WithCell(Two(c0, c1, index, arc), 0, 0, c) == Two(c, c1, index, arc)
    ensures WithCell(Two(c0, c1, index, arc), 0, 1, c) == Two(c0, c, index, arc)
    ensures Row(Two(c0, c1, index, arc), 0) == [c0.rd, c1.rd]
  {
    assert [c0, c1][0 := c] == [c, c1] && [c0, c1][1 := c] == [c0, c];
    var st := Two(c0, c1, index, arc);
    assert st.cells[0 := [c, c1]] == [[c, c1], st.cells[1]];
    assert st.cells[0 := [c0, c]] == [[c0, c], st.cells[1]];
  }

  ghost predicate Leads(ops: seq<Op>, st: State) {
    GeometryOk(SMALL) && NoRetag(ops) && Run(SMALL, ops) == Some(st)
  }

  lemma Next(ops: seq<Op>, st: State, op: Op, st': State)
    requires Leads(ops, st) && !op.Retag? && Enabled(SMALL, st, op) && Apply(SMALL, st, op) == st'
    ensures Leads(ops + [op], st')
  {
    assert (ops + [op])[..|ops|] == ops;
  }

  const EMPTY := Cell(None, Repl(0, 1, false, 0))

  const NO_GHOSTS := ArcState([[]], [[]], [0])

  lemma Start()
    ensures Leads([], Two(EMPTY, EMPTY, map[], ARC_EMPTY))
  {
    SmallFacts();
    var cells := EmptyState(SMALL).cells;
    assert cells[0] == [EMPTY, EMPTY] && cells[1] == [EMPTY, EMPTY];
    assert cells == [[EMPTY, EMPTY], [EMPTY, EMPTY]];
  }

  lemma FillFirst(e0: Entry, ops: seq<Op>)
    requires Leads(ops, Two(EMPTY, EMPTY, map[], ARC_EMPTY))
    ensures Leads(ops + [Alloc(0, e0, 1)], Two(Full(0, e0, 1, 1), EMPTY, map[0 := 0], NO_GHOSTS))
  {
    SmallFacts();
    var st := Two(EMPTY, EMPTY, map[], ARC_EMPTY);
    assert Grow(ARC_EMPTY, 0) == NO_GHOSTS by {
      assert Pad<seq<Addr>>([], 1, []) == [[]] && Pad([], 1, 0) == [0];
    }
    assert Reset(ARC_EMPTY, 0, 0) == Done(NO_GHOSTS, 1);
    assert Open(st.cells[0][0]) && FirstOpen(st.cells[0]) == 0;
    TwoWith(EMPTY, EMPTY, map[], ARC_EMPTY, Full(0, e0, 1, 1));
    Next(ops, st, Alloc(0, e0, 1), Two(Full(0, e0, 1, 1), EMPTY, map[0 := 0], NO_GHOSTS));
  }

  lemma FillSecond(e0: Entry, e2: Entry, ops: seq<Op>)
    requires Leads(ops, Two(Full(0, e0, 1, 1), EMPTY, map[0 := 0], NO_GHOSTS))
    ensures Leads(ops + [Alloc(2, e2, 2)], Two(Full(0, e0, 1, 1), Full(2, e2, 2, 1), map[0 := 0, 2 := 1], NO_GHOSTS))
  {
    SmallFacts();
    var st := Two(Full(0, e0, 1, 1), EMPTY, map[0 := 0], NO_GHOSTS);
    assert Grow(NO_GHOSTS, 0) == NO_GHOSTS;
    assert Reset(NO_GHOSTS, 0, 0) == Done(NO_GHOSTS, 1);
    assert !Open(st.cells[0][0]) && Open(st.cells[0][1]) && FirstOpen(st.cells[0]) == 1;
    TwoWith(Full(0, e0, 1, 1), EMPTY, map[0 := 0], NO_GHOSTS, Full(2, e2, 2, 1));
    Next(ops, st, Alloc(2, e2, 2), Two(Full(0, e0, 1, 1), Full(2, e2, 2, 1), map[0 := 0, 2 := 1], NO_GHOSTS));
  }

  /** Using either line of a full set. */
  lemma UseLine(e0: Entry, e2: Entry, ops: seq<Op>, t0: Tick, l0: int, t1: Tick, l1: int, arc: ArcState,
                second: bool, now: Tick)
    requires var st := Two(Full(0, e0, t0, l0), Full(2, e2, t1, l1), map[0 := 0, 2 := 1], arc);
             Leads(ops, st)
    requires 1 <= l0 <= 2 && 1 <= l1 <= 2
    ensures Leads(ops + [Use(if second then 2 else 0, now)],
                  if second then Two(Full(0, e0, t0, l0), Full(2, e2, now, 2), map[0 := 0, 2 := 1], arc)
                  else Two(Full(0, e0, now, 2), Full(2, e2, t1, l1), map[0 := 0, 2 := 1], arc))
  {
    SmallFacts();
    var m := map[0 := 0, 2 := 1];
    var st := Two(Full(0, e0, t0, l0), Full(2, e2, t1, l1), m, arc);
    var a := if second then 2 else 0;
    TwoWith(Full(0, e0, t0, l0), Full(2, e2, t1, l1), m, arc, Full(a, if second then e2 else e0, now, 2));
    Next(ops, st, Use(a, now), Apply(SMALL, st, Use(a, now)));
  }

  /** A probe for address 4 in a full set selects way `k`. */
  lemma ProbeFour(e0: Entry, e2: Entry, ops: seq<Op>, t0: Tick, l0: int, t1: Tick, l1: int, arc: ArcState,
                  now: Tick, k: nat)
    requires Leads(ops, Two(Full(0, e0, t0, l0), Full(2, e2, t1, l1), map[0 := 0, 2 := 1], arc))
    requires SameLengths(arc) && |arc.p| == 1 && k < 2
    requires IsVictim([Full(0, e0, t0, l0).rd, Full(2, e2, t1, l1).rd], arc.p[0], now, k)
    ensures Leads(ops + [ProbeFor(4, now)],
                  Two(Full(0, e0, t0, l0), Full(2, e2, t1, l1), map[0 := 0, 2 := 1],
                      Remember(arc, 0, (if k == 0 then l0 else l1) == 1, 0)))
  {
    SmallFacts();
    var m := map[0 := 0, 2 := 1];
    var st := Two(Full(0, e0, t0, l0), Full(2, e2, t1, l1), m, arc);
    TwoWith(Full(0, e0, t0, l0), Full(2, e2, t1, l1), m, arc, EMPTY);
    var rs := [Full(0, e0, t0, l0).rd, Full(2, e2, t1, l1).rd];
    assert Row(st, 0) == rs && Grow(arc, 0) == arc;
    VictimExistsUniquely(rs, arc.p[0], now);
    assert Victim(rs, arc.p[0], now) == Some(k);
    assert forall w :: 0 <= w < 2 ==> !Open(st.cells[0][w]) && !Holds(st.cells[0][w], 4);
    Next(ops, st, ProbeFor(4, now), Apply(SMALL, st, ProbeFor(4, now)));
  }

  lemma Evict2(e0: Entry, e2: Entry, ops: seq<Op>, t0: Tick, t1: Tick, arc: ArcState)
    requires Leads(ops, Two(Full(0, e0, t0, 2), Full(2, e2, t1, 2), map[0 := 0, 2 := 1], arc))
    ensures Leads(ops + [Dealloc(2)], Two(Full(0, e0, t0, 2), Cell(None, Repl(t1, 2, false, 0)), map[0 := 0], arc))
  {
    SmallFacts();
    var m := map[0 := 0, 2 := 1];
    var st := Two(Full(0, e0, t0, 2), Full(2, e2, t1, 2), m, arc);
    TwoWith(Full(0, e0, t0, 2), Full(2, e2, t1, 2), m, arc, Cell(None, Repl(t1, 2, false, 0)));
    assert m - {2} == map[0 := 0];
    Next(ops, st, Dealloc(2), Apply(SMALL, st, Dealloc(2)));
  }

  /** Fill the set, use the second line, and select the first one as the victim, without evicting it. */
  lemma FirstHalf(e0: Entry, e2: Entry) returns (ops: seq<Op>)
    ensures Leads(ops, Two(Full(0, e0, 1, 1), Full(2, e2, 3, 2), map[0 := 0, 2 := 1], ArcState([[0]], [[]], [0])))
  {
    Start();
    FillFirst(e0, []);
    FillSecond(e0, e2, [] + [Alloc(0, e0, 1)]);
    ops := [] + [Alloc(0, e0, 1)] + [Alloc(2, e2, 2)];
    UseLine(e0, e2, ops, 1, 1, 2, 1, NO_GHOSTS, true, 3);
    ops := ops + [Use(2, 3)];
    T1Victim(e0, e2);
    ProbeFour(e0, e2, ops, 1, 1, 3, 2, NO_GHOSTS, 4, 0);
    ops := ops + [ProbeFor(4, 4)];
    Remembered();
  }

  /** Use the first line again, select the second one as the victim, and evict it. */
  lemma SecondHalf(e0: Entry, e2: Entry) returns (ops: seq<Op>)
    ensures Leads(ops, Two(Full(0, e0, 5, 2), Cell(None, Repl(3, 2, false, 0)), map[0 := 0],
                           ArcState([[0]], [[0]], [0])))
  {
    ops := FirstHalf(e0, e2);
    var arc1 := ArcState([[0]], [[]], [0]);
    UseLine(e0, e2, ops, 1, 1, 3, 2, arc1, false, 5);
    ops := ops + [Use(0, 5)];
    T2Victim(e0, e2);
    ProbeFour(e0, e2, ops, 5, 2, 3, 2, arc1, 6, 1);
    ops := ops + [ProbeFor(4, 6)];
    Remembered();
    Evict2(e0, e2, ops, 5, 3, ArcState([[0]], [[0]], [0]));
    ops := ops + [Dealloc(2)];
  }

  lemma Remembered()
    ensures Remember(NO_GHOSTS, 0, true, 0) == ArcState([[0]], [[]], [0])
    ensures Remember(ArcState([[0]], [[]], [0]), 0, false, 0) == ArcState([[0]], [[0]], [0])
  {
    var none: seq<Addr> := [];
    assert none + [0] == [0] && PushCapped(none, 0, 1) == [0];
    assert [none][0 := [0]] == [[0]];
  }

  /**
   The division by zero is reachable by a legal run with the tags as the source leaves them: fill a
   two-way set, select a T1 victim, use that line instead of evicting it, select and evict a T2
   victim, fill again.
   */
  lemma DivisionByZeroReachable(e0: Entry, e2: Entry, e4: Entry) returns (ops: seq<Op>)
    ensures GeometryOk(SMALL) && NoRetag(ops) && Run(SMALL, ops).Some?
    ensures var st := Run(SMALL, ops).value;
            && IsLine(SMALL, 4) && Lookup(SMALL, st, 4).None? && Avail(SMALL, st, 4)
            && Allocate(SMALL, st, 4, e4, 7).AllocTrap?
  {
    SmallFacts();
    ops := SecondHalf(e0, e2);
    var st := Run(SMALL, ops).value;
    assert Open(st.cells[0][1]) && !Open(st.cells[0][0]) && FirstOpen(st.cells[0]) == 1;
    assert B1(st.arc, 0) == [0] && B2(st.arc, 0) == [0];
    ResetTrapsExactlyWhen(st.arc, 0, 0);
  }

  lemma T1Victim(e0: Entry, e2: Entry)
    ensures IsVictim([Full(0, e0, 1, 1).rd, Full(2, e2, 3, 2).rd], 0, 4, 0)
  {
    var rs := [Full(0, e0, 1, 1).rd, Full(2, e2, 3, 2).rd];
    CountPositive(rs, true);
    assert rs[0].valid && rs[0].listId == 1;
    assert Older(rs[0], true, 4);
  }

  lemma T2Victim(e0: Entry, e2: Entry)
    ensures IsVictim([Full(0, e0, 5, 2).rd, Full(2, e2, 3, 2).rd], 0, 6, 1)
  {
    var rs := [Full(0, e0, 5, 2).rd, Full(2, e2, 3, 2).rd];
    CountPositive(rs, true);
    CountPositive(rs, false);
    assert rs[0].valid && rs[0].listId != 1;
    assert Older(rs[1], false, 6);
  }

  /**
   Why residents must never be NotPresent: address 0 is allocated and made NotPresent, then address 2 is
   allocated over it. The tag index keeps address 0 and finds the entry of address 2 under it.
   */
  lemma NotPresentBreaksIndex(e0: Entry, e2: Entry) returns (st0: State, st: State, st': State)
    ensures Leads([Alloc(0, e0, 1)], st0) && Inv(SMALL, st0) && Lookup(SMALL, st0, 0).Some?
    ensures st == SetPermission(SMALL, st0, 0, NotPresent)
    ensures Shape(SMALL, st) && Agree(SMALL, st) && SameLengths(st.arc)
    ensures Lookup(SMALL, st, 2).None? && Avail(SMALL, st, 2)
    ensures Allocate(SMALL, st, 2, e2, 2) == Allocated(st', 0)
    ensures Shape(SMALL, st') && !Agree(SMALL, st')
    ensures SetOf(SMALL, 0) == 0 && 0 in st'.index && st'.index[0] == 0
    ensures st'.cells[0][0].line == Some(Line(2, Invalid, e2))
  {
    SmallFacts();
    Start();
    FillFirst(e0, []);
    assert [] + [Alloc(0, e0, 1)] == [Alloc(0, e0, 1)];
    st0 := Two(Full(0, e0, 1, 1), EMPTY, map[0 := 0], NO_GHOSTS);
    var c := Cell(Some(Line(0, NotPresent, e0)), Repl(1, 1, true, 0));
    TwoWith(Full(0, e0, 1, 1), EMPTY, map[0 := 0], NO_GHOSTS, c);
    st := Two(c, EMPTY, map[0 := 0], NO_GHOSTS);
    st' := OverwriteNotPresent(e0, e2, st);
  }

  lemma OverwriteNotPresent(e0: Entry, e2: Entry, st: State) returns (st': State)
    requires st == Two(Cell(Some(Line(0, NotPresent, e0)), Repl(1, 1, true, 0)), EMPTY, map[0 := 0], NO_GHOSTS)
    ensures Shape(SMALL, st) && Agree(SMALL, st) && SameLengths(st.arc)
    ensures Lookup(SMALL, st, 2).None? && Avail(SMALL, st, 2)
    ensures Allocate(SMALL, st, 2, e2, 2) == Allocated(st', 0)
    ensures Shape(SMALL, st') && !Agree(SMALL, st')
    ensures st' == Two(Full(2, e2, 2, 1), EMPTY, map[0 := 0, 2 := 0], NO_GHOSTS)
  {
    SmallFacts();
    var c := st.cells[0][0];
    assert Grow(NO_GHOSTS, 0) == NO_GHOSTS;
    assert Reset(NO_GHOSTS, 0, 0) == Done(NO_GHOSTS, 1);
    assert Open(st.cells[0][0]) && FirstOpen(st.cells[0]) == 0;
    TwoWith(c, EMPTY, map[0 := 0], NO_GHOSTS, Full(2, e2, 2, 1));
    st' := Two(Full(2, e2, 2, 1), EMPTY, map[0 := 0, 2 := 0], NO_GHOSTS);
    AllocateKeepsAgreementExactlyWhen(SMALL, st, 2, e2, 2);
  }
}
