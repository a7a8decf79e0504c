/**
 The set-associative cache on values: a set x way array of cells, a separate tag index from addresses
 to ways, and the state of the ARC policy. One function per operation, the invariant they keep, the
 plain address map they refine, and what one operation does for another.
 */
module CacheSpec {
  import opened Common
  import opened ArcSpec
  import opened ArcPolicy

  // ---------------------------------------------------------------- geometry

  function Pow2(n: nat): (r: nat)
    ensures r >= 1
  {
    if n == 0 then 1 else 2 * Pow2(n - 1)
  }

  /** The `n` low bits of `a`. */
  function LowBits(a: nat, n: nat): (r: nat)
    ensures r < Pow2(n) && r <= a
  {
    if n == 0 then 0 else 2 * LowBits(a / 2, n - 1) + a % 2
  }

  function ShiftRight(a: nat, n: nat): nat {
    if n == 0 then a else ShiftRight(a / 2, n - 1)
  }

  datatype Geometry = Geometry(numSets: nat, assoc: nat, startBit: nat, setBits: nat, blockBits: nat)

  ghost predicate GeometryOk(g: Geometry) {
    g.assoc >= 1 && g.setBits >= 1 && Pow2(g.setBits) <= g.numSets
  }

  /** Bits startBit .. startBit + setBits - 1 of the address. */
  function SetOf(g: Geometry, a: Addr): (s: nat)
    ensures s < Pow2(g.setBits)
  {
    LowBits(ShiftRight(a, g.startBit), g.setBits)
  }

  /** Shifting and masking split a number at bit `n`. */
  lemma {:induction false} SplitAtBit(a: nat, n: nat)
    ensures a == ShiftRight(a, n) * Pow2(n) + LowBits(a, n)
  {
    if n == 0 {
    } else {
      SplitAtBit(a / 2, n - 1);
      var q, m := ShiftRight(a, n), Pow2(n - 1);
      assert 2 * (q * m) == q * (2 * m);
    }
  }

  lemma FarMultiple(d: int, m: nat)
    requires d != 0
    ensures d * m >= m || d * m + m <= 0
  {
  }

  lemma QuotientUnique(a: nat, m: nat, q: nat, r: nat)
    requires a == q * m + r && r < m
    ensures a / m == q && a % m == r
  {
    var q', r' := a / m, a % m;
    assert q' * m - q * m == r - r';
    if q != q' {
      FarMultiple(q' - q, m);
    }
  }

  lemma BitsMean(a: nat, n: nat)
    ensures ShiftRight(a, n) == a / Pow2(n) && LowBits(a, n) == a % Pow2(n)
  {
    SplitAtBit(a, n);
    QuotientUnique(a, Pow2(n), ShiftRight(a, n), LowBits(a, n));
  }

  /** The set is the address divided by two to the start bit, modulo two to the number of set bits. */
  lemma SetOfMeans(g: Geometry, a: Addr)
    ensures SetOf(g, a) == a / Pow2(g.startBit) % Pow2(g.setBits)
  {
    BitsMean(a, g.startBit);
    BitsMean(ShiftRight(a, g.startBit), g.setBits);
  }

  /** The line of an address is the multiple of the block size that its block starts at. */
  lemma LineAddressMeans(g: Geometry, a: Addr)
    ensures var r := LineAddress(g, a); r % Pow2(g.blockBits) == 0 && r <= a < r + Pow2(g.blockBits)
    ensures IsLine(g, a) <==> a % Pow2(g.blockBits) == 0
  {
    BitsMean(a, g.blockBits);
    BitsMean(LineAddress(g, a), g.blockBits);
  }

  /** The address with the bits inside a block cleared. */
  function LineAddress(g: Geometry, a: Addr): (r: Addr)
    ensures IsLine(g, r)
  {
    ClearLowBits(a, g.blockBits);
    a - LowBits(a, g.blockBits)
  }

  predicate IsLine(g: Geometry, a: Addr) {
    LowBits(a, g.blockBits) == 0
  }

  lemma {:induction false} ClearLowBits(a: nat, n: nat)
    ensures LowBits(a - LowBits(a, n), n) == 0
  {
    if n == 0 {
    } else {
      ClearLowBits(a / 2, n - 1);
      var b := a - LowBits(a, n);
      assert b == 2 * (a / 2 - LowBits(a / 2, n - 1));
      assert b / 2 == a / 2 - LowBits(a / 2, n - 1) && b % 2 == 0;
    }
  }

  // ---------------------------------------------------------------- state

  /** A resident line: its address, its permission, and the entry object that holds it. */
  datatype Line = Line(addr: Addr, perm: Permission, entry: Entry)

  /** A slot: the line in it, if any, and the replacement data that stays with the slot. */
  datatype Cell = Cell(line: Option<Line>, rd: Repl)

  datatype State = State(cells: seq<seq<Cell>>, index: map<Addr, nat>, arc: ArcState)

  predicate Open(c: Cell) { c.line.None? || c.line.value.perm == NotPresent }

  predicate Holds(c: Cell, a: Addr) { c.line.Some? && c.line.value.addr == a }

  ghost predicate Shape(g: Geometry, st: State) {
    && GeometryOk(g)
    && |st.cells| == g.numSets
    && forall s :: 0 <= s < g.numSets ==> |st.cells[s]| == g.assoc
  }

  /** The array has what the tag index promises for `a`. */
  ghost predicate IndexOk(g: Geometry, st: State, a: Addr)
    requires Shape(g, st)
  {
    a in st.index ==> st.index[a] < g.assoc && Holds(st.cells[SetOf(g, a)][st.index[a]], a)
  }

  /** The tag index knows the line in slot (s, w), and the line is in its address's set. */
  ghost predicate SlotIndexed(g: Geometry, st: State, s: nat, w: nat)
    requires Shape(g, st) && s < g.numSets && w < g.assoc
  {
    var line := st.cells[s][w].line;
    line.Some? ==> SetOf(g, line.value.addr) == s && line.value.addr in st.index && st.index[line.value.addr] == w
  }

  /** The tag index and the array say the same, whatever the permissions are. */
  ghost predicate Agree(g: Geometry, st: State)
    requires Shape(g, st)
  {
    && (forall a :: IndexOk(g, st, a))
    && (forall s: nat, w: nat | s < g.numSets && w < g.assoc :: SlotIndexed(g, st, s, w))
  }

  ghost predicate CellOk(c: Cell) {
    && (c.line.Some? ==> c.line.value.perm != NotPresent)
    && (c.rd.valid <==> c.line.Some?)
    && (c.rd.listId == 1 || c.rd.listId == 2)
  }

  ghost predicate SlotOk(g: Geometry, st: State, s: nat, w: nat)
    requires Shape(g, st) && s < g.numSets && w < g.assoc
  {
    CellOk(st.cells[s][w])
  }

  /** What every reachable cache state satisfies, as long as no resident line is made NotPresent. */
  ghost predicate Inv(g: Geometry, st: State) {
    && Shape(g, st)
    && Agree(g, st)
    && (forall a :: a in st.index ==> IsLine(g, a))
    && (forall s: nat, w: nat | s < g.numSets && w < g.assoc :: SlotOk(g, st, s, w))
    && ArcInv(st.arc)
  }

  // ---------------------------------------------------------------- operations

  /** The way of `a` by the tag index, unless the line there is NotPresent. */
  function Lookup(g: Geometry, st: State, a: Addr): Option<nat>
    requires Shape(g, st) && Agree(g, st)
  {
    assert IndexOk(g, st, a);
    if a in st.index && st.cells[SetOf(g, a)][st.index[a]].line.value.perm != NotPresent
    then Some(st.index[a]) else None
  }

  /** Some way of the set is open or already holds `a`. */
  ghost predicate Avail(g: Geometry, st: State, a: Addr)
    requires Shape(g, st)
  {
    exists w :: 0 <= w < g.assoc && (Open(st.cells[SetOf(g, a)][w]) || Holds(st.cells[SetOf(g, a)][w], a))
  }

  /** First open slot of a set, or its length. */
  function FirstOpen(row: seq<Cell>): (w: nat)
    ensures w <= |row|
    ensures forall j :: 0 <= j < w ==> !Open(row[j])
    ensures w < |row| ==> Open(row[w])
  {
    if row == [] || Open(row[0]) then 0 else 1 + FirstOpen(row[1..])
  }

  function WithCell(st: State, s: nat, w: nat, c: Cell): (r: State)
    requires s < |st.cells| && w < |st.cells[s]|
    ensures r.index == st.index && r.arc == st.arc
    ensures |r.cells| == |st.cells| && |r.cells[s]| == |st.cells[s]|
    ensures forall i :: 0 <= i < |st.cells| && i != s ==> r.cells[i] == st.cells[i]
    ensures forall j :: 0 <= j < |st.cells[s]| ==> r.cells[s][j] == if j == w then c else st.cells[s][j]
  {
    st.(cells := st.cells[s := st.cells[s][w := c]])
  }

  datatype AllocResult = NoOpenSlot | AllocTrap | Allocated(st: State, way: nat)

  /** Put entry `e` as a new line for `a` in the first open slot of its set and reset the slot's policy data. */
  function Allocate(g: Geometry, st: State, a: Addr, e: Entry, now: Tick): AllocResult
    requires Shape(g, st) && SameLengths(st.arc)
  {
    var s := SetOf(g, a);
    var w := FirstOpen(st.cells[s]);
    if w == g.assoc then NoOpenSlot
    else
      var rd := st.cells[s][w].rd;
      match Reset(st.arc, s, rd.tag)
      case Trap => AllocTrap
      case Done(arc, listId) =>
        var c := Cell(Some(Line(a, Invalid, e)), Repl(now, listId, true, rd.tag));
        Allocated(WithCell(st, s, w, c).(index := st.index[a := w], arc := arc), w)
  }

  function Deallocate(g: Geometry, st: State, a: Addr): State
    requires Shape(g, st) && Agree(g, st) && Lookup(g, st, a).Some?
  {
    assert IndexOk(g, st, a);
    var s, w := SetOf(g, a), st.index[a];
    var c := st.cells[s][w];
    WithCell(st, s, w, Cell(None, c.rd.(valid := false))).(index := st.index - {a})
  }

  /** A use of `a`; nothing happens when it is not in the cache. */
  function Touch(g: Geometry, st: State, a: Addr, now: Tick): State
    requires Shape(g, st) && Agree(g, st)
  {
    if Lookup(g, st, a).Some? then
      assert IndexOk(g, st, a);
      var s, w := SetOf(g, a), st.index[a];
      var c := st.cells[s][w];
      WithCell(st, s, w, c.(rd := Touched(c.rd, now)))
    else st
  }

  function SetPermission(g: Geometry, st: State, a: Addr, perm: Permission): State
    requires Shape(g, st) && Agree(g, st) && Lookup(g, st, a).Some?
  {
    assert IndexOk(g, st, a);
    var s, w := SetOf(g, a), st.index[a];
    var c := st.cells[s][w];
    WithCell(st, s, w, c.(line := Some(c.line.value.(perm := perm))))
  }

  function Row(st: State, s: nat): (rs: seq<Repl>)
    requires s < |st.cells|
    ensures |rs| == |st.cells[s]|
    ensures forall w :: 0 <= w < |rs| ==> rs[w] == st.cells[s][w].rd
  {
    seq(|st.cells[s]|, w requires 0 <= w < |st.cells[s]| => st.cells[s][w].rd)
  }

  /** Way of the victim a probe for `a` selects. */
  ghost function ProbeWay(g: Geometry, st: State, a: Addr, now: Tick): (v: Option<nat>)
    requires Shape(g, st)
    ensures v.Some? ==> v.value < g.assoc && st.cells[SetOf(g, a)][v.value].rd.valid
  {
    var s := SetOf(g, a);
    var rs := Row(st, s);
    Victim(rs, P(st.arc, s), now)
  }

  /** A probe changes nothing but the ghost lists. */
  ghost function Probe(g: Geometry, st: State, a: Addr, now: Tick): State
    requires Shape(g, st) && SameLengths(st.arc)
  {
    var s := SetOf(g, a);
    st.(arc := Evict(st.arc, s, Row(st, s), now))
  }

  // ---------------------------------------------------------------- the index and the array

  ghost predicate InSlot(g: Geometry, st: State, a: Addr, s: nat, w: nat)
    requires Shape(g, st)
  {
    s < g.numSets && w < g.assoc && Holds(st.cells[s][w], a)
  }

  /** Looking up by the index and scanning the array agree; so an address has at most one slot. */
  lemma LookupIsScan(g: Geometry, st: State, a: Addr)
    requires Inv(g, st)
    ensures forall s: nat, w: nat :: InSlot(g, st, a, s, w) <==> s == SetOf(g, a) && Lookup(g, st, a) == Some(w)
    ensures Lookup(g, st, a).Some? <==> a in st.index
  {
    assert IndexOk(g, st, a);
    if a in st.index {
      assert SlotOk(g, st, SetOf(g, a), st.index[a]);
    }
    forall s: nat, w: nat
      ensures InSlot(g, st, a, s, w) <==> s == SetOf(g, a) && Lookup(g, st, a) == Some(w)
    {
      if InSlot(g, st, a, s, w) {
        assert SlotIndexed(g, st, s, w);
      }
    }
  }

  ghost function LineOf(g: Geometry, st: State, a: Addr): Line
    requires Shape(g, st) && a in st.index && IndexOk(g, st, a)
  {
    st.cells[SetOf(g, a)][st.index[a]].line.value
  }

  /** The plain map the cache implements: every resident address with its entry and permission. */
  ghost function Contents(g: Geometry, st: State): map<Addr, Line>
    requires Shape(g, st) && Agree(g, st)
  {
    map a | a in st.index && IndexOk(g, st, a) :: LineOf(g, st, a)
  }

  ghost function EmptyState(g: Geometry): State {
    State(seq(g.numSets, _ => seq(g.assoc, _ => Cell(None, Repl(0, 1, false, 0)))), map[], ARC_EMPTY)
  }

  lemma EmptyStateInv(g: Geometry)
    requires GeometryOk(g)
    ensures Inv(g, EmptyState(g)) && Contents(g, EmptyState(g)) == map[]
  {
  }
}
