/**
 The Ruby cache memory as the source runs it: a table of entry pointers, a table of replacement data
 that stays with the slots, and a tag index, all changed in place. `model` is the value of the whole
 object; `Valid` ties every pointer to it, and every method moves it by the operation of CacheSpec.
 */
module RubyCache {
  import opened Common
  import opened ArcSpec
  import opened ArcPolicy
  import opened CacheSpec
  import opened CacheLaws
  import opened CacheRuns
  import opened GhostHistory

  function FloorLog2(n: nat): (r: nat)
    requires n >= 1
    ensures Pow2(r) <= n < Pow2(r + 1)
  {
    if n == 1 then 0 else 1 + FloorLog2(n / 2)
  }

  /** `st` is where the run `ops` ends, with no tag ever written. */
  ghost predicate Reached(g: Geometry, ops: seq<Op>, st: State) {
    GeometryOk(g) && Run(g, ops) == Some(st) && NoRetag(ops)
  }

  lemma ReachedNext(g: Geometry, ops: seq<Op>, st: State, op: Op)
    requires Reached(g, ops, st) && Inv(g, st) && Enabled(g, st, op) && !op.Retag?
    ensures Reached(g, ops + [op], Apply(g, st, op))
  {
    assert (ops + [op])[..|ops|] == ops;
  }

  ghost predicate AllocTraps(g: Geometry, st: State, a: Addr, e: Entry, now: Tick) {
    Inv(g, st) && Allocate(g, st, a, e, now).AllocTrap?
  }

  ghost predicate AllocStep(g: Geometry, st: State, a: Addr, e: Entry, now: Tick, st': State) {
    && Inv(g, st) && Inv(g, st') && Allocate(g, st, a, e, now).Allocated?
    && st' == Allocate(g, st, a, e, now).st
    && Contents(g, st') == Contents(g, st)[a := Line(a, Invalid, e)]
  }

  ghost predicate DeallocStep(g: Geometry, st: State, a: Addr, st': State) {
    && Inv(g, st) && Inv(g, st') && Lookup(g, st, a).Some?
    && st' == Deallocate(g, st, a)
    && Contents(g, st') == Contents(g, st) - {a}
  }

  ghost predicate ProbeStep(g: Geometry, st: State, a: Addr, now: Tick, victim: Addr, st': State) {
    && Inv(g, st) && Inv(g, st')
    && st' == Probe(g, st, a, now)
    && Contents(g, st') == Contents(g, st)
    && victim in st.index && victim != a && SetOf(g, victim) == SetOf(g, a)
    && ProbeWay(g, st, a, now) == Some(st.index[victim])
  }

  ghost predicate TouchStep(g: Geometry, st: State, a: Addr, now: Tick, st': State) {
    && Inv(g, st) && Inv(g, st')
    && st' == Touch(g, st, a, now)
    && Contents(g, st') == Contents(g, st)
  }

  ghost predicate PermissionStep(g: Geometry, st: State, a: Addr, perm: Permission, st': State) {
    && Inv(g, st) && Inv(g, st') && Lookup(g, st, a).Some?
    && st' == SetPermission(g, st, a, perm)
    && a in Contents(g, st) && Contents(g, st') == Contents(g, st)[a := Contents(g, st)[a].(perm := perm)]
  }

  lemma ReachedByAlloc(g: Geometry, ops: seq<Op>, st: State, a: Addr, e: Entry, now: Tick, st': State)
    requires Reached(g, ops, st) && AllocStep(g, st, a, e, now, st')
    requires IsLine(g, a) && Lookup(g, st, a).None? && Avail(g, st, a)
    ensures Reached(g, ops + [Alloc(a, e, now)], st')
  {
    ReachedNext(g, ops, st, Alloc(a, e, now));
  }

  lemma ReachedByDealloc(g: Geometry, ops: seq<Op>, st: State, a: Addr, st': State)
    requires Reached(g, ops, st) && DeallocStep(g, st, a, st')
    ensures Reached(g, ops + [Dealloc(a)], st')
  {
    ReachedNext(g, ops, st, Dealloc(a));
  }

  lemma ReachedByProbe(g: Geometry, ops: seq<Op>, st: State, a: Addr, now: Tick, victim: Addr, st': State)
    requires Reached(g, ops, st) && ProbeStep(g, st, a, now, victim, st') && !Avail(g, st, a)
    ensures Reached(g, ops + [ProbeFor(a, now)], st')
  {
    ReachedNext(g, ops, st, ProbeFor(a, now));
  }

  lemma ReachedByTouch(g: Geometry, ops: seq<Op>, st: State, a: Addr, now: Tick, st': State)
    requires Reached(g, ops, st) && TouchStep(g, st, a, now, st')
    ensures Reached(g, ops + [Use(a, now)], st')
  {
    ReachedNext(g, ops, st, Use(a, now));
  }

  lemma ReachedByPermission(g: Geometry, ops: seq<Op>, st: State, a: Addr, perm: Permission, st': State)
    requires Reached(g, ops, st) && PermissionStep(g, st, a, perm, st') && perm != NotPresent
    ensures Reached(g, ops + [SetPerm(a, perm)], st')
  {
    ReachedNext(g, ops, st, SetPerm(a, perm));
  }

  /** `next` has the cells of `st` but for `c` in slot (s, w). */
  ghost predicate CellSet(st: State, s: nat, w: nat, c: Cell, next: State) {
    s < |st.cells| && w < |st.cells[s]| && next.cells == st.cells[s := st.cells[s][w := c]]
  }

  class CacheMemory {
    const geo: Geometry
    const policy: Arc
    var cache: seq<seq<Entry?>>
    var replacementData: seq<seq<ReplData>>
    var tagIndex: map<Addr, nat>
    /** Every entry in the cache, and every replacement data. */
    ghost var entries: set<Entry>
    ghost var datas: set<ReplData>
    ghost var model: State
    /** The operations made on this cache so far. */
    ghost var history: seq<Op>

    ghost predicate Tables()
      reads `cache, `replacementData, `model
    {
      && |cache| == |replacementData| == |model.cells| == geo.numSets
      && forall s :: 0 <= s < geo.numSets ==>
           |cache[s]| == |replacementData[s]| == |model.cells[s]| == geo.assoc
    }

    /** The slot (s, w): its data belongs to it, and an entry in it knows its slot and its data, and back. */
    ghost predicate Linked(s: nat, w: nat)
      requires Tables() && s < geo.numSets && w < geo.assoc
      reads `cache, `replacementData, `model, `entries, `datas, entries, datas
    {
      var rd, e, c := replacementData[s][w], cache[s][w], model.cells[s][w];
      && rd in datas && rd.home == (s, w) && rd.Value() == c.rd
      && (e == null ==> c.line == None)
      && (e != null ==>
            && e in entries && e.set_ == s && e.way == w
            && e.replacementData == rd && rd.entry == e
            && c.line == Some(Line(e.address, e.permission, e)))
    }

    ghost predicate InCache(e: Entry)
      requires Tables()
      reads `cache, `replacementData, `model, e
    {
      e.set_ < geo.numSets && e.way < geo.assoc && cache[e.set_][e.way] == e
    }

    ghost predicate AllLinked()
      reads `cache, `replacementData, `model, `entries, `datas, entries, datas
    {
      && Tables()
      && (forall s: nat, w: nat | s < geo.numSets && w < geo.assoc :: Linked(s, w))
      && (forall e | e in entries :: InCache(e))
    }

    ghost predicate Consistent()
      reads `cache, `replacementData, `tagIndex, `model, `entries, `datas, policy, entries, datas
    {
      && AllLinked()
      && tagIndex == model.index
      && policy.State() == model.arc
      && Inv(geo, model)
    }

    ghost predicate Valid()
      reads this, policy, entries, datas
    {
      Consistent() && Reached(geo, history, model)
    }

    /** The plain map this object implements: every resident address with its entry and permission. */
    ghost function Table(): map<Addr, Line>
      requires Consistent()
      reads `cache, `replacementData, `tagIndex, `model, `entries, `datas, policy, entries, datas
    {
      Contents(geo, model)
    }

    constructor (size: nat, assoc: nat, startBit: nat, blockBits: nat)
      requires assoc >= 1 && size / assoc / Pow2(blockBits) > 1
      ensures Valid() && fresh(policy) && fresh(datas) && entries == {}
      ensures geo.numSets == size / assoc / Pow2(blockBits) && geo.assoc == assoc
      ensures geo.startBit == startBit && geo.blockBits == blockBits
      ensures Pow2(geo.setBits) <= geo.numSets < Pow2(geo.setBits + 1)
      ensures model == EmptyState(geo) && history == [] && Table() == map[]
    {
      var numSets := size / assoc / Pow2(blockBits);
      var g := Geometry(numSets, assoc, startBit, FloorLog2(numSets), blockBits);
      geo := g;
      policy := new Arc();
      cache := seq(numSets, _ => seq(assoc, _ => null));
      tagIndex := map[];
      entries := {};
      model, history := EmptyState(g), [];
      var table, all := InstantiateAll(numSets, assoc);
      replacementData, datas := table, all;
      new;
      assert Pow2(1) == 2;
      EmptyStateInv(geo);
    }

    /** New replacement data for every slot, with `all` the set of it. */
    static method InstantiateAll(numSets: nat, assoc: nat)
      returns (table: seq<seq<ReplData>>, ghost all: set<ReplData>)
      ensures |table| == numSets && forall s :: 0 <= s < numSets ==> |table[s]| == assoc
      ensures forall s, w :: 0 <= s < numSets && 0 <= w < assoc ==>
                table[s][w] in all && table[s][w].home == (s, w) && table[s][w].Value() == Repl(0, 1, false, 0)
      ensures fresh(all)
    {
      table, all := [], {};
      for i := 0 to numSets
        invariant |table| == i && forall s :: 0 <= s < i ==> |table[s]| == assoc
        invariant forall s, w :: 0 <= s < i && 0 <= w < assoc ==>
                    table[s][w] in all && table[s][w].home == (s, w) && table[s][w].Value() == Repl(0, 1, false, 0)
        invariant fresh(all)
      {
        var row: seq<ReplData> := [];
        for j := 0 to assoc
          invariant |row| == j && fresh(all)
          invariant forall s, w :: 0 <= s < i && 0 <= w < assoc ==>
                      table[s][w] in all && table[s][w].home == (s, w) && table[s][w].Value() == Repl(0, 1, false, 0)
          invariant forall w :: 0 <= w < j ==>
                      row[w] in all && row[w].home == (i, w) && row[w].Value() == Repl(0, 1, false, 0)
        {
          var rd := new ReplData(i, j);
          row := row + [rd];
          all := all + {rd};
        }
        table := table + [row];
      }
    }

    /** The way of `tag`, or -1. */
    method FindTagInSet(s: nat, tag: Addr) returns (loc: int)
      requires Consistent() && s == SetOf(geo, tag)
      ensures loc == (match Lookup(geo, model, tag) case None => -1 case Some(w) => w)
    {
      if tag in tagIndex {
        assert IndexOk(geo, model, tag);
        assert Linked(s, tagIndex[tag]);
        if cache[s][tagIndex[tag]].permission != NotPresent {
          return tagIndex[tag];
        }
      }
      return -1;
    }

    /** The entry the table has for `a`, or null; so exactly the entry in the cache with that address. */
    method LookupEntry(a: Addr) returns (e: Entry?)
      requires Consistent() && IsLine(geo, a)
      ensures e == null <==> a !in Table()
      ensures e == null <==> Lookup(geo, model, a).None?
      ensures e == null <==> forall f :: f in entries ==> f.address != a
      ensures e != null ==>
                && e == Table()[a].entry && Table()[a] == Line(a, e.permission, e)
                && e in entries && InCache(e) && e.address == a && e.set_ == SetOf(geo, a)
                && a in tagIndex && tagIndex[a] == e.way
    {
      var s := SetOf(geo, a);
      var loc := FindTagInSet(s, a);
      LookupIsScan(geo, model, a);
      assert IndexOk(geo, model, a);
      forall f | f in entries
        ensures InCache(f) && (f.address == a <==> InSlot(geo, model, a, f.set_, f.way))
      {
        assert InCache(f) && Linked(f.set_, f.way);
      }
      if loc == -1 {
        return null;
      }
      assert InSlot(geo, model, a, s, loc) && Linked(s, loc);
      e := cache[s][loc];
      assert LineOf(geo, model, a) == Line(a, e.permission, e);
    }

    method CacheAvail(a: Addr) returns (avail: bool)
      requires Consistent() && IsLine(geo, a)
      ensures avail == Avail(geo, model, a)
    {
      var s := SetOf(geo, a);
      for i := 0 to geo.assoc
        invariant forall w :: 0 <= w < i ==> !Open(model.cells[s][w]) && !Holds(model.cells[s][w], a)
      {
        var e := cache[s][i];
        assert Linked(s, i);
        if e != null {
          if e.address == a || e.permission == NotPresent {
            return true;
          }
        } else {
          return true;
        }
      }
      return false;
    }

    /** Record a step in the history, once the run with it is known to end here. */
    ghost method Log(op: Op)
      requires Consistent() && Reached(geo, history + [op], model)
      modifies `history
      ensures Valid() && history == old(history) + [op]
    {
      history := history + [op];
    }

    method Allocate(a: Addr, entry: Entry, now: Tick) returns (outcome: Outcome, r: Entry?)
      requires Valid() && IsLine(geo, a) && entry !in entries
      requires Lookup(geo, model, a).None? && Avail(geo, model, a)
      modifies this, policy, entry, datas
      ensures outcome == Completed ==> r == entry
      ensures outcome == Completed || outcome == DivideByZero
      ensures outcome == DivideByZero <==> AllocTraps(geo, old(model), a, entry, now)
      ensures outcome == Completed ==>
                && Valid() && AllocStep(geo, old(model), a, entry, now, model)
                && entries == old(entries) + {entry} && datas == old(datas)
                && Table() == old(Table())[a := Line(a, Invalid, entry)]
                && history == old(history) + [Alloc(a, entry, now)]
    {
      assert Reached(geo, history, model);
      outcome := Place(a, entry, now);
      if outcome == Completed {
        assert Reached(geo, history + [Alloc(a, entry, now)], model) by {
          ReachedByAlloc(geo, history, old(model), a, entry, now, model);
        }
        Log(Alloc(a, entry, now));
      }
      r := entry;
    }

    method Place(a: Addr, entry: Entry, now: Tick) returns (outcome: Outcome)
      requires Consistent() && IsLine(geo, a) && entry !in entries
      requires Lookup(geo, model, a).None? && Avail(geo, model, a)
      modifies this, policy, entry, datas
      ensures history == old(history)
      ensures outcome == Completed || outcome == DivideByZero
      ensures outcome == DivideByZero <==> AllocTraps(geo, old(model), a, entry, now)
      ensures outcome == Completed ==>
                && Consistent() && AllocStep(geo, old(model), a, entry, now, model)
                && entries == old(entries) + {entry} && datas == old(datas)
    {
      AllocateFindsSlot(geo, model, a, entry, now);
      var s := SetOf(geo, a);
      var i := FindOpen(s);
      if i == geo.assoc {
        return PanicNoSlot;
      }
      outcome := Fill(s, i, a, entry, now);
    }

    /** The search of the allocation loop: the first open slot of a set, or the number of ways. */
    method FindOpen(s: nat) returns (i: nat)
      requires Consistent() && s < geo.numSets
      ensures i == FirstOpen(model.cells[s])
    {
      i := 0;
      while i < geo.assoc && !(cache[s][i] == null || cache[s][i].permission == NotPresent)
        invariant i <= geo.assoc
        invariant forall w :: 0 <= w < i ==> !Open(model.cells[s][w])
      {
        assert Linked(s, i);
        i := i + 1;
      }
      if i < geo.assoc {
        assert Linked(s, i);
      }
    }

    /** The body of the allocation loop, for the slot (s, i): what it writes, pointer by pointer. */
    method Install(s: nat, i: nat, a: Addr, entry: Entry, now: Tick) returns (outcome: Outcome)
      requires Tables() && s < geo.numSets && i < geo.assoc
      requires replacementData[s][i] in datas && ArcInv(policy.State())
      modifies this, policy, entry, replacementData[s][i]
      ensures Tables() && cache == old(cache)[s := old(cache)[s][i := entry]]
      ensures tagIndex == old(tagIndex)[a := i]
      ensures unchanged(`replacementData, `entries, `datas, `model, `history)
      ensures entry.address == a && entry.permission == Invalid && entry.set_ == s && entry.way == i
      ensures entry.replacementData == replacementData[s][i] && replacementData[s][i].entry == entry
      ensures outcome == Completed || outcome == DivideByZero
      ensures outcome == DivideByZero <==> ArcSpec.Reset(old(policy.State()), s, old(replacementData[s][i].tag)).Trap?
      ensures outcome == Completed ==>
                var r := ArcSpec.Reset(old(policy.State()), s, old(replacementData[s][i].tag));
                && policy.State() == r.arc
                && replacementData[s][i].Value() == Repl(now, r.listId, true, old(replacementData[s][i].tag))
    {
      cache := cache[s := cache[s][i := entry]];
      entry.address := a;
      entry.permission := Invalid;
      tagIndex := tagIndex[a := i];
      entry.replacementData := replacementData[s][i];
      entry.SetPosition(s, i);
      outcome := policy.Reset(entry.replacementData, now);
    }

    /** The same, keeping all slots linked; `next` is the new value of the cache. */
    method Attach(s: nat, i: nat, a: Addr, entry: Entry, now: Tick, ghost next: State) returns (outcome: Outcome)
      requires AllLinked() && ArcInv(policy.State()) && entry !in entries
      requires s < geo.numSets && i < geo.assoc && cache[s][i] == null
      requires var tag := replacementData[s][i].tag; var r := ArcSpec.Reset(policy.State(), s, tag);
               r.Done? ==>
                 CellSet(model, s, i, Cell(Some(Line(a, Invalid, entry)), Repl(now, r.listId, true, tag)), next)
      modifies this, policy, entry, replacementData[s][i]
      ensures history == old(history) && datas == old(datas)
      ensures outcome == Completed || outcome == DivideByZero
      ensures outcome == DivideByZero <==> ArcSpec.Reset(old(policy.State()), s, old(replacementData[s][i].tag)).Trap?
      ensures outcome == Completed ==>
                && AllLinked() && model == next && tagIndex == old(tagIndex)[a := i]
                && policy.State() == ArcSpec.Reset(old(policy.State()), s, old(replacementData[s][i].tag)).arc
                && entries == old(entries) + {entry} && InCache(entry) && entry.address == a
    {
      assert Linked(s, i);
      outcome := Install(s, i, a, entry, now);
      if outcome == Completed {
        model, entries := next, entries + {entry};
        forall s': nat, w': nat | s' < geo.numSets && w' < geo.assoc
          ensures Linked(s', w')
        {
          assert old(Linked(s', w'));
        }
        assert forall e | e in old(entries) :: old(InCache(e));
      }
    }

    /** The same step on the whole object, for the first open slot. */
    method Fill(s: nat, i: nat, a: Addr, entry: Entry, now: Tick) returns (outcome: Outcome)
      requires Consistent() && IsLine(geo, a) && entry !in entries
      requires Lookup(geo, model, a).None?
      requires s == SetOf(geo, a) && i < geo.assoc && i == FirstOpen(model.cells[s])
      modifies this, policy, entry, datas
      ensures history == old(history)
      ensures outcome == Completed || outcome == DivideByZero
      ensures outcome == DivideByZero <==> AllocTraps(geo, old(model), a, entry, now)
      ensures outcome == Completed ==>
                && Consistent() && AllocStep(geo, old(model), a, entry, now, model)
                && entries == old(entries) + {entry} && datas == old(datas)
    {
      assert Linked(s, i) && CacheSpec.SlotOk(geo, model, s, i);
      ghost var r := CacheSpec.Allocate(geo, model, a, entry, now);
      ghost var next := if r.Allocated? then r.st else model;
      assert r.Allocated? ==> AllocStep(geo, model, a, entry, now, next) by {
        if r.Allocated? {
          AllocateKeepsInv(geo, model, a, entry, now);
        }
      }
      outcome := Attach(s, i, a, entry, now, next);
    }

    method Deallocate(a: Addr)
      requires Valid() && IsLine(geo, a) && Lookup(geo, model, a).Some?
      modifies this, datas
      ensures Valid() && DeallocStep(geo, old(model), a, model)
      ensures a in old(Table()) && Table() == old(Table()) - {a}
      ensures datas == old(datas) && entries == old(entries) - {old(Table())[a].entry}
      ensures history == old(history) + [Dealloc(a)]
    {
      assert Reached(geo, history, model);
      Remove(a);
      assert Reached(geo, history + [Dealloc(a)], model) by {
        ReachedByDealloc(geo, history, old(model), a, model);
      }
      Log(Dealloc(a));
    }

    method Remove(a: Addr)
      requires Consistent() && IsLine(geo, a) && Lookup(geo, model, a).Some?
      modifies this`cache, this`tagIndex, this`model, this`entries, datas
      ensures Consistent() && DeallocStep(geo, old(model), a, model)
      ensures a in old(Table()) && Table() == old(Table()) - {a}
      ensures entries == old(entries) - {old(Table())[a].entry}
    {
      var e := LookupEntry(a);
      ghost var next := CacheSpec.Deallocate(geo, model, a);
      assert DeallocStep(geo, model, a, next) by {
        DeallocateKeepsInv(geo, model, a);
      }
      Detach(e, a, next);
    }

    /** Invalidate the data of an entry's slot and empty the slot, keeping all slots linked. */
    method Detach(e: Entry, a: Addr, ghost next: State)
      requires AllLinked() && e in entries && InCache(e)
      requires CellSet(model, e.set_, e.way, Cell(None, model.cells[e.set_][e.way].rd.(valid := false)), next)
      modifies this`cache, this`tagIndex, this`model, this`entries, datas
      ensures AllLinked() && model == next && tagIndex == old(tagIndex) - {a}
      ensures entries == old(entries) - {e}
    {
      assert Linked(e.set_, e.way);
      policy.Invalidate(e.replacementData);
      var s, way := e.set_, e.way;
      cache := cache[s := cache[s][way := null]];
      tagIndex := tagIndex - {a};
      model, entries := next, entries - {e};
      forall s': nat, w': nat | s' < geo.numSets && w' < geo.assoc
        ensures Linked(s', w')
      {
        assert old(Linked(s', w'));
      }
      assert forall f | f in old(entries) :: old(InCache(f));
    }

    method CacheProbe(a: Addr, now: Tick) returns (victim: Addr)
      requires Valid() && IsLine(geo, a) && !Avail(geo, model, a)
      modifies policy, this`model, this`history
      ensures Valid() && ProbeStep(geo, old(model), a, now, victim, model)
      ensures Table() == old(Table())
      ensures history == old(history) + [ProbeFor(a, now)]
    {
      assert Reached(geo, history, model);
      victim := Select(a, now);
      assert Reached(geo, history + [ProbeFor(a, now)], model) by {
        ReachedByProbe(geo, history, old(model), a, now, victim, model);
      }
      Log(ProbeFor(a, now));
    }

    method Select(a: Addr, now: Tick) returns (victim: Addr)
      requires Consistent() && !Avail(geo, model, a)
      modifies policy, this`model
      ensures Consistent() && ProbeStep(geo, old(model), a, now, victim, model)
    {
      var s := SetOf(geo, a);
      ghost var w := ProbeFinds(a, now);
      var candidates := Candidates(s);
      var v := policy.GetVictim(candidates, now, Row(model, s));
      assert v == candidates[w];
      victim := cache[s][v.way].address;
      SameCells(Probe(geo, model, a, now));
    }

    /** A new value with the same cells. */
    ghost method SameCells(next: State)
      requires AllLinked() && next.cells == model.cells
      modifies this`model
      ensures AllLinked() && model == next
    {
      model := next;
      forall s': nat, w': nat | s' < geo.numSets && w' < geo.assoc
        ensures Linked(s', w')
      {
        assert old(Linked(s', w'));
      }
      assert forall f | f in entries :: old(InCache(f));
    }

    /** Way of the victim, and the step the probe is about to make. */
    lemma ProbeFinds(a: Addr, now: Tick) returns (w: nat)
      requires Consistent() && !Avail(geo, model, a)
      ensures w < geo.assoc && ProbeWay(geo, model, a, now) == Some(w)
      ensures cache[SetOf(geo, a)][w] != null
      ensures ProbeStep(geo, model, a, now, cache[SetOf(geo, a)][w].address, Probe(geo, model, a, now))
      ensures forall i :: 0 <= i < geo.assoc ==> cache[SetOf(geo, a)][i] != null
    {
      ProbeFindsVictim(geo, model, a, now);
      ProbeKeepsInv(geo, model, a, now);
      w := ProbeWay(geo, model, a, now).value;
      forall i: nat | i < geo.assoc
        ensures cache[SetOf(geo, a)][i] != null
      {
        assert Linked(SetOf(geo, a), i);
      }
      assert Linked(SetOf(geo, a), w);
    }

    method Candidates(s: nat) returns (candidates: seq<Entry>)
      requires Consistent() && s < geo.numSets
      requires forall i :: 0 <= i < geo.assoc ==> cache[s][i] != null
      ensures |candidates| == geo.assoc
      ensures forall i :: 0 <= i < geo.assoc ==>
                && candidates[i] == cache[s][i] && candidates[i].way == i && candidates[i].set_ == s
                && candidates[i].replacementData != null && candidates[i].replacementData.Value() == Row(model, s)[i]
    {
      candidates := [];
      for i := 0 to geo.assoc
        invariant |candidates| == i
        invariant forall w :: 0 <= w < i ==> candidates[w] == cache[s][w]
      {
        candidates := candidates + [cache[s][i]];
      }
      forall i | 0 <= i < geo.assoc
        ensures candidates[i].way == i && candidates[i].set_ == s
        ensures candidates[i].replacementData != null && candidates[i].replacementData.Value() == Row(model, s)[i]
      {
        assert Linked(s, i);
      }
    }

    method SetMRU(address: Addr, now: Tick)
      requires Valid()
      modifies this`model, this`history, datas
      ensures Valid() && TouchStep(geo, old(model), LineAddress(geo, address), now, model)
      ensures Table() == old(Table())
      ensures history == old(history) + [Use(LineAddress(geo, address), now)]
    {
      var a := LineAddress(geo, address);
      assert Reached(geo, history, model);
      TouchLine(a, now);
      assert Reached(geo, history + [Use(a, now)], model) by {
        ReachedByTouch(geo, history, old(model), a, now, model);
      }
      Log(Use(a, now));
    }

    method TouchLine(a: Addr, now: Tick)
      requires Consistent() && IsLine(geo, a)
      modifies this`model, datas
      ensures Consistent() && TouchStep(geo, old(model), a, now, model)
    {
      var e := LookupEntry(a);
      ghost var next := Touch(geo, model, a, now);
      assert TouchStep(geo, model, a, now, next) by {
        TouchKeepsInv(geo, model, a, now);
      }
      if e != null {
        TouchEntry(e, now, next);
      }
    }

    method TouchEntry(e: Entry, now: Tick, ghost next: State)
      requires AllLinked() && e in entries && InCache(e)
      requires var c := model.cells[e.set_][e.way]; CellSet(model, e.set_, e.way, c.(rd := Touched(c.rd, now)), next)
      modifies this`model, datas
      ensures AllLinked() && model == next
    {
      assert Linked(e.set_, e.way);
      policy.Touch(e.replacementData, now);
      model := next;
      forall s': nat, w': nat | s' < geo.numSets && w' < geo.assoc
        ensures Linked(s', w')
      {
        assert old(Linked(s', w'));
      }
      assert forall f | f in old(entries) :: old(InCache(f));
    }

    /** A permission change made by the protocol; the rule is that it is never to NotPresent. */
    method ChangePermission(a: Addr, perm: Permission)
      requires Valid() && IsLine(geo, a) && Lookup(geo, model, a).Some? && perm != NotPresent
      modifies this`model, this`history, entries
      ensures Valid() && PermissionStep(geo, old(model), a, perm, model)
      ensures a in old(Table()) && Table() == old(Table())[a := old(Table())[a].(perm := perm)]
      ensures history == old(history) + [SetPerm(a, perm)]
    {
      assert Reached(geo, history, model);
      Repermit(a, perm);
      assert Reached(geo, history + [SetPerm(a, perm)], model) by {
        ReachedByPermission(geo, history, old(model), a, perm, model);
      }
      Log(SetPerm(a, perm));
    }

    method Repermit(a: Addr, perm: Permission)
      requires Consistent() && IsLine(geo, a) && Lookup(geo, model, a).Some? && perm != NotPresent
      modifies this`model, entries
      ensures Consistent() && PermissionStep(geo, old(model), a, perm, model)
    {
      var e := LookupEntry(a);
      ghost var next := SetPermission(geo, model, a, perm);
      assert PermissionStep(geo, model, a, perm, next) by {
        SetPermissionKeepsInv(geo, model, a, perm);
      }
      assert Linked(e.set_, e.way);
      Permit(e, perm, next);
    }

    method Permit(e: Entry, perm: Permission, ghost next: State)
      requires AllLinked() && e in entries && InCache(e)
      requires CellSet(model, e.set_, e.way, model.cells[e.set_][e.way].(line := Some(Line(e.address, perm, e))), next)
      modifies this`model, entries
      ensures AllLinked() && model == next
    {
      assert Linked(e.set_, e.way);
      e.permission := perm;
      model := next;
      forall s': nat, w': nat | s' < geo.numSets && w' < geo.assoc
        ensures Linked(s', w')
      {
        assert old(Linked(s', w'));
      }
      assert forall f | f in old(entries) :: old(InCache(f));
    }
  }
}
