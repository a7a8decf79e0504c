/**
 The checkpoint upgrader: resolving the dependencies between migrations, and the worklist that applies
 the pending ones to a checkpoint's tags, batch by batch, until none is left or none is ready.
 */
module CheckpointUpgrader {
  type Tag = string

  /** A migration that adds its tag (`upgrades`) or removes it. */
  datatype Upgrader = Upgrader(depends: seq<Tag>, fwdDepends: seq<Tag>, upgrades: bool)

  /** One migration per tag. */
  type Registry = map<Tag, Upgrader>

  function TagSet(reg: Registry): set<Tag> { set t | t in reg && reg[t].upgrades }

  function UntagSet(reg: Registry): set<Tag> { set t | t in reg && !reg[t].upgrades }

  /** Upgrades the checkpoint lacks, and downgrades whose tag it has. */
  function Pending(reg: Registry, tags: set<Tag>): set<Tag> {
    (TagSet(reg) - tags) + (UntagSet(reg) * tags)
  }

  predicate Ready(reg: Registry, t: Tag, tags: set<Tag>)
    requires t in reg
  {
    forall i :: 0 <= i < |reg[t].depends| ==> reg[t].depends[i] in tags
  }

  function ReadySet(reg: Registry, pending: set<Tag>, tags: set<Tag>): set<Tag>
    requires pending <= reg.Keys
  {
    set t | t in pending && Ready(reg, t, tags)
  }

  /** All of `batch` applied, in whatever order. */
  function Applied(reg: Registry, tags: set<Tag>, batch: set<Tag>): set<Tag> {
    (tags + (batch * TagSet(reg))) - (batch * UntagSet(reg))
  }

  datatype Outcome = Migrated(tags: set<Tag>) | Stuck(pending: set<Tag>) | TagMissing

  function Solve(reg: Registry, tags: set<Tag>, pending: set<Tag>): Outcome
    requires pending <= reg.Keys
    decreases |pending|
  {
    if pending == {} then Migrated(tags)
    else
      var batch := ReadySet(reg, pending, tags);
      if batch == {} then Stuck(pending)
      else
        Smaller(pending, batch);
        Solve(reg, Applied(reg, tags, batch), pending - batch)
  }

  lemma Smaller(pending: set<Tag>, batch: set<Tag>)
    requires batch <= pending && batch != {}
    ensures |pending - batch| < |pending|
  {
    assert pending == (pending - batch) + batch;
    assert |pending| == |pending - batch| + |batch|;
    var t :| t in batch;
    assert |batch| >= |{t}|;
  }

  // ---------------------------------------------------------------- the worklist

  method IsReady(reg: Registry, t: Tag, tags: set<Tag>) returns (ready: bool)
    requires t in reg
    ensures ready == Ready(reg, t, tags)
  {
    for i := 0 to |reg[t].depends|
      invariant forall j :: 0 <= j < i ==> reg[t].depends[j] in tags
    {
      if reg[t].depends[i] !in tags {
        return false;
      }
    }
    return true;
  }

  method ComputeReady(reg: Registry, pending: set<Tag>, tags: set<Tag>) returns (batch: set<Tag>)
    requires pending <= reg.Keys
    ensures batch == ReadySet(reg, pending, tags)
  {
    batch := {};
    var todo := pending;
    while todo != {}
      invariant todo <= pending
      invariant batch == ReadySet(reg, pending - todo, tags)
      decreases |todo|
    {
      var t :| t in todo;
      var ready := IsReady(reg, t, tags);
      Smaller(todo, {t});
      todo := todo - {t};
      if ready {
        batch := batch + {t};
      }
    }
    assert pending - todo == pending;
  }

  ghost predicate Distinct(l: seq<Tag>) {
    forall i, j :: 0 <= i < j < |l| ==> l[i] != l[j]
  }

  function Elems(l: seq<Tag>): set<Tag> { set t | t in l }

  lemma JoinOrders(a: seq<Tag>, b: seq<Tag>)
    requires Distinct(a) && Distinct(b) && Elems(a) !! Elems(b)
    ensures Distinct(a + b) && Elems(a + b) == Elems(a) + Elems(b)
  {
    forall i, j | 0 <= i < j < |a + b|
      ensures (a + b)[i] != (a + b)[j]
    {
      if i < |a| <= j {
        assert a[i] in Elems(a) && b[j - |a|] in Elems(b);
      }
    }
  }

  /** Where the loop over a batch stands with `todo` left. */
  ghost predicate BatchAt(reg: Registry, start: set<Tag>, batch: set<Tag>, todo: set<Tag>, tags: set<Tag>,
                          order: seq<Tag>)
  {
    todo <= batch && tags == Applied(reg, start, batch - todo) && Distinct(order) && Elems(order) == batch - todo
  }

  /** One migration applied to the tags. */
  function Updated(reg: Registry, tags: set<Tag>, t: Tag): set<Tag>
    requires t in reg
  {
    if reg[t].upgrades then tags + {t} else tags - {t}
  }

  lemma AppliedOne(reg: Registry, start: set<Tag>, batch: set<Tag>, todo: set<Tag>, t: Tag)
    requires t in reg && t in todo && todo <= batch
    ensures Applied(reg, start, batch - (todo - {t})) == Updated(reg, Applied(reg, start, batch - todo), t)
    ensures !reg[t].upgrades && t in start ==> t in Applied(reg, start, batch - todo)
  {
    assert batch - (todo - {t}) == (batch - todo) + {t};
  }

  lemma BatchTurn(reg: Registry, start: set<Tag>, batch: set<Tag>, todo: set<Tag>, tags: set<Tag>, order: seq<Tag>,
                  t: Tag)
    requires BatchAt(reg, start, batch, todo, tags, order) && t in todo && t in reg
    ensures BatchAt(reg, start, batch, todo - {t}, Updated(reg, tags, t), order + [t])
    ensures !reg[t].upgrades && t in start ==> t in tags
    ensures |todo - {t}| < |todo|
  {
    AppliedOne(reg, start, batch, todo, t);
    assert Elems([t]) == {t};
    JoinOrders(order, [t]);
    assert batch - (todo - {t}) == (batch - todo) + {t};
    Smaller(todo, {t});
  }

  /** Run one migration; removing a tag that is not there fails. */
  method Update(reg: Registry, t: Tag, start: set<Tag>) returns (ok: bool, tags: set<Tag>)
    requires t in reg
    ensures ok <==> reg[t].upgrades || t in start
    ensures ok ==> tags == Updated(reg, start, t)
    ensures ok ==> forall d :: d in tags <==> if d == t then reg[t].upgrades else d in start
  {
    if reg[t].upgrades {
      return true, start + {t};
    }
    if t !in start {
      return false, start;
    }
    return true, start - {t};
  }

  /**
   Apply one batch, in an order nobody chooses. No downgrade misses its tag, every member is applied
   once, and the tags end up the same whatever the order.
   */
  method ApplyBatch(reg: Registry, start: set<Tag>, batch: set<Tag>)
    returns (ok: bool, tags: set<Tag>, order: seq<Tag>)
    requires batch <= reg.Keys && batch * UntagSet(reg) <= start
    ensures ok && tags == Applied(reg, start, batch)
    ensures Distinct(order) && Elems(order) == batch
  {
    ok, tags, order := true, start, [];
    var todo := batch;
    while todo != {}
      invariant ok && BatchAt(reg, start, batch, todo, tags, order)
      decreases |todo|
    {
      var t :| t in todo;
      assert !reg[t].upgrades ==> t in batch * UntagSet(reg);
      BatchTurn(reg, start, batch, todo, tags, order, t);
      ok, tags := Update(reg, t, tags);
      if !ok {
        return;
      }
      order, todo := order + [t], todo - {t};
    }
    assert batch - todo == batch;
  }

  /** Every migration in `order` finds its dependencies among `start` or the migrations before it. */
  ghost predicate Ordered(reg: Registry, start: set<Tag>, order: seq<Tag>) {
    forall i :: 0 <= i < |order| ==> order[i] in reg && Ready(reg, order[i], start + Elems(order[..i]))
  }

  /** Every dependency of a migration in the list is in `start` or earlier in the list. */
  ghost predicate DependenciesEarlier(reg: Registry, start: set<Tag>, l: seq<Tag>) {
    forall i :: 0 <= i < |l| ==> l[i] in reg && forall d :: d in reg[l[i]].depends ==> d in start || d in l[..i]
  }

  lemma OrderedMeans(reg: Registry, start: set<Tag>, l: seq<Tag>)
    ensures Ordered(reg, start, l) <==> DependenciesEarlier(reg, start, l)
  {
    forall i | 0 <= i < |l| && l[i] in reg
      ensures Ready(reg, l[i], start + Elems(l[..i])) <==>
              forall d :: d in reg[l[i]].depends ==> d in start || d in l[..i]
    {
      ReadyMeans(reg, l[i], start, l[..i]);
    }
  }

  lemma ReadyMeans(reg: Registry, t: Tag, start: set<Tag>, l: seq<Tag>)
    requires t in reg
    ensures Ready(reg, t, start + Elems(l)) <==> forall d :: d in reg[t].depends ==> d in start || d in l
  {
    if Ready(reg, t, start + Elems(l)) {
      forall d | d in reg[t].depends
        ensures d in start || d in l
      {
        var k :| 0 <= k < |reg[t].depends| && reg[t].depends[k] == d;
      }
    }
  }

  /** The next batch, in any order, extends a listing as long as nothing is removed. */
  lemma OrderedBatch(reg: Registry, start: set<Tag>, order: seq<Tag>, batch: seq<Tag>)
    requires Ordered(reg, start, order)
    requires forall i :: 0 <= i < |batch| ==> batch[i] in reg && Ready(reg, batch[i], start + Elems(order))
    ensures Ordered(reg, start, order + batch)
  {
    var all := order + batch;
    forall i | 0 <= i < |all|
      ensures all[i] in reg && Ready(reg, all[i], start + Elems(all[..i]))
    {
      if i < |order| {
        assert all[..i] == order[..i];
      } else {
        assert all[..i] == order + batch[..i - |order|];
        assert Elems(order) <= Elems(all[..i]);
      }
    }
  }

  /** `t` has a dependency that is not among the tags. */
  ghost predicate Blocked(reg: Registry, t: Tag, tags: set<Tag>) {
    t in reg && exists d :: d in reg[t].depends && d !in tags
  }

  lemma NoneReady(reg: Registry, tags: set<Tag>, pending: set<Tag>)
    requires pending <= reg.Keys && ReadySet(reg, pending, tags) == {}
    ensures forall t :: t in pending ==> Blocked(reg, t, tags)
  {
    forall t | t in pending
      ensures Blocked(reg, t, tags)
    {
      assert t !in ReadySet(reg, pending, tags);
      var i :| 0 <= i < |reg[t].depends| && reg[t].depends[i] !in tags;
      assert reg[t].depends[i] in reg[t].depends;
    }
  }

  lemma AppliedTwice(reg: Registry, start: set<Tag>, a: set<Tag>, b: set<Tag>)
    requires a !! b
    ensures Applied(reg, Applied(reg, start, a), b) == Applied(reg, start, a + b)
  {
  }

  /**
   An abort names pending tags that were not applied, each with a dependency that is missing from the tags
   as they then are.
   */
  lemma {:induction false} StuckMeans(reg: Registry, tags: set<Tag>, pending: set<Tag>)
    requires pending <= reg.Keys && Solve(reg, tags, pending).Stuck?
    ensures var left := Solve(reg, tags, pending).pending;
            && left != {} && left <= pending
            && forall t :: t in left ==> Blocked(reg, t, Applied(reg, tags, pending - left))
    decreases |pending|
  {
    var batch := ReadySet(reg, pending, tags);
    var left := Solve(reg, tags, pending).pending;
    if batch == {} {
      NoneReady(reg, tags, pending);
      assert pending - left == {};
      assert Applied(reg, tags, {}) == tags;
    } else {
      Smaller(pending, batch);
      StuckMeans(reg, Applied(reg, tags, batch), pending - batch);
      AppliedTwice(reg, tags, batch, pending - batch - left);
      assert batch + (pending - batch - left) == pending - left;
    }
  }

  /**
   The whole worklist. Its outcome is a function of the registry and the checkpoint's tags, so it does
   not depend on the order of iteration. If it aborts, it names exactly the pending tags that were not
   applied, each of which lacks a dependency. No migration is applied twice or without being pending, and
   with no downgrade pending each one runs with all its dependencies present.
   */
  method ProcessFile(reg: Registry, start: set<Tag>) returns (r: Outcome, order: seq<Tag>)
    ensures r == Solve(reg, start, Pending(reg, start))
    ensures Distinct(order) && Elems(order) <= Pending(reg, start)
    ensures r.Migrated? ==> Elems(order) == Pending(reg, start)
    ensures r.Stuck? ==> r.pending == Pending(reg, start) - Elems(order) && r.pending != {}
    ensures !r.TagMissing?
    ensures UntagSet(reg) * start == {} ==> DependenciesEarlier(reg, start, order)
  {
    var tags := start;
    var toApply := Pending(reg, start);
    order := [];
    while toApply != {}
      invariant toApply <= Pending(reg, start)
      invariant Solve(reg, tags, toApply) == Solve(reg, start, Pending(reg, start))
      invariant toApply * UntagSet(reg) <= tags
      invariant Distinct(order) && Elems(order) == Pending(reg, start) - toApply
      invariant UntagSet(reg) * start == {} ==> tags == start + Elems(order) && Ordered(reg, start, order)
      decreases |toApply|
    {
      var batch := ComputeReady(reg, toApply, tags);
      if batch == {} {
        OrderedMeans(reg, start, order);
        return Stuck(toApply), order;
      }
      var ok, next, applied := ApplyBatch(reg, tags, batch);
      if !ok {
        return TagMissing, order;
      }
      BatchStep(reg, start, tags, toApply, batch, order, applied);
      order := order + applied;
      Smaller(toApply, batch);
      toApply, tags := toApply - batch, next;
    }
    OrderedMeans(reg, start, order);
    r := Migrated(tags);
  }

  lemma BatchStep(reg: Registry, start: set<Tag>, tags: set<Tag>, toApply: set<Tag>, batch: set<Tag>,
                  order: seq<Tag>, applied: seq<Tag>)
    requires toApply <= Pending(reg, start) && batch == ReadySet(reg, toApply, tags)
    requires toApply * UntagSet(reg) <= tags
    requires Distinct(order) && Elems(order) == Pending(reg, start) - toApply
    requires Distinct(applied) && Elems(applied) == batch
    requires UntagSet(reg) * start == {} ==> tags == start + Elems(order) && Ordered(reg, start, order)
    ensures Distinct(order + applied) && Elems(order + applied) == Pending(reg, start) - (toApply - batch)
    ensures (toApply - batch) * UntagSet(reg) <= Applied(reg, tags, batch)
    ensures UntagSet(reg) * start == {} ==>
              Applied(reg, tags, batch) == start + Elems(order + applied) && Ordered(reg, start, order + applied)
  {
    JoinOrders(order, applied);
    if UntagSet(reg) * start == {} {
      assert forall i :: 0 <= i < |applied| ==> applied[i] in batch;
      OrderedBatch(reg, start, order, applied);
      AllUpgrades(reg, start);
      assert batch * UntagSet(reg) == {} && batch * TagSet(reg) == batch;
    }
  }

  lemma AllUpgrades(reg: Registry, start: set<Tag>)
    requires UntagSet(reg) * start == {}
    ensures Pending(reg, start) <= TagSet(reg) && TagSet(reg) !! UntagSet(reg)
  {
  }

  // ---------------------------------------------------------------- what the outcome means

  lemma {:induction false} SolveTags(reg: Registry, tags: set<Tag>, pending: set<Tag>)
    requires pending <= reg.Keys && Solve(reg, tags, pending).Migrated?
    ensures Solve(reg, tags, pending).tags == Applied(reg, tags, pending)
    decreases |pending|
  {
    if pending == {} {
    } else {
      var batch := ReadySet(reg, pending, tags);
      Smaller(pending, batch);
      SolveTags(reg, Applied(reg, tags, batch), pending - batch);
    }
  }

  /**
   On success the checkpoint has exactly the old tags and all upgrade tags, less the downgrade tags, and
   a second run has nothing left to do.
   */
  lemma SuccessTags(reg: Registry, start: set<Tag>)
    requires Solve(reg, start, Pending(reg, start)).Migrated?
    ensures var tags := Solve(reg, start, Pending(reg, start)).tags;
            && tags == (start + TagSet(reg)) - UntagSet(reg)
            && Pending(reg, tags) == {}
  {
    SolveTags(reg, start, Pending(reg, start));
  }

  /** `l` lists `pending` with each dependency in `start` or earlier in the list. */
  ghost predicate Listing(reg: Registry, start: set<Tag>, pending: set<Tag>, l: seq<Tag>) {
    Distinct(l) && Elems(l) == pending && DependenciesEarlier(reg, start, l)
  }

  lemma AppliedUpgrades(reg: Registry, tags: set<Tag>, batch: set<Tag>)
    requires batch <= TagSet(reg)
    ensures Applied(reg, tags, batch) == tags + batch
  {
    assert batch * UntagSet(reg) == {} && batch * TagSet(reg) == batch;
  }

  /** As long as a listed tag is pending, the first pending one of the list is ready. */
  lemma ListingProgress(reg: Registry, start: set<Tag>, all: set<Tag>, l: seq<Tag>, pending: set<Tag>)
    requires pending <= all <= reg.Keys && pending != {} && Listing(reg, start, all, l)
    ensures ReadySet(reg, pending, start + (all - pending)) != {}
  {
    OrderedMeans(reg, start, l);
    var i := FirstPending(l, pending);
    assert Ready(reg, l[i], start + Elems(l[..i]));
    assert Elems(l[..i]) <= all - pending;
    assert l[i] in ReadySet(reg, pending, start + (all - pending));
  }

  lemma {:induction false} ListingSolves(reg: Registry, start: set<Tag>, all: set<Tag>, l: seq<Tag>, pending: set<Tag>)
    requires all <= TagSet(reg) && pending <= all
    requires Listing(reg, start, all, l)
    ensures Solve(reg, start + (all - pending), pending).Migrated?
    decreases |pending|
  {
    if pending == {} {
    } else {
      var tags := start + (all - pending);
      var batch := ReadySet(reg, pending, tags);
      ListingProgress(reg, start, all, l, pending);
      Smaller(pending, batch);
      AppliedUpgrades(reg, tags, batch);
      assert tags + batch == start + (all - (pending - batch));
      ListingSolves(reg, start, all, l, pending - batch);
    }
  }

  lemma FirstPending(l: seq<Tag>, pending: set<Tag>) returns (i: nat)
    requires pending != {} && pending <= Elems(l)
    ensures i < |l| && l[i] in pending && forall j :: 0 <= j < i ==> l[j] !in pending
  {
    var t :| t in pending;
    i := 0;
    while l[i] !in pending
      invariant i < |l| && forall j :: 0 <= j < i ==> l[j] !in pending
      invariant exists k :: i <= k < |l| && l[k] == t
      decreases |l| - i
    {
      i := i + 1;
    }
  }

  lemma {:induction false} SolveLists(reg: Registry, tags: set<Tag>, pending: set<Tag>) returns (l: seq<Tag>)
    requires pending <= TagSet(reg) && Solve(reg, tags, pending).Migrated?
    ensures Listing(reg, tags, pending, l)
    decreases |pending|
  {
    if pending == {} {
      l := [];
    } else {
      var batch := ReadySet(reg, pending, tags);
      Smaller(pending, batch);
      AppliedUpgrades(reg, tags, batch);
      var rest := SolveLists(reg, tags + batch, pending - batch);
      var first := SomeOrder(batch);
      l := first + rest;
      ListingPrepend(reg, tags, pending, first, rest);
    }
  }

  lemma ListingPrepend(reg: Registry, tags: set<Tag>, pending: set<Tag>, first: seq<Tag>, rest: seq<Tag>)
    requires pending <= reg.Keys && Distinct(first) && Elems(first) == ReadySet(reg, pending, tags)
    requires Listing(reg, tags + Elems(first), pending - Elems(first), rest)
    ensures Listing(reg, tags, pending, first + rest)
  {
    JoinOrders(first, rest);
    OrderedMeans(reg, tags + Elems(first), rest);
    assert forall i :: 0 <= i < |first| ==> first[i] in Elems(first);
    Prepend(reg, tags, first, rest);
    OrderedMeans(reg, tags, first + rest);
  }

  lemma Prepend(reg: Registry, tags: set<Tag>, first: seq<Tag>, rest: seq<Tag>)
    requires forall i :: 0 <= i < |first| ==> first[i] in reg && Ready(reg, first[i], tags)
    requires Ordered(reg, tags + Elems(first), rest)
    ensures Ordered(reg, tags, first + rest)
  {
    var l := first + rest;
    forall i | 0 <= i < |l|
      ensures l[i] in reg && Ready(reg, l[i], tags + Elems(l[..i]))
    {
      if i < |first| {
        assert Ready(reg, first[i], tags);
      } else {
        var k := i - |first|;
        assert l[..i] == first + rest[..k];
        assert tags + Elems(first) + Elems(rest[..k]) == tags + Elems(l[..i]);
        assert Ready(reg, rest[k], tags + Elems(first) + Elems(rest[..k]));
      }
    }
  }

  lemma {:induction false} SomeOrder(s: set<Tag>) returns (l: seq<Tag>)
    ensures Distinct(l) && Elems(l) == s
    decreases |s|
  {
    if s == {} {
      l := [];
    } else {
      var t :| t in s;
      Smaller(s, {t});
      l := SomeOrder(s - {t});
      assert Elems([t]) == {t};
      JoinOrders(l, [t]);
      l := l + [t];
    }
  }

  /**
   With no downgrade pending, the worklist succeeds exactly when the pending tags can be listed so that
   each one's dependencies come from the checkpoint or from earlier in the list.
   */
  lemma SucceedsExactlyWhenOrderable(reg: Registry, start: set<Tag>)
    requires UntagSet(reg) * start == {}
    ensures Solve(reg, start, Pending(reg, start)).Migrated? <==>
              exists l :: Listing(reg, start, Pending(reg, start), l)
  {
    var pending := Pending(reg, start);
    AllUpgrades(reg, start);
    if Solve(reg, start, pending).Migrated? {
      var l := SolveLists(reg, start, pending);
    }
    if l :| Listing(reg, start, pending, l) {
      assert start + (pending - pending) == start;
      ListingSolves(reg, start, pending, l, pending);
    }
  }

  // ---------------------------------------------------------------- success with downgrades

  /** Pending upgrades are absent, pending downgrades present. */
  ghost predicate Underway(reg: Registry, tags: set<Tag>, pending: set<Tag>) {
    pending <= reg.Keys && forall t | t in pending :: t in tags <==> !reg[t].upgrades
  }

  /**
   What `t` asks of its dependency `d`: a pending upgrade ranks below it, a pending downgrade does not, and
   anything else is in the checkpoint.
   */
  ghost predicate DependencyRanked(reg: Registry, tags: set<Tag>, rank: map<Tag, nat>, t: Tag, d: Tag)
    requires t in rank && rank.Keys <= reg.Keys
  {
    if d in rank then (if reg[d].upgrades then rank[d] < rank[t] else rank[t] <= rank[d]) else d in tags
  }

  /** `t` ranks 0, or directly above one of the pending upgrades it depends on. */
  ghost predicate RankTight(reg: Registry, rank: map<Tag, nat>, t: Tag)
    requires t in rank && rank.Keys <= reg.Keys
  {
    rank[t] == 0 || exists d :: d in reg[t].depends && d in rank && reg[d].upgrades && rank[d] + 1 == rank[t]
  }

  /** A rank for every pending tag: the length of its longest chain of pending upgrades. */
  ghost predicate Ranked(reg: Registry, tags: set<Tag>, pending: set<Tag>, rank: map<Tag, nat>) {
    && rank.Keys == pending && pending <= reg.Keys
    && (forall t, d | t in pending && d in reg[t].depends :: DependencyRanked(reg, tags, rank, t, d))
    && (forall t | t in pending :: RankTight(reg, rank, t))
  }

  lemma UnderwayNext(reg: Registry, tags: set<Tag>, pending: set<Tag>, batch: set<Tag>)
    requires Underway(reg, tags, pending) && batch <= pending
    ensures Underway(reg, Applied(reg, tags, batch), pending - batch)
  {
  }

  lemma UnderwayAtStart(reg: Registry, start: set<Tag>)
    ensures Underway(reg, start, Pending(reg, start))
  {
  }

  /** The first batch is exactly what ranks 0. */
  lemma RankZeroIsReady(reg: Registry, tags: set<Tag>, pending: set<Tag>, rank: map<Tag, nat>, t: Tag)
    requires Underway(reg, tags, pending) && Ranked(reg, tags, pending, rank) && t in pending
    ensures Ready(reg, t, tags) <==> rank[t] == 0
  {
    assert RankTight(reg, rank, t);
    if rank[t] == 0 {
      forall k | 0 <= k < |reg[t].depends|
        ensures reg[t].depends[k] in tags
      {
        assert DependencyRanked(reg, tags, rank, t, reg[t].depends[k]);
      }
    } else {
      var d :| d in reg[t].depends && d in rank && reg[d].upgrades && rank[d] + 1 == rank[t];
      var k :| 0 <= k < |reg[t].depends| && reg[t].depends[k] == d;
      assert d !in tags;
    }
  }

  lemma {:induction false} SomeRanksZero(reg: Registry, tags: set<Tag>, pending: set<Tag>, rank: map<Tag, nat>, t: Tag)
    returns (z: Tag)
    requires Ranked(reg, tags, pending, rank) && t in pending
    ensures z in pending && rank[z] == 0
    decreases rank[t]
  {
    if rank[t] == 0 {
      z := t;
    } else {
      assert RankTight(reg, rank, t);
      var d :| d in reg[t].depends && d in rank && reg[d].upgrades && rank[d] + 1 == rank[t];
      z := SomeRanksZero(reg, tags, pending, rank, d);
    }
  }

  ghost function RankDown(rank: map<Tag, nat>): map<Tag, nat> {
    map t | t in rank && rank[t] > 0 :: rank[t] - 1
  }

  /** Applying what ranks 0 leaves the rest ranked, one lower. */
  lemma RankedNext(reg: Registry, tags: set<Tag>, pending: set<Tag>, rank: map<Tag, nat>, batch: set<Tag>)
    requires Underway(reg, tags, pending) && Ranked(reg, tags, pending, rank)
    requires batch == set t | t in pending && rank[t] == 0
    ensures Ranked(reg, Applied(reg, tags, batch), pending - batch, RankDown(rank))
  {
    var tags', rank' := Applied(reg, tags, batch), RankDown(rank);
    assert rank'.Keys == pending - batch;
    forall t, d | t in pending - batch && d in reg[t].depends
      ensures DependencyRanked(reg, tags', rank', t, d)
    {
      assert DependencyRanked(reg, tags, rank, t, d);
    }
    forall t | t in pending - batch
      ensures RankTight(reg, rank', t)
    {
      assert RankTight(reg, rank, t);
      var d :| d in reg[t].depends && d in rank && reg[d].upgrades && rank[d] + 1 == rank[t];
      if rank[t] > 1 {
        assert d in rank' && rank'[d] + 1 == rank'[t];
      }
    }
  }

  lemma FirstBatch(reg: Registry, tags: set<Tag>, pending: set<Tag>, rank: map<Tag, nat>)
    requires Underway(reg, tags, pending) && Ranked(reg, tags, pending, rank) && pending != {}
    ensures ReadySet(reg, pending, tags) == (set t | t in pending && rank[t] == 0) != {}
  {
    forall t | t in pending
      ensures Ready(reg, t, tags) <==> rank[t] == 0
    {
      RankZeroIsReady(reg, tags, pending, rank, t);
    }
    var t :| t in pending;
    var z := SomeRanksZero(reg, tags, pending, rank, t);
    assert z in ReadySet(reg, pending, tags);
  }

  lemma {:induction false} RankedSolves(reg: Registry, tags: set<Tag>, pending: set<Tag>, rank: map<Tag, nat>)
    requires Underway(reg, tags, pending) && Ranked(reg, tags, pending, rank)
    ensures Solve(reg, tags, pending).Migrated?
    decreases |pending|
  {
    if pending == {} {
    } else {
      var batch := ReadySet(reg, pending, tags);
      FirstBatch(reg, tags, pending, rank);
      Smaller(pending, batch);
      RankedNext(reg, tags, pending, rank, batch);
      UnderwayNext(reg, tags, pending, batch);
      RankedSolves(reg, Applied(reg, tags, batch), pending - batch, RankDown(rank));
    }
  }

  ghost function RankUp(pending: set<Tag>, rank: map<Tag, nat>): map<Tag, nat> {
    map t | t in pending :: if t in rank then rank[t] + 1 else 0
  }

  /** Putting a ready batch below the ranks of the rest. */
  lemma RankedBefore(reg: Registry, tags: set<Tag>, pending: set<Tag>, batch: set<Tag>, rank: map<Tag, nat>)
    requires Underway(reg, tags, pending) && batch == ReadySet(reg, pending, tags)
    requires Ranked(reg, Applied(reg, tags, batch), pending - batch, rank)
    ensures Ranked(reg, tags, pending, RankUp(pending, rank))
  {
    var rank' := RankUp(pending, rank);
    forall t, d | t in pending && d in reg[t].depends
      ensures DependencyRanked(reg, tags, rank', t, d)
    {
      if t in batch {
        var k :| 0 <= k < |reg[t].depends| && reg[t].depends[k] == d;
        assert d in tags;
      } else {
        assert DependencyRanked(reg, Applied(reg, tags, batch), rank, t, d);
      }
    }
    forall t | t in pending
      ensures RankTight(reg, rank', t)
    {
      if t !in batch {
        BatchBlocks(reg, tags, pending, batch, rank, t);
      }
    }
  }

  /** What was not ready before a batch depends on something the batch, or a later one, added. */
  lemma BatchBlocks(reg: Registry, tags: set<Tag>, pending: set<Tag>, batch: set<Tag>, rank: map<Tag, nat>, t: Tag)
    requires Underway(reg, tags, pending) && batch == ReadySet(reg, pending, tags) && t in pending - batch
    requires Ranked(reg, Applied(reg, tags, batch), pending - batch, rank)
    ensures RankTight(reg, RankUp(pending, rank), t)
  {
    var rank' := RankUp(pending, rank);
    assert RankTight(reg, rank, t);
    if rank[t] == 0 {
      UnderwayNext(reg, tags, pending, batch);
      RankZeroIsReady(reg, Applied(reg, tags, batch), pending - batch, rank, t);
      var k :| 0 <= k < |reg[t].depends| && reg[t].depends[k] !in tags;
      var d := reg[t].depends[k];
      assert d in Applied(reg, tags, batch) && d in batch && reg[d].upgrades;
      assert d in reg[t].depends && d in rank' && rank'[d] + 1 == rank'[t];
    } else {
      var d :| d in reg[t].depends && d in rank && reg[d].upgrades && rank[d] + 1 == rank[t];
      assert d in rank' && rank'[d] + 1 == rank'[t];
    }
  }

  lemma {:induction false} SolveRanks(reg: Registry, tags: set<Tag>, pending: set<Tag>) returns (rank: map<Tag, nat>)
    requires Underway(reg, tags, pending) && Solve(reg, tags, pending).Migrated?
    ensures Ranked(reg, tags, pending, rank)
    decreases |pending|
  {
    if pending == {} {
      rank := map[];
    } else {
      var batch := ReadySet(reg, pending, tags);
      Smaller(pending, batch);
      UnderwayNext(reg, tags, pending, batch);
      rank := SolveRanks(reg, Applied(reg, tags, batch), pending - batch);
      RankedBefore(reg, tags, pending, batch, rank);
      rank := RankUp(pending, rank);
    }
  }

  /**
   For every registry and checkpoint, downgrades or not: the worklist succeeds exactly when the pending tags
   can be ranked by their longest chain of pending upgrades, with every other dependency in the checkpoint
   and no downgraded dependency ranked below the migration that needs it.
   */
  lemma SucceedsExactlyWhenRanked(reg: Registry, start: set<Tag>)
    ensures Solve(reg, start, Pending(reg, start)).Migrated? <==>
              exists rank :: Ranked(reg, start, Pending(reg, start), rank)
  {
    var pending := Pending(reg, start);
    UnderwayAtStart(reg, start);
    if Solve(reg, start, pending).Migrated? {
      var rank := SolveRanks(reg, start, pending);
    }
    if rank :| Ranked(reg, start, pending, rank) {
      RankedSolves(reg, start, pending, rank);
    }
  }

  /**
   Depending on a downgraded tag does not mean waiting for its removal, as the description of the
   script has it. Once that tag is gone, a pending migration that depends on it can never run.
   */
  lemma {:induction false} RemovedDependencyNeverMet(reg: Registry, tags: set<Tag>, pending: set<Tag>, t: Tag, d: Tag)
    requires pending <= reg.Keys && t in pending && d in reg[t].depends
    requires d !in TagSet(reg) && d !in tags
    ensures Solve(reg, tags, pending).Stuck?
    decreases |pending|
  {
    var batch := ReadySet(reg, pending, tags);
    assert t !in batch;
    if batch == {} {
    } else {
      Smaller(pending, batch);
      RemovedDependencyNeverMet(reg, Applied(reg, tags, batch), pending - batch, t, d);
    }
  }

  /**
   Ranks that are not tight do not do: "t" depends on the upgrade "u" and the downgrade "d", which could both
   wait for each other, but "d" is ready at once and gone when "u" is there.
   */
  lemma LooseRanksDoNotSuffice() returns (reg: Registry, start: set<Tag>, rank: map<Tag, nat>)
    ensures rank.Keys == Pending(reg, start) <= reg.Keys
    ensures forall t, d | t in rank && d in reg[t].depends :: DependencyRanked(reg, start, rank, t, d)
    ensures Solve(reg, start, Pending(reg, start)).Stuck?
  {
    var u, d, t := "u", "d", "t";
    assert u[0] != d[0] && d[0] != t[0] && u[0] != t[0];
    reg, start, rank := StuckThough(u, d, t);
  }

  lemma StuckThough(u: Tag, d: Tag, t: Tag) returns (reg: Registry, start: set<Tag>, rank: map<Tag, nat>)
    requires u != d && d != t && u != t
    ensures rank.Keys == Pending(reg, start) <= reg.Keys
    ensures forall x, y | x in rank && y in reg[x].depends :: DependencyRanked(reg, start, rank, x, y)
    ensures Solve(reg, start, Pending(reg, start)).Stuck?
  {
    reg := map[u := Upgrader([], [], true), d := Upgrader([], [], false), t := Upgrader([u, d], [], true)];
    start := {d};
    rank := map[u := 0, d := 1, t := 1];
    var pending := Pending(reg, start);
    assert pending == {u, d, t};
    var batch := ReadySet(reg, pending, start);
    assert reg[t].depends[0] == u && reg[t].depends[1] == d;
    assert batch == {u, d};
    StuckAfter(reg, start, pending, batch, t, d);
  }

  lemma StuckAfter(reg: Registry, tags: set<Tag>, pending: set<Tag>, batch: set<Tag>, t: Tag, d: Tag)
    requires pending <= reg.Keys && batch == ReadySet(reg, pending, tags) && t in pending - batch
    requires d in batch && !reg[d].upgrades && d in reg[t].depends
    ensures Solve(reg, tags, pending).Stuck?
  {
    Smaller(pending, batch);
    RemovedDependencyNeverMet(reg, Applied(reg, tags, batch), pending - batch, t, d);
  }

  // ---------------------------------------------------------------- dependencies inside a batch

  /** Applied in `order`, every member of the batch still finds its dependencies when its turn comes. */
  ghost predicate RunsReady(reg: Registry, tags: set<Tag>, order: seq<Tag>) {
    forall i :: 0 <= i < |order| ==> order[i] in reg && Ready(reg, order[i], Applied(reg, tags, Elems(order[..i])))
  }

  /** Nobody in the batch depends on another member that the batch removes. */
  ghost predicate NeedsNoRemoved(reg: Registry, batch: set<Tag>)
    requires batch <= reg.Keys
  {
    forall t, d :: t in batch && d in batch && d != t && !reg[d].upgrades ==> d !in reg[t].depends
  }

  /**
   A ready batch may be iterated in any order with all dependencies present exactly when no member
   depends on another one that is a downgrade.
   */
  lemma AnyOrderRunsReadyExactlyWhen(reg: Registry, tags: set<Tag>, pending: set<Tag>)
    requires pending <= reg.Keys
    ensures var batch := ReadySet(reg, pending, tags);
            (forall order :: Distinct(order) && Elems(order) == batch ==> RunsReady(reg, tags, order)) <==>
            NeedsNoRemoved(reg, batch)
  {
    var batch := ReadySet(reg, pending, tags);
    if NeedsNoRemoved(reg, batch) {
      forall order | Distinct(order) && Elems(order) == batch
        ensures RunsReady(reg, tags, order)
      {
        SafeOrder(reg, tags, pending, order);
      }
    } else {
      var t, d :| t in batch && d in batch && d != t && !reg[d].upgrades && d in reg[t].depends;
      var order := UnsafeOrder(reg, tags, batch, t, d);
    }
  }

  lemma SafeOrder(reg: Registry, tags: set<Tag>, pending: set<Tag>, order: seq<Tag>)
    requires pending <= reg.Keys && Distinct(order) && Elems(order) == ReadySet(reg, pending, tags)
    requires NeedsNoRemoved(reg, ReadySet(reg, pending, tags))
    ensures RunsReady(reg, tags, order)
  {
    forall i | 0 <= i < |order|
      ensures order[i] in reg && Ready(reg, order[i], Applied(reg, tags, Elems(order[..i])))
    {
      var t := order[i];
      assert t in Elems(order);
      forall k | 0 <= k < |reg[t].depends|
        ensures reg[t].depends[k] in Applied(reg, tags, Elems(order[..i]))
      {
        var d := reg[t].depends[k];
        if d in Elems(order[..i]) {
          var j :| 0 <= j < i && order[j] == d;
          assert d in Elems(order) && d != t;
        }
      }
    }
  }

  lemma UnsafeOrder(reg: Registry, tags: set<Tag>, batch: set<Tag>, t: Tag, d: Tag) returns (order: seq<Tag>)
    requires batch <= reg.Keys && t in batch && d in batch && d != t && !reg[d].upgrades && d in reg[t].depends
    ensures Distinct(order) && Elems(order) == batch && !RunsReady(reg, tags, order)
  {
    var rest := SomeOrder(batch - {t, d});
    assert Elems([d, t]) == {d, t};
    JoinOrders([d, t], rest);
    order := [d, t] + rest;
    assert order[..1] == [d] && Elems([d]) == {d};
    assert d !in Applied(reg, tags, Elems(order[..1]));
    var k :| 0 <= k < |reg[t].depends| && reg[t].depends[k] == d;
    assert order[1] == t && !Ready(reg, order[1], Applied(reg, tags, Elems(order[..1])));
  }

  // ---------------------------------------------------------------- resolving dependencies

  datatype Loaded = Resolved(reg: Registry) | NoSuchTag(tag: Tag)

  /** Every dependency of `t`, forward or not, names a migration that exists. */
  ghost predicate NamesExist(reg: Registry, t: Tag)
    requires t in reg
  {
    Elems(reg[t].depends) <= reg.Keys && Elems(reg[t].fwdDepends) <= reg.Keys
  }

  /** The tags that name `t` as a forward dependency. */
  ghost function Forwarders(reg: Registry, among: set<Tag>, t: Tag): set<Tag> {
    set x | x in among && x in reg && t in reg[x].fwdDepends
  }

  /** The entry of `t` in `now` is that of `reg` with `extra` dependencies. */
  ghost predicate Extended(reg: Registry, now: Registry, t: Tag, extra: set<Tag>)
    requires t in reg && t in now
  {
    && now[t].upgrades == reg[t].upgrades && now[t].fwdDepends == reg[t].fwdDepends
    && Elems(now[t].depends) == Elems(reg[t].depends) + extra
  }

  /** `now` is `reg` with the forward dependencies of `among` turned round. */
  ghost predicate TurnedRound(reg: Registry, among: set<Tag>, now: Registry) {
    now.Keys == reg.Keys && forall t | t in reg :: Extended(reg, now, t, Forwarders(reg, among, t))
  }

  lemma ElemsSnoc(l: seq<Tag>, i: nat)
    requires Distinct(l) && i < |l|
    ensures Elems(l[..i + 1]) == Elems(l[..i]) + {l[i]} && l[i] !in Elems(l[..i])
    ensures l[i] in Elems(l)
  {
  }

  /**
   Resolve forward dependencies and audit all of them, visiting the migrations in any order. It succeeds
   exactly when every name exists, and then each migration depends on its own dependencies and on
   everything that named it.
   */
  method LoadAll(reg: Registry, order: seq<Tag>) returns (r: Loaded)
    requires Distinct(order) && Elems(order) == reg.Keys
    ensures r.Resolved? <==> forall t | t in reg :: NamesExist(reg, t)
    ensures r.Resolved? ==> TurnedRound(reg, reg.Keys, r.reg)
    ensures r.NoSuchTag? ==> r.tag in reg && !NamesExist(reg, r.tag)
  {
    var now := reg;
    ghost var done: set<Tag> := {};
    assert TurnedRound(reg, {}, now) by {
      assert forall t | t in reg :: Forwarders(reg, {}, t) == {};
    }
    for i := 0 to |order|
      invariant done == Elems(order[..i]) && done <= reg.Keys
      invariant TurnedRound(reg, done, now)
      invariant forall t | t in done :: NamesExist(reg, t)
    {
      var t := order[i];
      ElemsSnoc(order, i);
      var ok, next := TurnRound(reg, done, now, t);
      if !ok {
        return NoSuchTag(t);
      }
      now, done := next, done + {t};
    }
    assert order[..|order|] == order;
    r := Resolved(now);
  }

  /** One turn of the loop: the forward dependencies of `t`, then the audit of its own. */
  method TurnRound(reg: Registry, ghost done: set<Tag>, now: Registry, t: Tag) returns (ok: bool, next: Registry)
    requires TurnedRound(reg, done, now) && t in reg && t !in done && done <= reg.Keys
    ensures ok <==> NamesExist(reg, t)
    ensures ok ==> TurnedRound(reg, done + {t}, next)
  {
    assert Extended(reg, now, t, Forwarders(reg, done, t));
    ok, next := AppendTo(now, now[t].fwdDepends, t);
    if ok {
      TurnStep(reg, done, now, next, t);
      assert Extended(reg, next, t, Forwarders(reg, done + {t}, t));
      assert Forwarders(reg, done + {t}, t) <= reg.Keys;
      ok := Audit(next, t);
    }
  }

  lemma TurnStep(reg: Registry, done: set<Tag>, now: Registry, next: Registry, t: Tag)
    requires TurnedRound(reg, done, now) && t in reg && next.Keys == reg.Keys
    requires now[t].fwdDepends == reg[t].fwdDepends
    requires forall x | x in now :: Extended(now, next, x, if x in now[t].fwdDepends then {t} else {})
    ensures TurnedRound(reg, done + {t}, next)
  {
    forall x | x in reg
      ensures Extended(reg, next, x, Forwarders(reg, done + {t}, x))
    {
      var more := if x in reg[t].fwdDepends then {t} else {};
      assert Extended(reg, now, x, Forwarders(reg, done, x));
      assert Extended(now, next, x, more);
      ExtendedTwice(reg, now, next, x, Forwarders(reg, done, x), more);
      MoreForwarders(reg, done, t, x);
    }
  }

  lemma ExtendedTwice(reg: Registry, now: Registry, next: Registry, x: Tag, a: set<Tag>, b: set<Tag>)
    requires x in reg && x in now && x in next && Extended(reg, now, x, a) && Extended(now, next, x, b)
    ensures Extended(reg, next, x, a + b)
  {
  }

  lemma MoreForwarders(reg: Registry, done: set<Tag>, t: Tag, x: Tag)
    requires t in reg
    ensures Forwarders(reg, done + {t}, x) == Forwarders(reg, done, x) + if x in reg[t].fwdDepends then {t} else {}
  {
  }

  /** Append `t` to the dependencies of every tag in `fwd`, if they all exist. */
  method AppendTo(now: Registry, fwd: seq<Tag>, t: Tag) returns (ok: bool, next: Registry)
    ensures ok <==> Elems(fwd) <= now.Keys
    ensures ok ==> next.Keys == now.Keys
    ensures ok ==> forall x | x in now :: Extended(now, next, x, if x in fwd then {t} else {})
  {
    next := now;
    for k := 0 to |fwd|
      invariant next.Keys == now.Keys && Elems(fwd[..k]) <= now.Keys
      invariant forall x | x in now :: Extended(now, next, x, if x in fwd[..k] then {t} else {})
    {
      var fd := fwd[k];
      if fd !in next {
        assert fd in Elems(fwd);
        return false, next;
      }
      var before := next;
      next := next[fd := next[fd].(depends := next[fd].depends + [t])];
      forall x | x in now
        ensures Extended(now, next, x, if x in fwd[..k + 1] then {t} else {})
      {
        assert Extended(now, before, x, if x in fwd[..k] then {t} else {});
        assert fwd[..k + 1] == fwd[..k] + [fd];
        assert Elems(before[fd].depends + [t]) == Elems(before[fd].depends) + {t};
      }
    }
    assert fwd[..|fwd|] == fwd;
    ok := true;
  }

  method Audit(reg: Registry, t: Tag) returns (ok: bool)
    requires t in reg
    ensures ok <==> Elems(reg[t].depends) <= reg.Keys
  {
    for k := 0 to |reg[t].depends|
      invariant forall j :: 0 <= j < k ==> reg[t].depends[j] in reg.Keys
    {
      if reg[t].depends[k] !in reg {
        assert reg[t].depends[k] in Elems(reg[t].depends);
        return false;
      }
    }
    return true;
  }
}
