/**
 The pipeline viewer around its print queue: reading a trace, queueing an instruction at each retire
 event, flushing at the thresholds and at the end, and printing what lies within the bounds.
 */
module PipeViewer {
  import opened ReorderQueue

  /** Zero means no bound. */
  datatype Bounds = Bounds(snStart: nat, snStop: nat, tickStart: nat, tickStop: nat, onlyCommitted: bool)

  /** A trace line: a pipeline event, or a line of something else. */
  datatype Event = Fetch(tick: nat, sn: nat) | Retire(tick: nat) | Stage(tick: nat) | Noise

  predicate Keep(b: Bounds, x: Inst) {
    && !(b.snStart > 0 && x.sn < b.snStart)
    && !(b.snStop > 0 && x.sn > b.snStop)
    && !(b.tickStart > 0 && x.fetch < b.tickStart)
    && !(b.tickStop > 0 && x.fetch > b.tickStop)
    && !(b.onlyCommitted && x.retire == 0)
  }

  function Kept(b: Bounds, s: seq<Inst>): seq<Inst> {
    if s == [] then []
    else Kept(b, s[..|s| - 1]) + if Keep(b, s[|s| - 1]) then [s[|s| - 1]] else []
  }

  /** Filtering keeps exactly the instructions within bounds, each as often as it was there. */
  lemma {:induction false} KeptCounts(b: Bounds, s: seq<Inst>)
    ensures forall x :: multiset(Kept(b, s))[x] ==
              if && (b.snStart == 0 || b.snStart <= x.sn) && (b.snStop == 0 || x.sn <= b.snStop)
                 && (b.tickStart == 0 || b.tickStart <= x.fetch) && (b.tickStop == 0 || x.fetch <= b.tickStop)
                 && (b.onlyCommitted ==> x.retire != 0)
              then multiset(s)[x] else 0
  {
    if s == [] {
    } else {
      KeptCounts(b, s[..|s| - 1]);
      MultisetSnoc(s);
    }
  }

  lemma {:induction false} KeptInOrder(b: Bounds, s: seq<Inst>, bound: nat)
    requires Sorted(s)
    ensures Sorted(Kept(b, s))
    ensures AtMost(s, bound) ==> AtMost(Kept(b, s), bound)
  {
    if s == [] {
    } else {
      var n := |s| - 1;
      KeptInOrder(b, s[..n], bound);
      KeptInOrder(b, s[..n], s[n].sn);
    }
  }

  // ---------------------------------------------------------------- what a trace queues

  predicate Begins(b: Bounds, e: Event) {
    if b.tickStart != 0 then !e.Noise? && e.tick >= b.tickStart
    else if b.snStart != 0 then e.Fetch? && e.sn >= b.snStart
    else true
  }

  /** `f` is the first line that meets the start bound, or the length. */
  ghost predicate FirstBegin(b: Bounds, trace: seq<Event>, f: nat) {
    f <= |trace| && (f < |trace| ==> Begins(b, trace[f])) && forall j :: 0 <= j < f ==> !Begins(b, trace[j])
  }

  /** `i` is the first fetch at or after line `f`, or the length. */
  ghost predicate FirstFetch(trace: seq<Event>, f: nat, i: nat) {
    f <= i <= |trace| && (i < |trace| ==> trace[i].Fetch?) && forall j :: f <= j < i ==> !trace[j].Fetch?
  }

  /** The line at which the viewer starts to follow instructions. */
  ghost predicate IsStart(b: Bounds, trace: seq<Event>, i: nat) {
    exists f :: FirstBegin(b, trace, f) && FirstFetch(trace, f, i)
  }

  lemma StartExists(b: Bounds, trace: seq<Event>)
    ensures exists i: nat :: IsStart(b, trace, i)
  {
    var f := 0;
    while f < |trace| && !Begins(b, trace[f])
      invariant f <= |trace| && forall j :: 0 <= j < f ==> !Begins(b, trace[j])
    {
      f := f + 1;
    }
    var i := f;
    while i < |trace| && !trace[i].Fetch?
      invariant f <= i <= |trace| && forall j :: f <= j < i ==> !trace[j].Fetch?
    {
      i := i + 1;
    }
    assert FirstBegin(b, trace, f) && FirstFetch(trace, f, i);
    assert IsStart(b, trace, i);
  }

  lemma StartIsUnique(b: Bounds, trace: seq<Event>, i: nat, k: nat)
    requires IsStart(b, trace, i) && IsStart(b, trace, k)
    ensures i == k
  {
    var f :| FirstBegin(b, trace, f) && FirstFetch(trace, f, i);
    var h :| FirstBegin(b, trace, h) && FirstFetch(trace, h, k);
    assert f == h;
  }

  ghost function Start(b: Bounds, trace: seq<Event>): (i: nat)
    ensures IsStart(b, trace, i) && i <= |trace|
  {
    StartExists(b, trace);
    var i: nat :| IsStart(b, trace, i);
    i
  }

  predicate Stops(b: Bounds, drift: nat, maxT: nat, e: Event)
    requires e.Fetch?
  {
    (b.tickStop > 0 && e.tick > b.tickStop + drift) || (b.snStop > 0 && e.sn > b.snStop + maxT)
  }

  /** The instruction being assembled after one more line. */
  function Noted(e: Event, curr: Inst): Inst {
    match e
    case Fetch(tick, sn) => curr.(fetch := tick, sn := sn)
    case Retire(tick) => curr.(retire := tick)
    case _ => curr
  }

  /** The instructions queued from line `i` on, while `curr` is being assembled. */
  function Queued(b: Bounds, drift: nat, maxT: nat, trace: seq<Event>, i: nat, curr: Inst): seq<Inst>
    requires i <= |trace|
    decreases |trace| - i
  {
    if i == |trace| || (trace[i].Fetch? && Stops(b, drift, maxT, trace[i])) then []
    else
      var next := Noted(trace[i], curr);
      (if trace[i].Retire? then [next] else []) + Queued(b, drift, maxT, trace, i + 1, next)
  }

  /** What one more line adds to the instructions queued so far. */
  lemma QueuedTurn(b: Bounds, drift: nat, maxT: nat, trace: seq<Event>, i: nat, curr: Inst, done: seq<Inst>,
                   xs: seq<Inst>)
    requires i < |trace| && xs == done + Queued(b, drift, maxT, trace, i, curr)
    ensures if trace[i].Fetch? && Stops(b, drift, maxT, trace[i]) then xs == done
            else
              var next := Noted(trace[i], curr);
              xs == (if trace[i].Retire? then done + [next] else done) + Queued(b, drift, maxT, trace, i + 1, next)
  {
    if trace[i].Fetch? && Stops(b, drift, maxT, trace[i]) {
      assert done + [] == done;
    } else {
      var next := Noted(trace[i], curr);
      var more := Queued(b, drift, maxT, trace, i + 1, next);
      assert done + ([next] + more) == done + [next] + more;
      assert [] + more == more;
    }
  }

  ghost function QueuedByTrace(b: Bounds, drift: nat, maxT: nat, trace: seq<Event>): seq<Inst> {
    Queued(b, drift, maxT, trace, Start(b, trace), Inst(0, 0, 0))
  }

  /** Where the start is, by lines: nothing before `f` meets the start bound, and `f` does if it is a line. */
  lemma StartMeans(b: Bounds, trace: seq<Event>) returns (f: nat)
    ensures var i := Start(b, trace);
            && f <= i <= |trace|
            && (i < |trace| ==> trace[i].Fetch?) && (forall j :: f <= j < i ==> !trace[j].Fetch?)
            && (b.tickStart > 0 ==>
                  && (forall j :: 0 <= j < f ==> trace[j].Noise? || trace[j].tick < b.tickStart)
                  && (f < |trace| ==> !trace[f].Noise? && trace[f].tick >= b.tickStart))
            && (b.tickStart == 0 && b.snStart > 0 ==>
                  && (forall j :: 0 <= j < f ==> trace[j].Fetch? ==> trace[j].sn < b.snStart)
                  && (f < |trace| ==> trace[f].Fetch? && trace[f].sn >= b.snStart))
            && (b.tickStart == 0 && b.snStart == 0 ==> f == 0)
  {
    var i := Start(b, trace);
    assert IsStart(b, trace, i);
    f :| FirstBegin(b, trace, f) && FirstFetch(trace, f, i);
    assert f > 0 ==> !Begins(b, trace[0]);
  }

  /** `end` is the first fetch from line `i` on that lies beyond the stop bounds and their slack, or the length. */
  ghost predicate IsEnd(b: Bounds, drift: nat, maxT: nat, trace: seq<Event>, i: nat, end: nat) {
    && i <= end <= |trace|
    && (end < |trace| ==>
          && trace[end].Fetch?
          && (|| (b.tickStop > 0 && trace[end].tick > b.tickStop + drift)
              || (b.snStop > 0 && trace[end].sn > b.snStop + maxT)))
    && forall j :: i <= j < end && trace[j].Fetch? ==>
         && (b.tickStop > 0 ==> trace[j].tick <= b.tickStop + drift)
         && (b.snStop > 0 ==> trace[j].sn <= b.snStop + maxT)
  }

  /** `x` is the instruction that retires at line `r` and was fetched at `f`, the last fetch before it. */
  ghost predicate Lifetime(trace: seq<Event>, f: nat, r: nat, x: Inst) {
    && f < r < |trace| && trace[f].Fetch? && trace[r].Retire?
    && (forall j :: f < j < r ==> !trace[j].Fetch?)
    && x == Inst(trace[f].sn, trace[f].tick, trace[r].tick)
  }

  /** The lines `at` are the retire events from `i` up to `end`, in order. */
  ghost predicate RetireLines(trace: seq<Event>, i: nat, end: nat, at: seq<nat>)
    requires end <= |trace|
  {
    && (forall k, k' :: 0 <= k < k' < |at| ==> at[k] < at[k'])
    && (forall j: nat :: j in at <==> i <= j < end && trace[j].Retire?)
  }

  /** The instructions `xs` were fetched at `from` and retired at `at`, one by one. */
  ghost predicate Lifetimes(trace: seq<Event>, from: seq<nat>, at: seq<nat>, xs: seq<Inst>) {
    |from| == |at| == |xs| && forall k :: 0 <= k < |xs| ==> Lifetime(trace, from[k], at[k], xs[k])
  }

  lemma EndBefore(b: Bounds, drift: nat, maxT: nat, trace: seq<Event>, i: nat, end: nat)
    requires i < |trace| && IsEnd(b, drift, maxT, trace, i + 1, end)
    requires trace[i].Fetch? ==> !Stops(b, drift, maxT, trace[i])
    ensures IsEnd(b, drift, maxT, trace, i, end)
  {
  }

  lemma RetireBefore(trace: seq<Event>, i: nat, end: nat, at: seq<nat>)
    requires i < end <= |trace| && RetireLines(trace, i + 1, end, at)
    ensures RetireLines(trace, i, end, if trace[i].Retire? then [i] + at else at)
  {
    assert forall k :: 0 <= k < |at| ==> at[k] in at;
  }

  lemma LifetimesBefore(trace: seq<Event>, from: seq<nat>, at: seq<nat>, xs: seq<Inst>, f: nat, r: nat, x: Inst)
    requires Lifetimes(trace, from, at, xs) && Lifetime(trace, f, r, x)
    ensures Lifetimes(trace, [f] + from, [r] + at, [x] + xs)
  {
  }

  /** The same from a line behind the fetch at `f` of the instruction being assembled. */
  lemma {:induction false} QueuedMeans(b: Bounds, drift: nat, maxT: nat, trace: seq<Event>, i: nat, curr: Inst, f: nat)
    returns (from: seq<nat>, at: seq<nat>, end: nat)
    requires f < i <= |trace| && trace[f].Fetch? && (forall j :: f < j < i ==> !trace[j].Fetch?)
    requires curr.sn == trace[f].sn && curr.fetch == trace[f].tick
    ensures IsEnd(b, drift, maxT, trace, i, end) && RetireLines(trace, i, end, at)
    ensures Lifetimes(trace, from, at, Queued(b, drift, maxT, trace, i, curr))
    decreases |trace| - i
  {
    if i == |trace| || (trace[i].Fetch? && Stops(b, drift, maxT, trace[i])) {
      from, at, end := [], [], i;
    } else {
      var e, next := trace[i], Noted(trace[i], curr);
      var more := Queued(b, drift, maxT, trace, i + 1, next);
      from, at, end := QueuedMeans(b, drift, maxT, trace, i + 1, next, if e.Fetch? then i else f);
      EndBefore(b, drift, maxT, trace, i, end);
      RetireBefore(trace, i, end, at);
      if e.Retire? {
        LifetimesBefore(trace, from, at, more, f, i, next);
        from, at := [f] + from, [i] + at;
      } else {
        assert [] + more == more;
      }
    }
  }

  /**
   What a trace queues, by lines: the retire events from the start up to the first fetch beyond the stop
   bounds, in order, each with the fetch event last seen before it.
   */
  lemma TraceQueues(b: Bounds, drift: nat, maxT: nat, trace: seq<Event>)
    returns (from: seq<nat>, at: seq<nat>, end: nat)
    ensures IsEnd(b, drift, maxT, trace, Start(b, trace), end)
    ensures RetireLines(trace, Start(b, trace), end, at)
    ensures Lifetimes(trace, from, at, QueuedByTrace(b, drift, maxT, trace))
  {
    var i := Start(b, trace);
    if i == |trace| || Stops(b, drift, maxT, trace[i]) {
      from, at, end := [], [], i;
    } else {
      var first := Noted(trace[i], Inst(0, 0, 0));
      from, at, end := QueuedMeans(b, drift, maxT, trace, i + 1, first, i);
      EndBefore(b, drift, maxT, trace, i, end);
      RetireBefore(trace, i, end, at);
      assert [] + Queued(b, drift, maxT, trace, i + 1, first) == Queued(b, drift, maxT, trace, i + 1, first);
    }
  }

  /** What the last flush leaves printed. */
  lemma PrintedInOrder(xs: seq<Inst>, minT: nat, maxT: nat, b: Bounds)
    ensures Flush(EnqueueAll(xs, minT, maxT), 0) == Q([], Output(xs, minT, maxT))
    ensures var printed := Kept(b, Output(xs, minT, maxT));
            && (forall x :: multiset(printed)[x] ==
                  if && (b.snStart == 0 || b.snStart <= x.sn) && (b.snStop == 0 || x.sn <= b.snStop)
                     && (b.tickStart == 0 || b.tickStart <= x.fetch) && (b.tickStop == 0 || x.fetch <= b.tickStop)
                     && (b.onlyCommitted ==> x.retire != 0)
                  then multiset(xs)[x] else 0)
            && (DisplacedAtMost(xs, minT) ==> Sorted(printed) && printed == Kept(b, SortBySn(xs)))
  {
    OutputIsPermutation(xs, minT, maxT);
    KeptCounts(b, Output(xs, minT, maxT));
    if DisplacedAtMost(xs, minT) {
      OutputIsStableSort(xs, minT, maxT);
      KeptInOrder(b, Output(xs, minT, maxT), 0);
    }
  }

  class Viewer {
    const minT: nat
    const maxT: nat
    const bounds: Bounds
    var queue: seq<Inst>
    var printed: seq<Inst>
    /** Everything taken out of the queue, printed or not. */
    ghost var popped: seq<Inst>

    ghost predicate Valid()
      reads this
    {
      printed == Kept(bounds, popped)
    }

    ghost function State(): Q
      reads this
    {
      Q(queue, popped)
    }

    constructor (minThreshold: nat, maxThreshold: nat, b: Bounds)
      ensures Valid() && State() == Q([], [])
      ensures minT == minThreshold && maxT == maxThreshold && bounds == b
    {
      minT, maxT, bounds := minThreshold, maxThreshold, b;
      queue, printed, popped := [], [], [];
    }

    method PrintInsts(lower: nat)
      requires Valid()
      modifies this
      ensures Valid() && State() == Flush(old(State()), lower)
    {
      queue := SortBySn(queue);
      PopAndPrint(lower);
    }

    /** The loop of the print routine, on a queue already sorted. */
    method PopAndPrint(lower: nat)
      requires Valid()
      modifies this
      ensures Valid() && State() == PopDown(old(queue), old(popped), lower)
    {
      ghost var n := 0;
      while |queue| > lower
        invariant Valid() && n <= |old(queue)| && queue == old(queue)[n..]
        invariant popped == old(popped) + old(queue)[..n]
        invariant n > 0 ==> |queue| >= lower
      {
        var item := queue[0];
        queue := queue[1..];
        assert (popped + [item])[..|popped|] == popped;
        popped := popped + [item];
        n := n + 1;
        if !Keep(bounds, item) {
          continue;
        }
        printed := printed + [item];
      }
    }

    method QueueInst(inst: Inst)
      requires Valid()
      modifies this
      ensures Valid() && State() == Enqueue(old(State()), inst, minT, maxT)
    {
      queue := queue + [inst];
      if |queue| > maxT {
        PrintInsts(minT);
      }
    }

    /**
     A whole run: everything queued is popped, in the order of `Output`, and what lies within bounds is
     printed, each instruction once. If none is out of order by more than the lower threshold, it is
     printed as if the whole trace had been sorted by sequence number at once.
     */
    method ProcessTrace(trace: seq<Event>, drift: nat)
      requires Valid() && State() == Q([], [])
      modifies this
      ensures var xs := QueuedByTrace(bounds, drift, maxT, trace);
              && State() == Q([], Output(xs, minT, maxT))
              && printed == Kept(bounds, Output(xs, minT, maxT))
              && (forall x :: multiset(printed)[x] ==
                    if && (bounds.snStart == 0 || bounds.snStart <= x.sn)
                       && (bounds.snStop == 0 || x.sn <= bounds.snStop)
                       && (bounds.tickStart == 0 || bounds.tickStart <= x.fetch)
                       && (bounds.tickStop == 0 || x.fetch <= bounds.tickStop)
                       && (bounds.onlyCommitted ==> x.retire != 0)
                    then multiset(xs)[x] else 0)
              && (DisplacedAtMost(xs, minT) ==> Sorted(printed) && printed == Kept(bounds, SortBySn(xs)))
    {
      var i := FindStart(trace);
      FollowTrace(trace, i, drift);
      PrintInsts(0);
      PrintedInOrder(QueuedByTrace(bounds, drift, maxT, trace), minT, maxT, bounds);
    }

    /** The main loop, from the first line followed to the end of the trace or the stop rule. */
    method FollowTrace(trace: seq<Event>, start: nat, drift: nat)
      requires Valid() && State() == Q([], []) && start <= |trace|
      modifies this
      ensures Valid()
      ensures State() == EnqueueAll(Queued(bounds, drift, maxT, trace, start, Inst(0, 0, 0)), minT, maxT)
    {
      ghost var xs := Queued(bounds, drift, maxT, trace, start, Inst(0, 0, 0));
      var i := start;
      var curr := Inst(0, 0, 0);
      ghost var done: seq<Inst> := [];
      while i < |trace|
        invariant i <= |trace| && Valid() && State() == EnqueueAll(done, minT, maxT)
        invariant xs == done + Queued(bounds, drift, maxT, trace, i, curr)
      {
        QueuedTurn(bounds, drift, maxT, trace, i, curr, done, xs);
        if trace[i].Fetch? && Stops(bounds, drift, maxT, trace[i]) {
          return;
        }
        curr := Follow(trace[i], curr, done);
        done := if trace[i].Retire? then done + [curr] else done;
        i := i + 1;
      }
      assert xs == done;
    }

    /** One line that does not stop the run: note its tick, and queue the instruction when it retires. */
    method Follow(e: Event, curr: Inst, ghost done: seq<Inst>) returns (next: Inst)
      requires Valid() && State() == EnqueueAll(done, minT, maxT)
      modifies this
      ensures Valid() && next == Noted(e, curr)
      ensures State() == EnqueueAll(if e.Retire? then done + [next] else done, minT, maxT)
    {
      match e {
        case Fetch(tick, sn) =>
          next := curr.(fetch := tick, sn := sn);
        case Retire(tick) =>
          next := curr.(retire := tick);
          QueueInst(next);
          EnqueueAllSnoc(done, next, minT, maxT);
        case _ =>
          next := curr;
      }
    }

    /** The line to follow from: the first fetch at or after the first line that meets the start bound. */
    method FindStart(trace: seq<Event>) returns (i: nat)
      ensures IsStart(bounds, trace, i) && i == Start(bounds, trace)
    {
      i := 0;
      while i < |trace| && !Begins(bounds, trace[i])
        invariant i <= |trace| && forall j :: 0 <= j < i ==> !Begins(bounds, trace[j])
      {
        i := i + 1;
      }
      ghost var f := i;
      while i < |trace| && !trace[i].Fetch?
        invariant FirstBegin(bounds, trace, f) && f <= i <= |trace|
        invariant forall j :: f <= j < i ==> !trace[j].Fetch?
      {
        i := i + 1;
      }
      assert FirstFetch(trace, f, i);
      StartIsUnique(bounds, trace, i, Start(bounds, trace));
    }
  }

  lemma EnqueueAllSnoc(done: seq<Inst>, x: Inst, minT: nat, maxT: nat)
    ensures EnqueueAll(done + [x], minT, maxT) == Enqueue(EnqueueAll(done, minT, maxT), x, minT, maxT)
  {
    assert (done + [x])[..|done|] == done;
  }
}
