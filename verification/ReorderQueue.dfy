/**
 The pipeline viewer's print queue: instructions arrive out of order, and whenever the queue exceeds
 its upper threshold it is sorted and printed down to the lower one.
 */
module ReorderQueue {
  /** The fields of an instruction that decide where and whether it is printed. */
  datatype Inst = Inst(sn: nat, fetch: nat, retire: nat)

  // ---------------------------------------------------------------- sorting by sequence number

  ghost predicate Sorted(s: seq<Inst>) {
    forall i, j :: 0 <= i < j < |s| ==> s[i].sn <= s[j].sn
  }

  /** `x` placed behind everything that does not exceed it. */
  function Insert(s: seq<Inst>, x: Inst): (r: seq<Inst>)
    ensures |r| == |s| + 1
  {
    if s == [] || s[|s| - 1].sn <= x.sn then s + [x]
    else Insert(s[..|s| - 1], x) + [s[|s| - 1]]
  }

  /** The stable sort of the queue by sequence number. */
  function SortBySn(q: seq<Inst>): (r: seq<Inst>)
    ensures |r| == |q|
  {
    if q == [] then [] else Insert(SortBySn(q[..|q| - 1]), q[|q| - 1])
  }

  lemma {:induction false} InsertMultiset(s: seq<Inst>, x: Inst)
    ensures multiset(Insert(s, x)) == multiset(s) + multiset{x}
  {
    if s == [] || s[|s| - 1].sn <= x.sn {
    } else {
      InsertMultiset(s[..|s| - 1], x);
      assert s == s[..|s| - 1] + [s[|s| - 1]];
    }
  }

  lemma {:induction false} SortMultiset(q: seq<Inst>)
    ensures multiset(SortBySn(q)) == multiset(q)
  {
    if q == [] {
    } else {
      SortMultiset(q[..|q| - 1]);
      InsertMultiset(SortBySn(q[..|q| - 1]), q[|q| - 1]);
      assert q == q[..|q| - 1] + [q[|q| - 1]];
    }
  }

  ghost predicate AtMost(s: seq<Inst>, bound: nat) {
    forall i :: 0 <= i < |s| ==> s[i].sn <= bound
  }

  lemma {:induction false} InsertAtMost(s: seq<Inst>, x: Inst, bound: nat)
    requires AtMost(s, bound) && x.sn <= bound
    ensures AtMost(Insert(s, x), bound)
  {
    if s == [] || s[|s| - 1].sn <= x.sn {
    } else {
      InsertAtMost(s[..|s| - 1], x, bound);
    }
  }

  lemma {:induction false} InsertSorted(s: seq<Inst>, x: Inst)
    requires Sorted(s)
    ensures Sorted(Insert(s, x))
  {
    if s == [] || s[|s| - 1].sn <= x.sn {
    } else {
      var n := |s| - 1;
      InsertSorted(s[..n], x);
      InsertAtMost(s[..n], x, s[n].sn);
    }
  }

  function WithSn(s: seq<Inst>, k: nat): seq<Inst> {
    if s == [] then []
    else WithSn(s[..|s| - 1], k) + if s[|s| - 1].sn == k then [s[|s| - 1]] else []
  }

  lemma {:induction false} WithSnConcat(a: seq<Inst>, b: seq<Inst>, k: nat)
    ensures WithSn(a + b, k) == WithSn(a, k) + WithSn(b, k)
  {
    if b == [] {
      assert a + b == a;
    } else {
      var n := |b| - 1;
      assert (a + b)[..|a| + n] == a + b[..n];
      WithSnConcat(a, b[..n], k);
    }
  }

  lemma WithSnSnoc(s: seq<Inst>, k: nat)
    requires s != []
    ensures WithSn(s, k) == WithSn(s[..|s| - 1], k) + WithSn([s[|s| - 1]], k)
  {
    assert s == s[..|s| - 1] + [s[|s| - 1]];
    WithSnConcat(s[..|s| - 1], [s[|s| - 1]], k);
  }

  lemma {:induction false} InsertStable(s: seq<Inst>, x: Inst, k: nat)
    ensures WithSn(Insert(s, x), k) == WithSn(s, k) + WithSn([x], k)
  {
    if s == [] || s[|s| - 1].sn <= x.sn {
      WithSnConcat(s, [x], k);
    } else {
      var front, y := s[..|s| - 1], s[|s| - 1];
      calc {
        WithSn(Insert(s, x), k);
        WithSn(Insert(front, x) + [y], k);
        { WithSnConcat(Insert(front, x), [y], k); }
        WithSn(Insert(front, x), k) + WithSn([y], k);
        { InsertStable(front, x, k); }
        WithSn(front, k) + WithSn([x], k) + WithSn([y], k);
        { Apart(x, y, k); }
        WithSn(front, k) + (WithSn([y], k) + WithSn([x], k));
        WithSn(front, k) + WithSn([y], k) + WithSn([x], k);
        { WithSnSnoc(s, k); }
        WithSn(s, k) + WithSn([x], k);
      }
    }
  }

  /** Instructions of different sequence number are not both picked, so their order is no matter. */
  lemma Apart(x: Inst, y: Inst, k: nat)
    requires x.sn != y.sn
    ensures forall p :: p + WithSn([x], k) + WithSn([y], k) == p + (WithSn([y], k) + WithSn([x], k))
  {
    assert WithSn([x], k) == [] || WithSn([y], k) == [];
  }

  /** Sorting puts the queue in order and keeps the order of arrival among equal sequence numbers. */
  lemma {:induction false} SortIsStable(q: seq<Inst>, k: nat)
    ensures Sorted(SortBySn(q))
    ensures WithSn(SortBySn(q), k) == WithSn(q, k)
  {
    if q == [] {
    } else {
      var n := |q| - 1;
      SortIsStable(q[..n], k);
      var r := SortBySn(q[..n]);
      InsertSorted(r, q[n]);
      InsertStable(r, q[n], k);
      WithSnConcat(q[..n], [q[n]], k);
      assert q == q[..n] + [q[n]];
    }
  }

  // ---------------------------------------------------------------- the queue

  datatype Q = Q(queue: seq<Inst>, popped: seq<Inst>)

  /** Move the front of a queue out until `lower` instructions are left. */
  function PopDown(queue: seq<Inst>, popped: seq<Inst>, lower: nat): Q {
    if |queue| > lower then Q(queue[|queue| - lower..], popped + queue[..|queue| - lower]) else Q(queue, popped)
  }

  /** Sort the queue, then move its front out. */
  function Flush(q: Q, lower: nat): Q {
    PopDown(SortBySn(q.queue), q.popped, lower)
  }

  function Enqueue(q: Q, x: Inst, minT: nat, maxT: nat): Q {
    var q' := Q(q.queue + [x], q.popped);
    if |q'.queue| > maxT then Flush(q', minT) else q'
  }

  function EnqueueAll(xs: seq<Inst>, minT: nat, maxT: nat): Q {
    if xs == [] then Q([], []) else Enqueue(EnqueueAll(xs[..|xs| - 1], minT, maxT), xs[|xs| - 1], minT, maxT)
  }

  /** Everything popped over a whole run that queues `xs` and ends with a full flush. */
  function Output(xs: seq<Inst>, minT: nat, maxT: nat): seq<Inst> {
    Flush(EnqueueAll(xs, minT, maxT), 0).popped
  }

  lemma EnqueueLength(q: Q, x: Inst, minT: nat, maxT: nat)
    ensures var r := Enqueue(q, x, minT, maxT); var n := |q.queue| + 1;
            && |r.queue| == (if n <= maxT || n <= minT then n else minT)
            && |r.queue| + |r.popped| == n + |q.popped|
  {
  }

  /**
   How long the queue is after any number of arrivals, whatever they are: all of them up to the upper
   threshold, and from then on between the two thresholds. With the lower threshold above the upper one,
   the lower one alone counts.
   */
  lemma {:induction false} QueueLength(xs: seq<Inst>, minT: nat, maxT: nat)
    ensures var q := EnqueueAll(xs, minT, maxT);
            && |q.queue| + |q.popped| == |xs|
            && (|xs| <= maxT ==> q.popped == [])
            && (|xs| > maxT >= minT ==> minT <= |q.queue| <= maxT)
            && (minT > maxT ==> |q.queue| == if |xs| <= minT then |xs| else minT)
  {
    if xs == [] {
    } else {
      var n := |xs| - 1;
      QueueLength(xs[..n], minT, maxT);
      EnqueueLength(EnqueueAll(xs[..n], minT, maxT), xs[n], minT, maxT);
    }
  }

  predicate IsMultiple(n: nat, each: nat)
    requires each >= 1
  {
    n == 0 || (n >= each && IsMultiple(n - each, each))
  }

  lemma NextMultiple(n: nat, n': nat, each: nat)
    requires each >= 1 && IsMultiple(n, each) && (n' == n || n' == n + each)
    ensures IsMultiple(n', each)
  {
  }

  lemma PoppedStep(xs: seq<Inst>, minT: nat, maxT: nat)
    requires xs != [] && minT <= maxT
    ensures var before := |EnqueueAll(xs[..|xs| - 1], minT, maxT).popped|;
            var after := |EnqueueAll(xs, minT, maxT).popped|;
            after == before || after == before + (maxT + 1 - minT)
  {
    var n := |xs| - 1;
    QueueLength(xs[..n], minT, maxT);
    EnqueueLength(EnqueueAll(xs[..n], minT, maxT), xs[n], minT, maxT);
  }

  /** And every flush pops the same number, one more than the thresholds are apart. */
  lemma {:induction false} PoppedInBatches(xs: seq<Inst>, minT: nat, maxT: nat)
    requires minT <= maxT
    ensures IsMultiple(|EnqueueAll(xs, minT, maxT).popped|, maxT + 1 - minT)
  {
    if xs == [] {
    } else {
      var front := xs[..|xs| - 1];
      PoppedInBatches(front, minT, maxT);
      PoppedStep(xs, minT, maxT);
      NextMultiple(|EnqueueAll(front, minT, maxT).popped|, |EnqueueAll(xs, minT, maxT).popped|, maxT + 1 - minT);
    }
  }

  function All(q: Q): multiset<Inst> { multiset(q.queue) + multiset(q.popped) }

  lemma PopDownKeepsAll(s: seq<Inst>, popped: seq<Inst>, lower: nat)
    ensures All(PopDown(s, popped, lower)) == multiset(s) + multiset(popped)
  {
    if |s| > lower {
      assert s == s[..|s| - lower] + s[|s| - lower..];
    }
  }

  lemma FlushKeepsAll(q: Q, lower: nat)
    ensures All(Flush(q, lower)) == All(q)
  {
    SortMultiset(q.queue);
    PopDownKeepsAll(SortBySn(q.queue), q.popped, lower);
  }

  lemma EnqueueAddsOne(q: Q, x: Inst, minT: nat, maxT: nat)
    ensures All(Enqueue(q, x, minT, maxT)) == All(q) + multiset{x}
  {
    FlushKeepsAll(Q(q.queue + [x], q.popped), minT);
  }

  lemma MultisetSnoc(xs: seq<Inst>)
    requires xs != []
    ensures multiset(xs) == multiset(xs[..|xs| - 1]) + multiset{xs[|xs| - 1]}
  {
    assert xs == xs[..|xs| - 1] + [xs[|xs| - 1]];
  }

  lemma {:induction false} EnqueueKeepsAll(xs: seq<Inst>, minT: nat, maxT: nat)
    ensures All(EnqueueAll(xs, minT, maxT)) == multiset(xs)
  {
    if xs == [] {
    } else {
      var n := |xs| - 1;
      calc {
        All(EnqueueAll(xs, minT, maxT));
        { EnqueueAddsOne(EnqueueAll(xs[..n], minT, maxT), xs[n], minT, maxT); }
        All(EnqueueAll(xs[..n], minT, maxT)) + multiset{xs[n]};
        { EnqueueKeepsAll(xs[..n], minT, maxT); }
        multiset(xs[..n]) + multiset{xs[n]};
        { MultisetSnoc(xs); }
        multiset(xs);
      }
    }
  }

  /** Whatever the order of arrival, every instruction queued is popped exactly once. */
  lemma OutputIsPermutation(xs: seq<Inst>, minT: nat, maxT: nat)
    ensures multiset(Output(xs, minT, maxT)) == multiset(xs)
  {
    var q := EnqueueAll(xs, minT, maxT);
    EnqueueKeepsAll(xs, minT, maxT);
    FlushKeepsAll(q, 0);
    assert Flush(q, 0).queue == [];
  }

  // ---------------------------------------------------------------- output in order

  /** No instruction arrives more than `d` places after one with a larger sequence number. */
  ghost predicate DisplacedAtMost(xs: seq<Inst>, d: nat) {
    forall i, j :: 0 <= i < j < |xs| && xs[i].sn > xs[j].sn ==> j - i <= d
  }

  /** How many instructions have a sequence number above `v`. */
  function Above(s: seq<Inst>, v: nat): (c: nat)
    ensures c <= |s|
  {
    if s == [] then 0 else Above(s[..|s| - 1], v) + if s[|s| - 1].sn > v then 1 else 0
  }

  lemma {:induction false} AboveConcat(a: seq<Inst>, b: seq<Inst>, v: nat)
    ensures Above(a + b, v) == Above(a, v) + Above(b, v)
  {
    if b == [] {
      assert a + b == a;
    } else {
      var n := |b| - 1;
      assert (a + b)[..|a| + n] == a + b[..n];
      AboveConcat(a, b[..n], v);
    }
  }

  lemma {:induction false} AboveInsert(s: seq<Inst>, x: Inst, v: nat)
    ensures Above(Insert(s, x), v) == Above(s, v) + Above([x], v)
  {
    if s == [] || s[|s| - 1].sn <= x.sn {
      AboveConcat(s, [x], v);
    } else {
      var n := |s| - 1;
      AboveInsert(s[..n], x, v);
      AboveConcat(Insert(s[..n], x), [s[n]], v);
      AboveConcat(s[..n], [s[n]], v);
      assert s == s[..n] + [s[n]];
    }
  }

  lemma {:induction false} AboveSort(q: seq<Inst>, v: nat)
    ensures Above(SortBySn(q), v) == Above(q, v)
  {
    if q == [] {
    } else {
      var n := |q| - 1;
      AboveSort(q[..n], v);
      AboveInsert(SortBySn(q[..n]), q[n], v);
      AboveConcat(q[..n], [q[n]], v);
      assert q == q[..n] + [q[n]];
    }
  }

  lemma {:induction false} AboveAll(s: seq<Inst>, v: nat)
    ensures (forall i :: 0 <= i < |s| ==> s[i].sn > v) ==> Above(s, v) == |s|
    ensures (forall i :: 0 <= i < |s| ==> s[i].sn <= v) ==> Above(s, v) == 0
  {
    if s == [] {
    } else {
      AboveAll(s[..|s| - 1], v);
    }
  }

  /** The pigeonhole: at most `d` of the earlier arrivals can exceed the one at `j`. */
  lemma FewAbove(xs: seq<Inst>, j: nat, d: nat)
    requires j < |xs| && DisplacedAtMost(xs, d)
    ensures Above(xs[..j], xs[j].sn) <= d
  {
    if j > d {
      var early := xs[..j - d];
      assert xs[..j] == early + xs[j - d..j];
      AboveConcat(early, xs[j - d..j], xs[j].sn);
      AboveAll(early, xs[j].sn);
    }
  }

  /**
   The queue after the arrivals `xs`: what was popped is in order and below what is queued, nothing is
   lost, and above every v smaller than something popped more than `minT` arrivals are known.
   */
  ghost predicate InOrder(xs: seq<Inst>, q: Q, minT: nat) {
    && Sorted(q.popped)
    && (forall i, j :: 0 <= i < |q.popped| && 0 <= j < |q.queue| ==> q.popped[i].sn <= q.queue[j].sn)
    && (forall v :: Above(xs, v) == Above(q.popped, v) + Above(q.queue, v))
    && (forall i, v: nat :: 0 <= i < |q.popped| && v < q.popped[i].sn ==> Above(xs, v) > minT)
  }

  lemma EnqueuePart(xs: seq<Inst>, x: Inst, q: Q, minT: nat)
    requires InOrder(xs, q, minT) && Above(xs, x.sn) <= minT
    ensures InOrder(xs + [x], Q(q.queue + [x], q.popped), minT)
  {
    forall v: nat
      ensures Above(xs + [x], v) == Above(xs, v) + Above([x], v)
      ensures Above(q.queue + [x], v) == Above(q.queue, v) + Above([x], v)
    {
      AboveConcat(xs, [x], v);
      AboveConcat(q.queue, [x], v);
    }
  }

  lemma FlushPart(xs: seq<Inst>, q: Q, minT: nat)
    requires InOrder(xs, q, minT)
    ensures InOrder(xs, Flush(q, minT), minT)
  {
    SortPart(xs, q, minT);
    PopDownPart(xs, SortBySn(q.queue), q.popped, minT);
  }

  lemma SortPart(xs: seq<Inst>, q: Q, minT: nat)
    requires InOrder(xs, q, minT)
    ensures Sorted(SortBySn(q.queue)) && InOrder(xs, Q(SortBySn(q.queue), q.popped), minT)
  {
    SortIsStable(q.queue, 0);
    SortedAbovePopped(q);
    forall v: nat
      ensures Above(SortBySn(q.queue), v) == Above(q.queue, v)
    {
      AboveSort(q.queue, v);
    }
  }

  lemma PopDownPart(xs: seq<Inst>, s: seq<Inst>, popped: seq<Inst>, minT: nat)
    requires Sorted(s) && InOrder(xs, Q(s, popped), minT)
    ensures InOrder(xs, PopDown(s, popped, minT), minT)
  {
    if |s| > minT {
      var out, rest := s[..|s| - minT], s[|s| - minT..];
      assert s == out + rest;
      FlushCounts(xs, popped, out, rest, minT);
      FlushOrder(popped, out, rest);
    }
  }

  lemma FlushOrder(popped: seq<Inst>, out: seq<Inst>, rest: seq<Inst>)
    requires Sorted(popped) && Sorted(out + rest)
    requires forall i, j :: 0 <= i < |popped| && 0 <= j < |out + rest| ==> popped[i].sn <= (out + rest)[j].sn
    ensures Sorted(popped + out)
    ensures forall i, j :: 0 <= i < |popped + out| && 0 <= j < |rest| ==> (popped + out)[i].sn <= rest[j].sn
  {
    assert forall i :: 0 <= i < |out| ==> (out + rest)[i] == out[i];
    assert forall j :: 0 <= j < |rest| ==> (out + rest)[|out| + j] == rest[j];
  }

  lemma SortedAbovePopped(q: Q)
    requires forall i, j :: 0 <= i < |q.popped| && 0 <= j < |q.queue| ==> q.popped[i].sn <= q.queue[j].sn
    ensures var s := SortBySn(q.queue);
            forall i, j :: 0 <= i < |q.popped| && 0 <= j < |s| ==> q.popped[i].sn <= s[j].sn
  {
    var s := SortBySn(q.queue);
    SortMultiset(q.queue);
    forall i, j | 0 <= i < |q.popped| && 0 <= j < |s|
      ensures q.popped[i].sn <= s[j].sn
    {
      assert s[j] in multiset(s);
      assert s[j] in q.queue;
    }
  }

  lemma FlushCounts(xs: seq<Inst>, popped: seq<Inst>, out: seq<Inst>, rest: seq<Inst>, minT: nat)
    requires Sorted(out + rest) && |rest| == minT
    requires forall v :: Above(xs, v) == Above(popped, v) + Above(out + rest, v)
    requires forall i, v: nat :: 0 <= i < |popped| && v < popped[i].sn ==> Above(xs, v) > minT
    ensures forall v :: Above(xs, v) == Above(popped + out, v) + Above(rest, v)
    ensures forall i, v: nat :: 0 <= i < |popped + out| && v < (popped + out)[i].sn ==> Above(xs, v) > minT
  {
    forall v: nat
      ensures Above(xs, v) == Above(popped + out, v) + Above(rest, v)
    {
      AboveConcat(popped, out, v);
      AboveConcat(out, rest, v);
    }
    forall i, v: nat | 0 <= i < |popped + out| && v < (popped + out)[i].sn
      ensures Above(xs, v) > minT
    {
      if i >= |popped| {
        TailAbove(out + rest, i - |popped|, v);
      }
    }
  }

  lemma TailAbove(s: seq<Inst>, k: nat, v: nat)
    requires Sorted(s) && k < |s| && v < s[k].sn
    ensures Above(s, v) >= |s| - k
  {
    assert s == s[..k] + s[k..];
    AboveConcat(s[..k], s[k..], v);
    AboveAll(s[k..], v);
  }

  lemma {:induction false} PrefixInOrder(xs: seq<Inst>, minT: nat, maxT: nat)
    requires DisplacedAtMost(xs, minT)
    ensures InOrder(xs, EnqueueAll(xs, minT, maxT), minT)
  {
    if xs == [] {
    } else {
      var n := |xs| - 1;
      PrefixInOrder(xs[..n], minT, maxT);
      FewAbove(xs, n, minT);
      var q := EnqueueAll(xs[..n], minT, maxT);
      EnqueuePart(xs[..n], xs[n], q, minT);
      assert xs[..n] + [xs[n]] == xs;
      FlushPart(xs, Q(q.queue + [xs[n]], q.popped), minT);
    }
  }

  /**
   If no instruction is out of order by more than the lower threshold, everything popped over the whole
   run, across all partial flushes and the last one, is in order of sequence number.
   */
  lemma OutputInOrder(xs: seq<Inst>, minT: nat, maxT: nat)
    requires DisplacedAtMost(xs, minT)
    ensures Sorted(Output(xs, minT, maxT))
  {
    PrefixInOrder(xs, minT, maxT);
    var q := EnqueueAll(xs, minT, maxT);
    SortPart(xs, q, minT);
    LastFlush(SortBySn(q.queue), q.popped);
  }

  lemma PopDownKeepsEqual(s: seq<Inst>, popped: seq<Inst>, lower: nat, k: nat)
    ensures var r := PopDown(s, popped, lower);
            WithSn(r.popped, k) + WithSn(r.queue, k) == WithSn(popped, k) + WithSn(s, k)
  {
    if |s| > lower {
      var out, rest := s[..|s| - lower], s[|s| - lower..];
      assert s == out + rest;
      WithSnConcat(popped, out, k);
      WithSnConcat(out, rest, k);
    }
  }

  lemma FlushKeepsEqual(q: Q, lower: nat, k: nat)
    ensures var r := Flush(q, lower);
            WithSn(r.popped, k) + WithSn(r.queue, k) == WithSn(q.popped, k) + WithSn(q.queue, k)
  {
    SortIsStable(q.queue, k);
    PopDownKeepsEqual(SortBySn(q.queue), q.popped, lower, k);
  }

  lemma EnqueueKeepsEqual(q: Q, x: Inst, minT: nat, maxT: nat, k: nat)
    ensures var r := Enqueue(q, x, minT, maxT);
            WithSn(r.popped, k) + WithSn(r.queue, k) == WithSn(q.popped, k) + WithSn(q.queue, k) + WithSn([x], k)
  {
    WithSnConcat(q.queue, [x], k);
    FlushKeepsEqual(Q(q.queue + [x], q.popped), minT, k);
  }

  lemma {:induction false} EnqueueAllKeepsEqual(xs: seq<Inst>, minT: nat, maxT: nat, k: nat)
    ensures var q := EnqueueAll(xs, minT, maxT); WithSn(q.popped, k) + WithSn(q.queue, k) == WithSn(xs, k)
  {
    if xs == [] {
    } else {
      var n := |xs| - 1;
      var q, q' := EnqueueAll(xs[..n], minT, maxT), EnqueueAll(xs, minT, maxT);
      calc {
        WithSn(q'.popped, k) + WithSn(q'.queue, k);
        { EnqueueKeepsEqual(q, xs[n], minT, maxT, k); }
        WithSn(q.popped, k) + WithSn(q.queue, k) + WithSn([xs[n]], k);
        { EnqueueAllKeepsEqual(xs[..n], minT, maxT, k); }
        WithSn(xs[..n], k) + WithSn([xs[n]], k);
        { WithSnSnoc(xs, k); }
        WithSn(xs, k);
      }
    }
  }

  /** Whatever the order of arrival, instructions of equal sequence number come out as they arrived. */
  lemma OutputIsStable(xs: seq<Inst>, minT: nat, maxT: nat, k: nat)
    ensures WithSn(Output(xs, minT, maxT), k) == WithSn(xs, k)
  {
    var q := EnqueueAll(xs, minT, maxT);
    EnqueueAllKeepsEqual(xs, minT, maxT, k);
    FlushKeepsEqual(q, 0, k);
    assert Flush(q, 0).queue == [];
  }

  lemma {:induction false} WithSnLast(s: seq<Inst>, k: nat)
    requires Sorted(s) && WithSn(s, k) != []
    ensures s != [] && s[|s| - 1].sn >= k
    ensures s[|s| - 1].sn == k ==> WithSn(s, k)[|WithSn(s, k)| - 1] == s[|s| - 1]
  {
    var n := |s| - 1;
    if s[n].sn == k {
    } else {
      WithSnLast(s[..n], k);
      assert s[n - 1].sn <= s[n].sn;
    }
  }

  ghost predicate SameNumbers(a: seq<Inst>, b: seq<Inst>) {
    forall k: nat :: WithSn(a, k) == WithSn(b, k)
  }

  lemma SameLast(a: seq<Inst>, b: seq<Inst>)
    requires Sorted(a) && Sorted(b) && SameNumbers(a, b) && a != []
    ensures b != [] && a[|a| - 1] == b[|b| - 1]
  {
    var x := a[|a| - 1];
    assert WithSn(a, x.sn) != [] && WithSn(a, x.sn) == WithSn(b, x.sn);
    WithSnLast(b, x.sn);
    var y := b[|b| - 1];
    assert WithSn(b, y.sn) != [] && WithSn(a, y.sn) == WithSn(b, y.sn);
    WithSnLast(a, y.sn);
    WithSnLast(a, x.sn);
  }

  lemma CancelBack<T>(p: seq<T>, q: seq<T>, t: seq<T>)
    requires p + t == q + t
    ensures p == q
  {
    assert |p| == |q|;
    assert p == (p + t)[..|p|] && q == (q + t)[..|q|];
  }

  lemma SameFront(a: seq<Inst>, b: seq<Inst>)
    requires a != [] && b != [] && a[|a| - 1] == b[|b| - 1] && SameNumbers(a, b)
    ensures SameNumbers(a[..|a| - 1], b[..|b| - 1])
  {
    var front, front' := a[..|a| - 1], b[..|b| - 1];
    forall k: nat
      ensures WithSn(front, k) == WithSn(front', k)
    {
      WithSnSnoc(a, k);
      WithSnSnoc(b, k);
      CancelBack(WithSn(front, k), WithSn(front', k), WithSn([a[|a| - 1]], k));
    }
  }

  /** Sorted lists that agree on every sequence number are equal, so the stable sort is the only one. */
  lemma {:induction false} SortedStableUnique(a: seq<Inst>, b: seq<Inst>)
    requires Sorted(a) && Sorted(b) && SameNumbers(a, b)
    ensures a == b
  {
    if a == [] {
      if b != [] {
        SameLast(b, a);
      }
    } else {
      SameLast(a, b);
      SameFront(a, b);
      var front, front' := a[..|a| - 1], b[..|b| - 1];
      SortedStableUnique(front, front');
      assert a == front + [a[|a| - 1]] && b == front' + [b[|b| - 1]];
    }
  }

  /**
   So the output is the stable sort of all arrivals exactly when it is in order at all; and it is, under
   the displacement bound, as if the whole trace had been sorted at once.
   */
  lemma OutputIsStableSort(xs: seq<Inst>, minT: nat, maxT: nat)
    ensures Sorted(Output(xs, minT, maxT)) <==> Output(xs, minT, maxT) == SortBySn(xs)
    ensures DisplacedAtMost(xs, minT) ==> Output(xs, minT, maxT) == SortBySn(xs)
  {
    SortIsStable(xs, 0);
    if Sorted(Output(xs, minT, maxT)) {
      forall k: nat
        ensures WithSn(Output(xs, minT, maxT), k) == WithSn(SortBySn(xs), k)
      {
        OutputIsStable(xs, minT, maxT, k);
        SortIsStable(xs, k);
      }
      SortedStableUnique(Output(xs, minT, maxT), SortBySn(xs));
    }
    if DisplacedAtMost(xs, minT) {
      OutputInOrder(xs, minT, maxT);
    }
  }

  lemma LastFlush(s: seq<Inst>, popped: seq<Inst>)
    requires Sorted(s) && Sorted(popped)
    requires forall i, j :: 0 <= i < |popped| && 0 <= j < |s| ==> popped[i].sn <= s[j].sn
    ensures Sorted(PopDown(s, popped, 0).popped)
  {
    assert s[..|s| - 0] == s;
  }

  /** An order of arrival of the numbers 0 to maxT + 1, one of them `minT + 1` places late. */
  function OneTooFar(minT: nat, maxT: nat): (xs: seq<Inst>)
    requires minT <= maxT
    ensures |xs| == maxT + 2 && xs[maxT + 1] == Inst(maxT - minT, 0, 0)
    ensures forall i :: 0 <= i <= maxT ==> xs[i] == Inst(if i < maxT - minT then i else i + 1, 0, 0)
  {
    seq(maxT + 2, i requires 0 <= i < maxT + 2 =>
          Inst(if i < maxT - minT then i else if i <= maxT then i + 1 else maxT - minT, 0, 0))
  }

  /** No two instructions share a sequence number. */
  ghost predicate DistinctSn(xs: seq<Inst>) {
    forall i, j :: 0 <= i < j < |xs| ==> xs[i].sn != xs[j].sn
  }

  lemma {:induction false} SortSorted(s: seq<Inst>)
    requires Sorted(s)
    ensures SortBySn(s) == s
  {
    if s == [] {
    } else {
      var n := |s| - 1;
      SortSorted(s[..n]);
      var front := s[..n];
      assert s == front + [s[n]];
      assert front == [] || front[n - 1].sn <= s[n].sn;
      assert Insert(front, s[n]) == front + [s[n]];
    }
  }

  lemma {:induction false} BelowThreshold(xs: seq<Inst>, minT: nat, maxT: nat)
    requires |xs| <= maxT
    ensures EnqueueAll(xs, minT, maxT) == Q(xs, [])
  {
    if xs == [] {
    } else {
      var n := |xs| - 1;
      BelowThreshold(xs[..n], minT, maxT);
      assert xs == xs[..n] + [xs[n]];
    }
  }

  /** A queue one over its upper threshold and already in order gives up its front. */
  lemma FirstFlush(xs: seq<Inst>, minT: nat, maxT: nat)
    requires minT <= maxT && |xs| == maxT + 1 && Sorted(xs)
    ensures EnqueueAll(xs, minT, maxT) == Q(xs[maxT + 1 - minT..], xs[..maxT + 1 - minT])
  {
    calc {
      EnqueueAll(xs, minT, maxT);
      { BelowThreshold(xs[..maxT], minT, maxT); }
      Enqueue(Q(xs[..maxT], []), xs[maxT], minT, maxT);
      { FlushFull(xs, minT, maxT); }
      Q(xs[maxT + 1 - minT..], xs[..maxT + 1 - minT]);
    }
  }

  lemma FlushFull(xs: seq<Inst>, minT: nat, maxT: nat)
    requires minT <= maxT && |xs| == maxT + 1 && Sorted(xs)
    ensures Enqueue(Q(xs[..maxT], []), xs[maxT], minT, maxT) == Q(xs[maxT + 1 - minT..], xs[..maxT + 1 - minT])
  {
    var q := Q(xs[..maxT] + [xs[maxT]], []);
    assert q.queue == xs;
    assert Flush(q, minT) == PopDown(xs, [], minT) by {
      SortSorted(xs);
    }
    assert [] + xs[..maxT + 1 - minT] == xs[..maxT + 1 - minT];
  }

  /**
   The lower threshold is the exact bound: for any thresholds with the lower one at most the upper one,
   instructions one place further out of order can come out in the wrong order.
   */
  lemma BoundIsTight(minT: nat, maxT: nat)
    requires minT <= maxT
    ensures DistinctSn(OneTooFar(minT, maxT)) && DisplacedAtMost(OneTooFar(minT, maxT), minT + 1)
    ensures !Sorted(Output(OneTooFar(minT, maxT), minT, maxT))
  {
    var xs := OneTooFar(minT, maxT);
    LateAfterFirstFlush(xs, minT, maxT);
  }

  /** One arrival after the first flush, smaller than the last instruction that flush popped. */
  lemma LateAfterFirstFlush(xs: seq<Inst>, minT: nat, maxT: nat)
    requires minT <= maxT && |xs| == maxT + 2 && Sorted(xs[..maxT + 1]) && xs[maxT + 1].sn < xs[maxT - minT].sn
    ensures !Sorted(Output(xs, minT, maxT))
  {
    var full := xs[..maxT + 1];
    FirstFlush(full, minT, maxT);
    var out, rest := full[..maxT + 1 - minT], full[maxT + 1 - minT..];
    assert out[|out| - 1] == xs[maxT - minT];
    assert EnqueueAll(xs, minT, maxT) == Enqueue(Q(rest, out), xs[maxT + 1], minT, maxT);
    LateComesAfter(rest, out, xs[maxT + 1], minT, maxT);
  }

  /** An instruction that arrives after a larger one was popped leaves the queue behind it. */
  lemma LateComesAfter(rest: seq<Inst>, out: seq<Inst>, late: Inst, minT: nat, maxT: nat)
    requires out != [] && out[|out| - 1].sn > late.sn
    ensures !Sorted(Flush(Enqueue(Q(rest, out), late, minT, maxT), 0).popped)
  {
    LateInBack(rest, out, late, minT, maxT);
  }

  lemma LateInBack(rest: seq<Inst>, out: seq<Inst>, late: Inst, minT: nat, maxT: nat)
    ensures var q := Enqueue(Q(rest, out), late, minT, maxT);
            var p := Flush(q, 0).popped;
            |p| > |out| && p[..|out|] == out && late in p[|out|..]
  {
    var q0 := Q(rest + [late], out);
    assert late in multiset(q0.queue);
    var q := Enqueue(Q(rest, out), late, minT, maxT);
    FlushMoves(q0, minT);
    assert out <= q.popped && late in q.popped[|out|..] + q.queue by {
      if q == q0 {
        assert q.popped[|out|..] == [];
      }
    }
    FlushMoves(q, 0);
    LateStays(q, Flush(q, 0), late, |out|);
  }

  lemma LateStays(q: Q, r: Q, late: Inst, n: nat)
    requires n <= |q.popped| && late in q.popped[n..] + q.queue
    requires q.popped <= r.popped && r.queue == [] && multiset(r.popped[|q.popped|..] + r.queue) == multiset(q.queue)
    ensures late in r.popped[n..]
  {
    if late in q.queue {
      assert late in multiset(r.popped[|q.popped|..] + r.queue);
      var i :| 0 <= i < |r.popped[|q.popped|..]| && r.popped[|q.popped|..][i] == late;
      assert r.popped[n..][|q.popped| - n + i] == late;
    } else {
      var i :| 0 <= i < |q.popped[n..]| && q.popped[n..][i] == late;
      assert r.popped[n..][i] == late;
    }
  }

  /** A flush only moves the queue behind what was popped before. */
  lemma FlushMoves(q: Q, lower: nat)
    ensures var r := Flush(q, lower);
            && q.popped <= r.popped
            && multiset(r.popped[|q.popped|..] + r.queue) == multiset(q.queue)
  {
    SortMultiset(q.queue);
    PopDownMoves(SortBySn(q.queue), q.popped, lower);
  }

  lemma PopDownMoves(s: seq<Inst>, popped: seq<Inst>, lower: nat)
    ensures var r := PopDown(s, popped, lower);
            popped <= r.popped && r.popped[|popped|..] + r.queue == s
  {
    var r := PopDown(s, popped, lower);
    if |s| > lower {
      assert r.popped[|popped|..] == s[..|s| - lower];
    }
  }
}
