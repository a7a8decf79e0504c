/**
 The ARC replacement policy on values: the replacement data of a line, the two ghost lists and the
 target of every set, and what a reset, an eviction and a victim search do to them.
 */
module ArcSpec {
  import opened Common

  /** Replacement data of one slot; `listId` is 1 for T1 (new) and 2 for T2 (frequent). */
  datatype Repl = Repl(tick: Tick, listId: int, valid: bool, tag: Addr)

  function Touched(r: Repl, now: Tick): Repl {
    r.(tick := now, listId := if r.listId == 1 then 2 else r.listId)
  }

  // ---------------------------------------------------------------- victim search

  /** Number of valid lines on T1 (`t1`) or off it. */
  function CountList(rs: seq<Repl>, t1: bool): nat {
    if rs == [] then 0
    else
      var last := rs[|rs| - 1];
      CountList(rs[..|rs| - 1], t1) + (if last.valid && (last.listId == 1) == t1 then 1 else 0)
  }

  predicate FromT1(rs: seq<Repl>, p: int) {
    CountList(rs, true) > p || CountList(rs, false) == 0
  }

  predicate OnList(r: Repl, t1: bool) {
    r.valid && r.listId == if t1 then 1 else 2
  }

  predicate Older(r: Repl, t1: bool, now: Tick) {
    OnList(r, t1) && r.tick < now
  }

  ghost predicate SomeOlder(rs: seq<Repl>, t1: bool, now: Tick) {
    exists j :: 0 <= j < |rs| && Older(rs[j], t1, now)
  }

  /** `k` is the first candidate of the least tick among the lines of the list older than now. */
  ghost predicate IsOldest(rs: seq<Repl>, t1: bool, now: Tick, k: int) {
    && 0 <= k < |rs|
    && Older(rs[k], t1, now)
    && forall j :: 0 <= j < |rs| && OnList(rs[j], t1) ==>
         rs[k].tick <= rs[j].tick && (j < k ==> rs[k].tick < rs[j].tick)
  }

  ghost predicate IsFirstValid(rs: seq<Repl>, k: int) {
    0 <= k < |rs| && rs[k].valid && forall j :: 0 <= j < k ==> !rs[j].valid
  }

  /** The candidate the policy evicts: two scans with a fallback, said without the scans. */
  ghost predicate IsVictim(rs: seq<Repl>, p: int, now: Tick, k: int) {
    if SomeOlder(rs, FromT1(rs, p), now)
    then IsOldest(rs, FromT1(rs, p), now, k)
    else IsFirstValid(rs, k)
  }

  ghost predicate SomeValid(rs: seq<Repl>) {
    exists j :: 0 <= j < |rs| && rs[j].valid
  }

  lemma {:induction false} OldestExists(rs: seq<Repl>, t1: bool, now: Tick) returns (k: int)
    requires SomeOlder(rs, t1, now)
    ensures IsOldest(rs, t1, now, k)
  {
    var n := |rs| - 1;
    var front := rs[..n];
    if SomeOlder(front, t1, now) {
      k := OldestExists(front, t1, now);
      if OnList(rs[n], t1) && rs[n].tick < rs[k].tick {
        k := n;
      }
    } else {
      k := n;
      forall j | 0 <= j < n && OnList(rs[j], t1)
        ensures now <= rs[j].tick
      {
        assert front[j] == rs[j] && !Older(front[j], t1, now);
      }
    }
  }

  lemma {:induction false} FirstValidExists(rs: seq<Repl>) returns (k: int)
    requires SomeValid(rs)
    ensures IsFirstValid(rs, k)
  {
    if rs[0].valid {
      k := 0;
    } else {
      var j :| 0 <= j < |rs| && rs[j].valid;
      assert rs[1..][j - 1] == rs[j];
      k := FirstValidExists(rs[1..]);
      k := k + 1;
      assert forall i :: 1 <= i < k ==> rs[i] == rs[1..][i - 1];
    }
  }

  /** A victim exists exactly when some candidate is valid, and there is only one. */
  lemma VictimExistsUniquely(rs: seq<Repl>, p: int, now: Tick)
    ensures SomeValid(rs) <==> exists k :: IsVictim(rs, p, now, k)
    ensures forall k, k' :: IsVictim(rs, p, now, k) && IsVictim(rs, p, now, k') ==> k == k'
    ensures forall k :: IsVictim(rs, p, now, k) ==> 0 <= k < |rs| && rs[k].valid
  {
    if SomeOlder(rs, FromT1(rs, p), now) {
      var k := OldestExists(rs, FromT1(rs, p), now);
      assert IsVictim(rs, p, now, k);
      assert rs[k].valid;
    } else if SomeValid(rs) {
      var k := FirstValidExists(rs);
      assert IsVictim(rs, p, now, k);
    }
  }

  ghost function Victim(rs: seq<Repl>, p: int, now: Tick): (v: Option<nat>)
    ensures v.None? <==> !SomeValid(rs)
    ensures v.Some? ==> IsVictim(rs, p, now, v.value) && v.value < |rs| && rs[v.value].valid
  {
    VictimExistsUniquely(rs, p, now);
    if SomeValid(rs) then
      var k :| IsVictim(rs, p, now, k);
      Some(k)
    else None
  }

  lemma {:induction false} CountPositive(rs: seq<Repl>, t1: bool)
    ensures CountList(rs, t1) > 0 <==> exists j :: 0 <= j < |rs| && rs[j].valid && (rs[j].listId == 1) == t1
  {
    if rs == [] {
    } else {
      var n := |rs| - 1;
      CountPositive(rs[..n], t1);
      if j :| 0 <= j < |rs| && rs[j].valid && (rs[j].listId == 1) == t1 {
        assert j < n ==> rs[..n][j] == rs[j];
      }
      if CountList(rs, t1) > 0 && CountList(rs[..n], t1) > 0 {
        var j :| 0 <= j < n && rs[..n][j].valid && (rs[..n][j].listId == 1) == t1;
        assert rs[j] == rs[..n][j];
      }
    }
  }

  /** The count is the number of candidates that are valid and on the list. */
  lemma {:induction false} CountIsSize(rs: seq<Repl>, t1: bool)
    ensures CountList(rs, t1) == |set j | 0 <= j < |rs| && rs[j].valid && (rs[j].listId == 1) == t1|
  {
    var on := set j | 0 <= j < |rs| && rs[j].valid && (rs[j].listId == 1) == t1;
    if rs == [] {
      assert on == {};
    } else {
      var n := |rs| - 1;
      var front := rs[..n];
      var before := set j | 0 <= j < |front| && front[j].valid && (front[j].listId == 1) == t1;
      CountIsSize(front, t1);
      assert forall j :: 0 <= j < n ==> front[j] == rs[j];
      assert on == before + if rs[n].valid && (rs[n].listId == 1) == t1 then {n} else {};
    }
  }

  /** The choice of the list, on the lines themselves: T1 if it has more lines than the target, or all of them. */
  lemma FromT1Means(rs: seq<Repl>, p: int)
    ensures FromT1(rs, p) <==>
              || |set j | 0 <= j < |rs| && rs[j].valid && rs[j].listId == 1| > p
              || forall j :: 0 <= j < |rs| && rs[j].valid ==> rs[j].listId == 1
  {
    var t1 := set j | 0 <= j < |rs| && rs[j].valid && rs[j].listId == 1;
    CountIsSize(rs, true);
    assert t1 == set j | 0 <= j < |rs| && rs[j].valid && (rs[j].listId == 1) == true;
    CountPositive(rs, false);
  }

  /**
   The whole search on the lines themselves. The list is T1 if it has more valid lines than the target or
   nothing valid is elsewhere, else T2; the victim is the first of least tick among the lines of that list
   older than now, or the first valid candidate if there are none.
   */
  lemma VictimMeans(rs: seq<Repl>, p: int, now: Tick, k: int)
    ensures IsVictim(rs, p, now, k) <==>
              var t1 := set j | 0 <= j < |rs| && rs[j].valid && rs[j].listId == 1;
              var elsewhere := set j | 0 <= j < |rs| && rs[j].valid && rs[j].listId != 1;
              var list := if |t1| > p || elsewhere == {} then 1 else 2;
              var older := set j | 0 <= j < |rs| && rs[j].valid && rs[j].listId == list && rs[j].tick < now;
              if older != {}
              then k in older && forall j :: j in older ==>
                     rs[k].tick <= rs[j].tick && (j < k ==> rs[k].tick < rs[j].tick)
              else 0 <= k < |rs| && rs[k].valid && forall j :: 0 <= j < k ==> !rs[j].valid
  {
    var elsewhere := set j | 0 <= j < |rs| && rs[j].valid && rs[j].listId != 1;
    FromT1Means(rs, p);
    assert elsewhere == {} <==> forall j :: 0 <= j < |rs| && rs[j].valid ==> rs[j].listId == 1 by {
      if elsewhere == {} {
        assert forall j :: 0 <= j < |rs| && rs[j].valid ==> j !in elsewhere;
      }
    }
    OlderMeans(rs, FromT1(rs, p), now, k);
  }

  lemma OlderMeans(rs: seq<Repl>, t1: bool, now: Tick, k: int)
    ensures var list := if t1 then 1 else 2;
            var older := set j | 0 <= j < |rs| && rs[j].valid && rs[j].listId == list && rs[j].tick < now;
            && (SomeOlder(rs, t1, now) <==> older != {})
            && (IsOldest(rs, t1, now, k) <==>
                  k in older && forall j :: j in older ==>
                    rs[k].tick <= rs[j].tick && (j < k ==> rs[k].tick < rs[j].tick))
  {
    var list := if t1 then 1 else 2;
    var older := set j | 0 <= j < |rs| && rs[j].valid && rs[j].listId == list && rs[j].tick < now;
    assert forall j :: j in older <==> 0 <= j < |rs| && Older(rs[j], t1, now);
  }

  /**
   So when every valid line is older than now and both lists have some, the victim is on T1 exactly when T1
   has more lines than the target; when only one list has any, it is on that one.
   */
  lemma VictimFollowsTarget(rs: seq<Repl>, p: int, now: Tick, k: int)
    requires p >= 0 && ListIdsOk(rs) && IsVictim(rs, p, now, k)
    requires forall j :: 0 <= j < |rs| && rs[j].valid ==> rs[j].tick < now
    ensures 0 <= k < |rs|
    ensures var t1 := set j | 0 <= j < |rs| && rs[j].valid && rs[j].listId == 1;
            var t2 := set j | 0 <= j < |rs| && rs[j].valid && rs[j].listId == 2;
            if t1 != {} && t2 != {} then rs[k].listId == 1 <==> |t1| > p
            else rs[k].listId == if t1 != {} then 1 else 2
  {
    var t1 := set j | 0 <= j < |rs| && rs[j].valid && rs[j].listId == 1;
    var t2 := set j | 0 <= j < |rs| && rs[j].valid && rs[j].listId == 2;
    VictimExistsUniquely(rs, p, now);
    FromT1Means(rs, p);
    ChosenListNonempty(rs, p);
    var j :| 0 <= j < |rs| && OnList(rs[j], FromT1(rs, p));
    assert Older(rs[j], FromT1(rs, p), now);
    assert forall i :: 0 <= i < |rs| && rs[i].valid ==> i in t1 || i in t2;
    assert t1 == {} ==> |t1| == 0;
    if FromT1(rs, p) {
      assert j in t1;
    } else {
      assert j in t2;
    }
  }

  ghost predicate ListIdsOk(rs: seq<Repl>) {
    forall j :: 0 <= j < |rs| ==> rs[j].listId == 1 || rs[j].listId == 2
  }

  /**
   The list the target test picks is never empty. So the fallback is taken only when every line of
   that list was used at or after `now`.
   */
  lemma ChosenListNonempty(rs: seq<Repl>, p: int)
    requires p >= 0 && ListIdsOk(rs) && SomeValid(rs)
    ensures exists j :: 0 <= j < |rs| && OnList(rs[j], FromT1(rs, p))
  {
    var t1 := FromT1(rs, p);
    CountPositive(rs, true);
    CountPositive(rs, false);
    var v :| 0 <= v < |rs| && rs[v].valid;
    var j :| 0 <= j < |rs| && rs[j].valid && (rs[j].listId == 1) == t1;
    assert OnList(rs[j], t1);
  }

  // ---------------------------------------------------------------- ghost lists and target

  /** Ghost lists (front first) and target, one entry per set slot created so far. */
  datatype ArcState = ArcState(b1: seq<seq<Addr>>, b2: seq<seq<Addr>>, p: seq<int>)

  const ARC_EMPTY := ArcState([], [], [])

  ghost predicate SameLengths(ar: ArcState) {
    |ar.b1| == |ar.b2| == |ar.p|
  }

  function B1(ar: ArcState, s: nat): seq<Addr> { if s < |ar.b1| then ar.b1[s] else [] }

  function B2(ar: ArcState, s: nat): seq<Addr> { if s < |ar.b2| then ar.b2[s] else [] }

  function P(ar: ArcState, s: nat): int { if s < |ar.p| then ar.p[s] else 0 }

  function Ghosts(ar: ArcState, s: nat): nat { |B1(ar, s)| + |B2(ar, s)| }

  /** What every reachable policy state satisfies. */
  ghost predicate ArcInv(ar: ArcState) {
    && SameLengths(ar)
    && forall s: nat :: 0 <= P(ar, s) <= Ghosts(ar, s) && |B1(ar, s)| <= |ar.p| && |B2(ar, s)| <= |ar.p|
  }

  function Pad<T>(v: seq<T>, n: nat, x: T): (r: seq<T>)
    ensures |r| == if n <= |v| then |v| else n
    ensures forall i :: 0 <= i < |r| ==> r[i] == if i < |v| then v[i] else x
  {
    if n <= |v| then v else v + seq(n - |v|, _ => x)
  }

  /** Make room for set `s`. */
  function Grow(ar: ArcState, s: nat): (r: ArcState)
    requires SameLengths(ar)
    ensures SameLengths(r) && s < |r.p|
    ensures |r.p| == Max(|ar.p|, s + 1)
    ensures forall i: nat :: B1(r, i) == B1(ar, i) && B2(r, i) == B2(ar, i) && P(r, i) == P(ar, i)
  {
    ArcState(Pad(ar.b1, s + 1, []), Pad(ar.b2, s + 1, []), Pad(ar.p, s + 1, 0))
  }

  /** Index of the first `x`, or the length. */
  function IndexOf(l: seq<Addr>, x: Addr): (i: nat)
    ensures i <= |l|
    ensures forall j :: 0 <= j < i ==> l[j] != x
    ensures i < |l| ==> l[i] == x
    ensures i < |l| <==> x in l
  {
    if l == [] then 0 else if l[0] == x then 0 else 1 + IndexOf(l[1..], x)
  }

  function RemoveAt(l: seq<Addr>, i: nat): seq<Addr>
    requires i < |l|
  {
    l[..i] + l[i + 1..]
  }

  function RemoveFirst(l: seq<Addr>, x: Addr): (r: seq<Addr>)
    requires x in l
    ensures |r| == |l| - 1
  {
    RemoveAt(l, IndexOf(l, x))
  }

  function PushCapped(l: seq<Addr>, x: Addr, cap: nat): seq<Addr> {
    if |l| + 1 > cap then (l + [x])[1..] else l + [x]
  }

  /** Step of the target for a hit in a list now of size `hit`, the other one of size `other`; None
      where the source divides by zero. */
  function Delta(hit: nat, other: nat): Option<nat> {
    if hit >= other then Some(1)
    else if hit == 0 then None
    else Some((other + hit - 1) / hit)
  }

  function Raise(p: int, d: nat, total: nat): int { Min(p + d, total) }

  function Lower(p: int, d: nat): int { Max(p - d, 0) }

  datatype ResetResult = Trap | Done(arc: ArcState, listId: int)

  /** A reset in set `s` of a line whose replacement data carries `tag`. */
  function Reset(ar: ArcState, s: nat, tag: Addr): (r: ResetResult)
    requires SameLengths(ar)
    ensures r.Done? ==> SameLengths(r.arc)
  {
    var g := Grow(ar, s);
    if tag in g.b1[s] then
      var l := RemoveFirst(g.b1[s], tag);
      match Delta(|l|, |g.b2[s]|)
      case None => Trap
      case Some(d) => Done(ArcState(g.b1[s := l], g.b2, g.p[s := Raise(g.p[s], d, |l| + |g.b2[s]|)]), 2)
    else if tag in g.b2[s] then
      var l := RemoveFirst(g.b2[s], tag);
      match Delta(|l|, |g.b1[s]|)
      case None => Trap
      case Some(d) => Done(ArcState(g.b1, g.b2[s := l], g.p[s := Lower(g.p[s], d)]), 2)
    else Done(g, 1)
  }

  /** Remember an evicted `tag` in B1 or B2 of set `s`; the cap is the number of set slots. */
  function Remember(ar: ArcState, s: nat, toB1: bool, tag: Addr): (r: ArcState)
    requires SameLengths(ar) && s < |ar.p|
    ensures SameLengths(r)
  {
    if toB1 then ar.(b1 := ar.b1[s := PushCapped(ar.b1[s], tag, |ar.b1|)])
    else ar.(b2 := ar.b2[s := PushCapped(ar.b2[s], tag, |ar.b1|)])
  }

  /** The policy state after a victim search over `rs` in set `s`. */
  ghost function Evict(ar: ArcState, s: nat, rs: seq<Repl>, now: Tick): (r: ArcState)
    requires SameLengths(ar)
    ensures SameLengths(r)
  {
    var g := Grow(ar, s);
    match Victim(rs, g.p[s], now)
    case None => g
    case Some(k) => Remember(g, s, rs[k].listId == 1, rs[k].tag)
  }

  // ---------------------------------------------------------------- laws

  /** `d` is 1, or for a smaller hit list the least multiple of it that reaches the other one. */
  ghost predicate IsStep(hit: nat, other: nat, d: nat) {
    if hit >= other then d == 1 else (d - 1) * hit < other <= d * hit
  }

  /** Where it is defined, the step is 1 or the ceiling of the ratio of the sizes, so at least 1. */
  lemma DeltaLaw(hit: nat, other: nat)
    ensures Delta(hit, other).None? <==> hit == 0 && other > 0
    ensures Delta(hit, other).Some? ==> Delta(hit, other).value >= 1
    ensures Delta(hit, other).Some? ==> IsStep(hit, other, Delta(hit, other).value)
  {
    if 0 < hit < other {
      var n := other + hit - 1;
      var d := n / hit;
      assert n == d * hit + n % hit;
      assert (d - 1) * hit == d * hit - hit;
    }
  }

  /**
   A reset is undefined exactly when the hit entry was alone in its ghost list and the other list is
   not empty. B1 is searched first, so a tag in both lists counts as a B1 hit.
   */
  lemma ResetTrapsExactlyWhen(ar: ArcState, s: nat, tag: Addr)
    requires SameLengths(ar)
    ensures Reset(ar, s, tag).Trap? <==>
              || (B1(ar, s) == [tag] && B2(ar, s) != [])
              || (tag !in B1(ar, s) && B2(ar, s) == [tag] && B1(ar, s) != [])
  {
    var g := Grow(ar, s);
    assert g.b1[s] == B1(g, s) == B1(ar, s) && g.b2[s] == B2(g, s) == B2(ar, s);
    if tag in g.b1[s] {
      var l := RemoveFirst(g.b1[s], tag);
      assert |l| == 0 ==> g.b1[s] == [g.b1[s][0]];
    } else if tag in g.b2[s] {
      var l := RemoveFirst(g.b2[s], tag);
      assert |l| == 0 ==> g.b2[s] == [g.b2[s][0]];
    }
  }

  /** What a defined reset does to every set: `s` as below, all other sets as before. */
  lemma ResetEffect(ar: ArcState, s: nat, tag: Addr)
    requires SameLengths(ar) && Reset(ar, s, tag).Done?
    ensures var r := Reset(ar, s, tag);
            && |r.arc.p| == Max(|ar.p|, s + 1)
            && (r.listId == 1 || r.listId == 2)
            && (r.listId == 1 <==> tag !in B1(ar, s) && tag !in B2(ar, s))
            && B1(r.arc, s) == (if tag in B1(ar, s) then RemoveFirst(B1(ar, s), tag) else B1(ar, s))
            && B2(r.arc, s) == (if tag !in B1(ar, s) && tag in B2(ar, s)
                                then RemoveFirst(B2(ar, s), tag) else B2(ar, s))
            && (r.listId == 1 ==> P(r.arc, s) == P(ar, s))
            && forall i: nat :: i != s ==>
                 B1(r.arc, i) == B1(ar, i) && B2(r.arc, i) == B2(ar, i) && P(r.arc, i) == P(ar, i)
  {
    var g := Grow(ar, s);
    assert g.b1[s] == B1(g, s) && g.b2[s] == B2(g, s);
    var r := Reset(ar, s, tag).arc;
    assert forall i: nat :: i != s ==> B1(r, i) == B1(g, i) && B2(r, i) == B2(g, i) && P(r, i) == P(g, i);
  }

  /**
   Adaptation moves the right way. With n ghosts before the hit, a B1 hit raises the target below
   n - 1, keeps it at n - 1, and costs one only at saturation n. A B2 hit never raises it and lowers
   it whenever it is positive.
   */
  lemma Adaptation(ar: ArcState, s: nat, tag: Addr)
    requires ArcInv(ar) && Reset(ar, s, tag).Done?
    ensures var n := Ghosts(ar, s); var p := P(ar, s); var p' := P(Reset(ar, s, tag).arc, s);
            && (tag in B1(ar, s) ==>
                  && (p < n - 1 ==> p < p' <= n - 1)
                  && (p == n - 1 ==> p' == p)
                  && (p == n ==> p' == p - 1))
            && (tag !in B1(ar, s) && tag in B2(ar, s) ==> p' <= p && (p > 0 ==> 0 <= p' < p))
            && (tag !in B1(ar, s) && tag !in B2(ar, s) ==> p' == p)
  {
    var g := Grow(ar, s);
    assert g.b1[s] == B1(g, s) && g.b2[s] == B2(g, s) && g.p[s] == P(g, s);
    if tag in g.b1[s] {
      DeltaLaw(|g.b1[s]| - 1, |g.b2[s]|);
    } else if tag in g.b2[s] {
      DeltaLaw(|g.b2[s]| - 1, |g.b1[s]|);
    }
  }

  /**
   By how much: with `hit` and `other` the sizes of the list hit and of the other one, after the removal, the
   step d is 1, or the least d with d times hit at least other. A B1 hit adds it, up to the sum of the sizes;
   a B2 hit subtracts it, down to 0.
   */
  lemma TargetMoves(ar: ArcState, s: nat, tag: Addr) returns (d: nat)
    requires SameLengths(ar) && Reset(ar, s, tag).Done? && (tag in B1(ar, s) || tag in B2(ar, s))
    ensures var inB1 := tag in B1(ar, s);
            var hit := if inB1 then |B1(ar, s)| - 1 else |B2(ar, s)| - 1;
            var other := if inB1 then |B2(ar, s)| else |B1(ar, s)|;
            var p := P(ar, s);
            && IsStep(hit, other, d)
            && P(Reset(ar, s, tag).arc, s) == if inB1 then (if p + d <= hit + other then p + d else hit + other)
                                              else (if p - d >= 0 then p - d else 0)
  {
    var g := Grow(ar, s);
    assert g.b1[s] == B1(g, s) && g.b2[s] == B2(g, s) && g.p[s] == P(g, s);
    var hit := if tag in B1(ar, s) then |B1(ar, s)| - 1 else |B2(ar, s)| - 1;
    var other := if tag in B1(ar, s) then |B2(ar, s)| else |B1(ar, s)|;
    DeltaLaw(hit, other);
    d := Delta(hit, other).value;
  }

  lemma ResetKeepsInv(ar: ArcState, s: nat, tag: Addr)
    requires ArcInv(ar) && Reset(ar, s, tag).Done?
    ensures ArcInv(Reset(ar, s, tag).arc)
  {
    var r := Reset(ar, s, tag).arc;
    ResetEffect(ar, s, tag);
    Adaptation(ar, s, tag);
    forall i: nat
      ensures 0 <= P(r, i) <= Ghosts(r, i) && |B1(r, i)| <= |r.p| && |B2(r, i)| <= |r.p|
    {
      assert 0 <= P(ar, i) <= Ghosts(ar, i);
    }
  }

  /** A victim search touches only one ghost list of its set, and no target. */
  lemma EvictEffect(ar: ArcState, s: nat, rs: seq<Repl>, now: Tick)
    requires SameLengths(ar)
    ensures var r := Evict(ar, s, rs, now); var v := Victim(rs, P(ar, s), now); var cap := |r.p|;
            && cap == Max(|ar.p|, s + 1)
            && B1(r, s) == (if v.Some? && rs[v.value].listId == 1
                            then PushCapped(B1(ar, s), rs[v.value].tag, cap) else B1(ar, s))
            && B2(r, s) == (if v.Some? && rs[v.value].listId != 1
                            then PushCapped(B2(ar, s), rs[v.value].tag, cap) else B2(ar, s))
            && forall i: nat :: P(r, i) == P(ar, i) && (i != s ==> B1(r, i) == B1(ar, i) && B2(r, i) == B2(ar, i))
  {
    var g := Grow(ar, s);
    assert g.b1[s] == B1(g, s) && g.b2[s] == B2(g, s) && g.p[s] == P(g, s);
    var r := Evict(ar, s, rs, now);
    assert forall i: nat :: P(r, i) == P(g, i) && (i != s ==> B1(r, i) == B1(g, i) && B2(r, i) == B2(g, i));
  }

  lemma EvictKeepsInv(ar: ArcState, s: nat, rs: seq<Repl>, now: Tick)
    requires ArcInv(ar)
    ensures ArcInv(Evict(ar, s, rs, now))
  {
    var r := Evict(ar, s, rs, now);
    EvictEffect(ar, s, rs, now);
    forall i: nat
      ensures 0 <= P(r, i) <= Ghosts(r, i) && |B1(r, i)| <= |r.p| && |B2(r, i)| <= |r.p|
    {
      assert 0 <= P(ar, i) <= Ghosts(ar, i) && |B1(ar, i)| <= |ar.p| && |B2(ar, i)| <= |ar.p|;
    }
  }

  /** With at most 2^29 - 1 set slots, no sum the target update forms leaves a 32-bit `int`. */
  lemma TargetFitsInt32(ar: ArcState, s: nat, tag: Addr, d: nat)
    requires ArcInv(ar) && |ar.p| < 0x2000_0000
    requires tag in B1(ar, s) ==> Delta(|B1(ar, s)| - 1, |B2(ar, s)|) == Some(d)
    requires tag !in B1(ar, s) && tag in B2(ar, s) ==> Delta(|B2(ar, s)| - 1, |B1(ar, s)|) == Some(d)
    ensures tag in B1(ar, s) ==> 0 <= P(ar, s) + d <= 0x7FFF_FFFF
    ensures tag !in B1(ar, s) && tag in B2(ar, s) ==> -0x8000_0000 <= P(ar, s) - d <= 0x7FFF_FFFF
  {
    assert 0 <= P(ar, s) <= Ghosts(ar, s) && |B1(ar, s)| <= |ar.p| && |B2(ar, s)| <= |ar.p|;
    if tag in B1(ar, s) {
      StepAtMostSizes(|B1(ar, s)| - 1, |B2(ar, s)|);
    } else if tag in B2(ar, s) {
      StepAtMostSizes(|B2(ar, s)| - 1, |B1(ar, s)|);
    }
  }

  lemma StepAtMostSizes(hit: nat, other: nat)
    requires Delta(hit, other).Some?
    ensures Delta(hit, other).value <= other + 1
  {
    DeltaLaw(hit, other);
    if hit < other {
      MulAtLeast(Delta(hit, other).value - 1, hit);
    }
  }

  lemma MulAtLeast(x: nat, y: nat)
    requires y >= 1
    ensures x <= x * y
  {
    if x == 0 {
    } else {
      MulAtLeast(x - 1, y);
      assert x * y == (x - 1) * y + y;
    }
  }
}
