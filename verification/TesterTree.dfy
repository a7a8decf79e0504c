/**
 The memory-tester tree: the number of testers computed from the fan-out table, and the recursive builder
 that creates the subsystems and their testers.
 */
module TesterTree {
  function Product(s: seq<nat>): nat {
    if s == [] then 1 else Product(s[..|s| - 1]) * s[|s| - 1]
  }

  /** Testers per level times the number of subsystems there, summed over the first `n` levels. */
  function Sum(caches: seq<nat>, testers: seq<nat>, n: nat): nat
    requires n <= |testers| && n <= |caches| + 1
  {
    if n == 0 then 0 else Sum(caches, testers, n - 1) + testers[n - 1] * Product(caches[..n - 1])
  }

  method NumTesters(caches: seq<nat>, testers: seq<nat>) returns (total: nat)
    requires |testers| == |caches| + 1
    ensures total == Sum(caches, testers, |testers|)
  {
    var multiplier := [1];
    for i := 0 to |caches|
      invariant |multiplier| == i + 1
      invariant forall j :: 0 <= j <= i ==> multiplier[j] == Product(caches[..j])
    {
      assert caches[..i + 1][..i] == caches[..i];
      multiplier := multiplier + [multiplier[i] * caches[i]];
    }
    total := 0;
    for i := 0 to |testers|
      invariant total == Sum(caches, testers, i)
    {
      total := total + testers[i] * multiplier[i];
    }
  }

  /** Testers in a subtree whose fan-outs and testers per subsystem are given from its root up. */
  function TreeTesters(caches: seq<nat>, testers: seq<nat>): nat
    requires |testers| == |caches| + 1
  {
    if caches == [] then testers[0] else testers[0] + caches[0] * TreeTesters(caches[1..], testers[1..])
  }

  /** Subsystems at level `l` of a subtree whose root is at level |caches|. */
  function SubsystemsAt(caches: seq<nat>, l: nat): nat {
    if l == |caches| then 1
    else if caches == [] then 0
    else caches[0] * SubsystemsAt(caches[1..], l)
  }

  lemma {:induction false} ProductFirst(s: seq<nat>)
    requires s != []
    ensures Product(s) == s[0] * Product(s[1..])
  {
    if |s| > 1 {
      var n := |s| - 1;
      ProductFirst(s[..n]);
      assert s[..n][1..] == s[1..][..n - 1];
      assert s[0] * Product(s[1..][..n - 1]) * s[n] == s[0] * (Product(s[1..][..n - 1]) * s[n]);
    } else {
      assert s[1..] == [] && s[..0] == [];
      assert Product(s[..0]) == 1 && Product(s) == 1 * s[0];
    }
  }

  lemma {:induction false} SumFirst(caches: seq<nat>, testers: seq<nat>, n: nat)
    requires caches != [] && |testers| == |caches| + 1 && 1 <= n <= |testers|
    ensures Sum(caches, testers, n) == testers[0] + caches[0] * Sum(caches[1..], testers[1..], n - 1)
  {
    if n > 1 {
      SumFirst(caches, testers, n - 1);
      ProductFirst(caches[..n - 1]);
      assert caches[..n - 1][1..] == caches[1..][..n - 2];
      Distribute(caches[0], Sum(caches[1..], testers[1..], n - 2), testers[n - 1], Product(caches[1..][..n - 2]));
    } else {
      assert caches[..0] == [];
      assert Sum(caches, testers, 0) == 0;
    }
  }

  lemma Distribute(c: nat, s: nat, t: nat, p: nat)
    ensures c * s + t * (c * p) == c * (s + t * p)
  {
  }

  /** The running-product sum is the number of testers in the tree. */
  lemma {:induction false} SumIsTree(caches: seq<nat>, testers: seq<nat>)
    requires |testers| == |caches| + 1
    ensures Sum(caches, testers, |testers|) == TreeTesters(caches, testers)
  {
    if caches == [] {
      assert caches[..0] == [];
      assert Sum(caches, testers, 1) == Sum(caches, testers, 0) + testers[0] * Product([]);
    } else {
      SumFirst(caches, testers, |testers|);
      SumIsTree(caches[1..], testers[1..]);
    }
  }

  /** The product table counts the subsystems of every level. */
  lemma {:induction false} ProductIsCount(caches: seq<nat>, l: nat)
    requires l <= |caches|
    ensures SubsystemsAt(caches, l) == Product(caches[..|caches| - l])
  {
    if l == |caches| {
      assert caches[..0] == [];
    } else {
      ProductIsCount(caches[1..], l);
      ProductFirst(caches[..|caches| - l]);
      assert caches[..|caches| - l][1..] == caches[1..][..|caches| - 1 - l];
    }
  }

  lemma {:induction false} NoneAbove(caches: seq<nat>, l: nat)
    requires l > |caches|
    ensures SubsystemsAt(caches, l) == 0
  {
    if caches == [] {
    } else {
      NoneAbove(caches[1..], l);
    }
  }

  lemma CountUnfold(caches: seq<nat>, l: nat)
    requires caches != []
    ensures SubsystemsAt(caches, l) == (if l == |caches| then 1 else 0) + caches[0] * SubsystemsAt(caches[1..], l)
  {
    if l == |caches| {
      NoneAbove(caches[1..], l);
    }
  }

  function Total(s: seq<nat>): nat {
    if s == [] then 0 else Total(s[..|s| - 1]) + s[|s| - 1]
  }

  class Builder {
    const caches: seq<nat>
    const testers: seq<nat>
    const nextIndex: array<nat>
    /** The (level, index) names of the subsystems created so far, the testers of each, and of all. */
    var names: seq<(nat, nat)>
    var sizes: seq<nat>
    var created: nat

    ghost predicate Valid()
      reads this, nextIndex
    {
      && |testers| == |caches| + 1 && nextIndex.Length == |caches| + 1
      && (forall i, j :: 0 <= i < j < |names| ==> names[i] != names[j])
      && (forall l: nat, k: nat :: (l, k) in names <==> l < nextIndex.Length && k < nextIndex[l])
      && Sized() && created == Total(sizes)
    }

    /** Every subsystem has the testers of its level. */
    ghost predicate Sized()
      reads this
    {
      && |sizes| == |names| && |testers| == |caches| + 1
      && forall i :: 0 <= i < |names| ==> names[i].0 <= |caches| && sizes[i] == testers[|caches| - names[i].0]
    }

    constructor (c: seq<nat>, t: seq<nat>)
      requires |t| == |c| + 1
      ensures Valid() && fresh(nextIndex) && caches == c && testers == t
      ensures names == [] && sizes == [] && created == 0
      ensures forall l :: 0 <= l < nextIndex.Length ==> nextIndex[l] == 0
    {
      caches, testers := c, t;
      nextIndex := new nat[|c| + 1](_ => 0);
      names, sizes, created := [], [], 0;
    }

    /** Name a new subsystem of `level` and give it its testers. */
    method NewSubsystem(level: nat)
      requires Valid() && level <= |caches|
      modifies this`names, this`sizes, this`created, nextIndex
      ensures Valid() && names == old(names) + [(level, old(nextIndex[level]))]
      ensures created == old(created) + testers[|caches| - level]
      ensures forall l :: 0 <= l < nextIndex.Length ==>
                nextIndex[l] == old(nextIndex[l]) + if l == level then 1 else 0
    {
      var index := nextIndex[level];
      assert (level, index) !in names;
      nextIndex[level] := index + 1;
      names := names + [(level, index)];
      assert (sizes + [testers[|caches| - level]])[..|sizes|] == sizes;
      sizes := sizes + [testers[|caches| - level]];
      created := created + testers[|caches| - level];
    }

    /** Create the subtree of a subsystem at `level`. */
    method MakeCacheLevel(ncaches: seq<nat>, level: nat)
      requires Valid() && level <= |caches| && ncaches == caches[|caches| - level..]
      modifies this, nextIndex
      ensures Valid() && old(names) <= names
      ensures created == old(created) + TreeTesters(ncaches, testers[|caches| - level..])
      ensures forall l :: 0 <= l < nextIndex.Length ==> nextIndex[l] == old(nextIndex[l]) + SubsystemsAt(ncaches, l)
      decreases level, 1
    {
      NewSubsystem(level);
      if level != 0 {
        var sub := ncaches[1..];
        assert sub == caches[|caches| - (level - 1)..];
        assert testers[|caches| - (level - 1)..] == testers[|caches| - level..][1..];
        FanOut(ncaches[0], sub, level - 1);
        forall l | 0 <= l < nextIndex.Length
          ensures SubsystemsAt(ncaches, l) == (if l == level then 1 else 0) + ncaches[0] * SubsystemsAt(sub, l)
        {
          CountUnfold(ncaches, l);
        }
      }
    }

    /** The loop over the caches of a subsystem: one subtree each. */
    method FanOut(n: nat, ncaches: seq<nat>, level: nat)
      requires Valid() && level <= |caches| && ncaches == caches[|caches| - level..]
      modifies this, nextIndex
      ensures Valid() && old(names) <= names
      ensures created == old(created) + n * TreeTesters(ncaches, testers[|caches| - level..])
      ensures forall l :: 0 <= l < nextIndex.Length ==> nextIndex[l] == old(nextIndex[l]) + n * SubsystemsAt(ncaches, l)
      decreases level, 2
    {
      ghost var each := TreeTesters(ncaches, testers[|caches| - level..]);
      for k := 0 to n
        invariant Valid() && old(names) <= names
        invariant created == old(created) + k * each
        invariant forall l :: 0 <= l < nextIndex.Length ==>
                    nextIndex[l] == old(nextIndex[l]) + k * SubsystemsAt(ncaches, l)
      {
        MakeCacheLevel(ncaches, level);
        assert (k + 1) * each == k * each + each;
        forall l | 0 <= l < nextIndex.Length
          ensures (k + 1) * SubsystemsAt(ncaches, l) == k * SubsystemsAt(ncaches, l) + SubsystemsAt(ncaches, l)
        {
        }
      }
    }

    /**
     The top-level call: as many testers as the running-product sum, per level as many subsystems as the
     product table says, numbered from zero without gaps, no two of the same name, and each with as many
     testers as its level asks for.
     */
    method Build()
      requires Valid() && names == []
      modifies this, nextIndex
      ensures Valid()
      ensures created == Sum(caches, testers, |testers|) == Total(sizes)
      ensures |sizes| == |names|
      ensures forall i :: 0 <= i < |names| ==> names[i].0 <= |caches| && sizes[i] == testers[|caches| - names[i].0]
      ensures forall i, j :: 0 <= i < j < |names| ==> names[i] != names[j]
      ensures forall l: nat, k: nat :: (l, k) in names <==> l <= |caches| && k < Product(caches[..|caches| - l])
    {
      forall l | 0 <= l < nextIndex.Length
        ensures nextIndex[l] == 0
      {
        assert (l, 0) !in names;
      }
      assert caches[0..] == caches && testers[0..] == testers;
      MakeCacheLevel(caches, |caches|);
      SumIsTree(caches, testers);
      forall l: nat | l <= |caches|
        ensures nextIndex[l] == Product(caches[..|caches| - l])
      {
        ProductIsCount(caches, l);
      }
    }
  }
}
