/**
 The ARC policy as the source runs it: replacement data and entries linked to each other, per-set
 vectors resized and updated in place, and a victim search that scans the candidates. Every method is
 tied to the definitions in ArcSpec.
 */
module ArcPolicy {
  import opened Common
  import opened ArcSpec

  datatype Permission = NotPresent | Invalid | ReadOnly | ReadWrite | Busy

  /** How a call ends: normally, in one of the source's two panics, or in a division by zero. */
  datatype Outcome = Completed | PanicUnlinked | PanicNoSlot | DivideByZero

  class ReplData {
    var entry: Entry?
    var lastTouchTick: Tick
    var listId: int
    var valid: bool
    var tag: Addr
    /** The slot of the cache this data was instantiated for. */
    ghost const home: (nat, nat)

    constructor (ghost s: nat, ghost w: nat)
      ensures home == (s, w) && entry == null
      ensures Value() == Repl(0, 1, false, 0)
    {
      entry, lastTouchTick, listId, valid, tag := null, 0, 1, false, 0;
      home := (s, w);
    }

    function Value(): Repl
      reads this
    {
      Repl(lastTouchTick, listId, valid, tag)
    }
  }

  class Entry {
    var set_: nat
    var way: nat
    var replacementData: ReplData?
    var address: Addr
    var permission: Permission

    constructor ()
      ensures set_ == 0 && way == 0 && replacementData == null
      ensures address == 0 && permission == NotPresent
    {
      set_, way, replacementData, address, permission := 0, 0, null, 0, NotPresent;
    }

    /** Record the slot here and, when there is replacement data, link it back to this entry. */
    method SetPosition(s: nat, w: nat)
      modifies this, replacementData
      ensures set_ == s && way == w
      ensures replacementData == old(replacementData) && address == old(address) && permission == old(permission)
      ensures replacementData != null ==>
                replacementData.entry == this && replacementData.Value() == old(replacementData.Value())
    {
      set_, way := s, w;
      if replacementData != null {
        replacementData.entry := this;
      }
    }
  }

  class Arc {
    var targetP: seq<int>
    var ghostB1: seq<seq<Addr>>
    var ghostB2: seq<seq<Addr>>

    ghost function State(): ArcState
      reads this
    {
      ArcState(ghostB1, ghostB2, targetP)
    }

    constructor ()
      ensures State() == ARC_EMPTY && ArcInv(State())
    {
      targetP, ghostB1, ghostB2 := [], [], [];
    }

    method Invalidate(rd: ReplData)
      modifies rd`valid
      ensures rd.Value() == old(rd.Value()).(valid := false)
    {
      rd.valid := false;
    }

    method Touch(rd: ReplData, now: Tick)
      modifies rd`lastTouchTick, rd`listId
      ensures rd.Value() == Touched(old(rd.Value()), now)
    {
      rd.lastTouchTick := now;
      if rd.listId == 1 {
        rd.listId := 2;
      }
    }

    method MakeRoom(s: nat)
      requires SameLengths(State())
      modifies this
      ensures State() == Grow(old(State()), s)
    {
      if s >= |ghostB1| {
        ghostB1 := Pad(ghostB1, s + 1, []);
        ghostB2 := Pad(ghostB2, s + 1, []);
        targetP := Pad(targetP, s + 1, 0);
      }
    }

    method RemoveFromGhost(s: nat, isB1: bool, tag: Addr) returns (found: bool)
      requires SameLengths(State()) && s < |targetP|
      modifies this
      ensures found <==> tag in old(if isB1 then ghostB1[s] else ghostB2[s])
      ensures !found ==> State() == old(State())
      ensures found && isB1 ==> State() == old(State()).(b1 := old(ghostB1)[s := RemoveFirst(old(ghostB1)[s], tag)])
      ensures found && !isB1 ==> State() == old(State()).(b2 := old(ghostB2)[s := RemoveFirst(old(ghostB2)[s], tag)])
    {
      var ghostList := if isB1 then ghostB1[s] else ghostB2[s];
      var it := 0;
      while it < |ghostList| && ghostList[it] != tag
        invariant it <= |ghostList|
        invariant forall j :: 0 <= j < it ==> ghostList[j] != tag
      {
        it := it + 1;
      }
      found := it < |ghostList|;
      if found {
        assert IndexOf(ghostList, tag) == it;
        if isB1 {
          ghostB1 := ghostB1[s := RemoveAt(ghostList, it)];
        } else {
          ghostB2 := ghostB2[s := RemoveAt(ghostList, it)];
        }
      }
    }

    method AdjustP(s: nat, hitInB1: bool) returns (outcome: Outcome)
      requires SameLengths(State()) && s < |targetP|
      modifies this`targetP
      ensures var hit := if hitInB1 then |ghostB1[s]| else |ghostB2[s]|;
              var other := if hitInB1 then |ghostB2[s]| else |ghostB1[s]|;
              match Delta(hit, other)
              case None => outcome == DivideByZero && targetP == old(targetP)
              case Some(d) =>
                && outcome == Completed
                && targetP == old(targetP)[s := if hitInB1 then Raise(old(targetP)[s], d, hit + other)
                                                else Lower(old(targetP)[s], d)]
      ensures var b1, b2, p := |ghostB1[s]|, |ghostB2[s]|, old(targetP)[s];
              var hit, other := if hitInB1 then b1 else b2, if hitInB1 then b2 else b1;
              && (outcome == DivideByZero <==> hit == 0 && other > 0)
              && (outcome == Completed ==>
                    exists d: nat ::
                      && IsStep(hit, other, d)
                      && targetP[s] == if hitInB1 then (if p + d <= b1 + b2 then p + d else b1 + b2)
                                       else (if p - d >= 0 then p - d else 0))
    {
      var b1Size, b2Size := |ghostB1[s]|, |ghostB2[s]|;
      var hit, other := if hitInB1 then b1Size else b2Size, if hitInB1 then b2Size else b1Size;
      if hit < other && hit == 0 {
        return DivideByZero;
      }
      var delta := if hit >= other then 1 else (other + hit - 1) / hit;
      DeltaLaw(hit, other);
      if hitInB1 {
        targetP := targetP[s := Min(targetP[s] + delta, b1Size + b2Size)];
      } else {
        targetP := targetP[s := Max(targetP[s] - delta, 0)];
      }
      outcome := Completed;
    }

    method Reset(rd: ReplData, now: Tick) returns (outcome: Outcome)
      requires ArcInv(State())
      modifies this, rd
      ensures rd.entry == old(rd.entry) && rd.tag == old(rd.tag) && rd.lastTouchTick == now && rd.valid
      ensures outcome == PanicUnlinked <==> rd.entry == null
      ensures rd.entry != null ==>
                match ArcSpec.Reset(old(State()), old(rd.entry.set_), rd.tag)
                case Trap => outcome == DivideByZero
                case Done(arc, listId) => outcome == Completed && State() == arc && rd.listId == listId
      ensures outcome == Completed ==> ArcInv(State())
    {
      rd.lastTouchTick := now;
      rd.valid := true;
      var entry := rd.entry;
      if entry == null {
        return PanicUnlinked;
      }
      var s := entry.set_;
      ghost var before := State();
      MakeRoom(s);
      outcome := Completed;
      var inB1 := RemoveFromGhost(s, true, rd.tag);
      if inB1 {
        outcome := AdjustP(s, true);
        rd.listId := 2;
      } else {
        var inB2 := RemoveFromGhost(s, false, rd.tag);
        if inB2 {
          outcome := AdjustP(s, false);
          rd.listId := 2;
        } else {
          rd.listId := 1;
        }
      }
      if outcome == Completed {
        ResetKeepsInv(before, s, rd.tag);
      }
    }

    method AddToGhost(s: nat, isB1: bool, tag: Addr)
      requires SameLengths(State()) && s < |targetP|
      modifies this
      ensures State() == Remember(old(State()), s, isB1, tag)
    {
      var ghostList := (if isB1 then ghostB1[s] else ghostB2[s]) + [tag];
      if |ghostList| > |ghostB1| {
        ghostList := ghostList[1..];
      }
      if isB1 {
        ghostB1 := ghostB1[s := ghostList];
      } else {
        ghostB2 := ghostB2[s := ghostList];
      }
    }

    /** `rs` names the replacement data of the candidates. */
    method GetVictim(candidates: seq<Entry>, now: Tick, ghost rs: seq<Repl>) returns (victim: Entry?)
      requires ArcInv(State())
      requires |rs| == |candidates|
      requires forall i :: 0 <= i < |candidates| ==>
                 candidates[i].replacementData != null && candidates[i].replacementData.Value() == rs[i]
      modifies this
      ensures victim == null <==> !SomeValid(rs)
      ensures candidates == [] ==> State() == old(State())
      ensures candidates != [] ==>
                && State() == Evict(old(State()), candidates[0].set_, rs, now)
                && var v := Victim(rs, P(old(State()), candidates[0].set_), now);
                   v.Some? ==> victim == candidates[v.value]
      ensures ArcInv(State())
    {
      if candidates == [] {
        return null;
      }
      var s := candidates[0].set_;
      ghost var before := State();
      MakeRoom(s);
      assert targetP[s] == P(before, s);

      var evictFromT1 := CountLists(candidates, targetP[s], rs);
      var oldest := OldestOf(candidates, evictFromT1, now, rs);
      VictimExistsUniquely(rs, targetP[s], now);
      if oldest < |candidates| {
        victim := candidates[oldest];
        assert IsVictim(rs, targetP[s], now, oldest);
      } else {
        var i := 0;
        while i < |candidates| && !candidates[i].replacementData.valid
          invariant i <= |candidates|
          invariant forall j :: 0 <= j < i ==> !rs[j].valid
        {
          assert !rs[i].valid;
          i := i + 1;
        }
        victim := null;
        oldest := i;
        if i < |candidates| {
          victim := candidates[i];
          assert IsVictim(rs, targetP[s], now, i);
        }
      }
      assert victim == null ==> !SomeValid(rs);
      EvictKeepsInv(before, s, rs, now);
      if victim != null {
        assert rs[oldest].valid;
        var victimData := victim.replacementData;
        AddToGhost(s, victimData.listId == 1, victimData.tag);
      }
    }

    method CountLists(candidates: seq<Entry>, p: int, ghost rs: seq<Repl>) returns (evictFromT1: bool)
      requires |rs| == |candidates|
      requires forall i :: 0 <= i < |candidates| ==>
                 candidates[i].replacementData != null && candidates[i].replacementData.Value() == rs[i]
      ensures evictFromT1 == FromT1(rs, p)
      ensures evictFromT1 <==>
                || |set j | 0 <= j < |rs| && rs[j].valid && rs[j].listId == 1| > p
                || forall j :: 0 <= j < |rs| && rs[j].valid ==> rs[j].listId == 1
    {
      var t1Count, t2Count := 0, 0;
      for i := 0 to |candidates|
        invariant t1Count == CountList(rs[..i], true) && t2Count == CountList(rs[..i], false)
      {
        var data := candidates[i].replacementData;
        assert rs[..i + 1][..i] == rs[..i];
        if data.valid {
          if data.listId == 1 {
            t1Count := t1Count + 1;
          } else {
            t2Count := t2Count + 1;
          }
        }
      }
      assert rs[..|rs|] == rs;
      evictFromT1 := t1Count > p || t2Count == 0;
      FromT1Means(rs, p);
    }

    /** The first scan: the index of the line it settles on, or the number of candidates. */
    method OldestOf(candidates: seq<Entry>, evictFromT1: bool, now: Tick, ghost rs: seq<Repl>) returns (k: nat)
      requires |rs| == |candidates|
      requires forall i :: 0 <= i < |candidates| ==>
                 candidates[i].replacementData != null && candidates[i].replacementData.Value() == rs[i]
      ensures if SomeOlder(rs, evictFromT1, now) then IsOldest(rs, evictFromT1, now, k) else k == |candidates|
    {
      k := |candidates|;
      var oldest := now;
      for i := 0 to |candidates|
        invariant k == |candidates| || k < i
        invariant k == |candidates| ==> oldest == now
        invariant k < i ==> Older(rs[k], evictFromT1, now) && oldest == rs[k].tick
        invariant forall j :: 0 <= j < i && OnList(rs[j], evictFromT1) ==>
                    oldest <= rs[j].tick && (j < k < i ==> oldest < rs[j].tick)
      {
        var data := candidates[i].replacementData;
        assert data.Value() == rs[i];
        if data.valid && ((evictFromT1 && data.listId == 1) || (!evictFromT1 && data.listId == 2)) {
          if data.lastTouchTick < oldest {
            oldest := data.lastTouchTick;
            k := i;
          }
        }
      }
    }
  }
}
