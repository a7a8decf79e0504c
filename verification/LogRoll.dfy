/** The rolling log: a circular buffer of lines, filled first and then overwritten at a wrapping index. */
module LogRoll {
  /** The last `n` elements, or all of them if there are fewer. */
  function LastN<T>(s: seq<T>, n: nat): seq<T> {
    if |s| <= n then s else s[|s| - n..]
  }

  /** What a dump prints: from the index to the end, then from the beginning up to the index. */
  function Dump<T>(lines: seq<T>, idx: nat): seq<T>
    requires idx <= |lines|
  {
    lines[idx..] + lines[..idx]
  }

  /** What the buffer should show after `s`: the last `target` lines, or everything for a target below one. */
  function Shown<T>(s: seq<T>, target: int): seq<T> {
    if target >= 1 then LastN(s, target) else s
  }

  /** Overwriting the oldest line of a full buffer moves the window on by one. */
  lemma Overwrite<T>(lines: seq<T>, idx: nat, x: T)
    requires idx < |lines|
    ensures var next := if idx == |lines| - 1 then 0 else idx + 1;
            Dump(lines[idx := x], next) == Dump(lines, idx)[1..] + [x]
  {
    var after := lines[idx := x];
    assert after[idx + 1..] == lines[idx + 1..] && after[..idx] == lines[..idx];
    assert after[..idx + 1] == lines[..idx] + [x];
    assert Dump(lines, idx)[1..] == lines[idx + 1..] + lines[..idx];
    if idx == |lines| - 1 {
      assert after == lines[..idx] + [x];
      assert after[0..] + after[..0] == after;
    }
  }

  lemma LastNNext<T>(s: seq<T>, k: nat, n: nat)
    requires k < |s| && 1 <= n <= k
    ensures LastN(s[..k + 1], n) == LastN(s[..k], n)[1..] + [s[k]]
  {
    assert s[..k + 1] == s[..k] + [s[k]];
  }

  /** After each number of lines read, `dumps` has what the buffer should show. */
  ghost predicate DumpsShow<T>(dumps: seq<seq<T>>, incoming: seq<T>, read: nat, target: int) {
    && read <= |incoming| && |dumps| == read + 1
    && forall k :: 0 <= k <= read ==> dumps[k] == Shown(incoming[..k], target)
  }

  /** The first loop: append until the buffer is full or the input ends. */
  method Fill<T>(target: int, incoming: seq<T>) returns (lines: seq<T>, idx: nat, read: nat, ghost dumps: seq<seq<T>>)
    ensures DumpsShow(dumps, incoming, read, target)
    ensures lines == incoming[..read]
    ensures read < |incoming| ==> target >= 1 && idx == 0 && read == target
    ensures idx <= |lines| && Dump(lines, idx) == Shown(incoming[..read], target)
  {
    lines, idx, read := [], 0, 0;
    dumps := [[]];
    while read < |incoming|
      invariant idx == read <= |incoming| && lines == incoming[..read]
      invariant target >= 1 ==> read < target
      invariant DumpsShow(dumps, incoming, read, target)
    {
      lines := lines + [incoming[read]];
      read := read + 1;
      if idx == target - 1 {
        idx := 0;
        DumpAll(lines);
        MoreDumps(dumps, incoming, read - 1, target, lines);
        dumps := dumps + [Dump(lines, idx)];
        return;
      } else {
        idx := idx + 1;
        DumpAll(lines);
        MoreDumps(dumps, incoming, read - 1, target, lines);
        dumps := dumps + [Dump(lines, idx)];
      }
    }
    DumpAll(lines);
  }

  lemma DumpAll<T>(lines: seq<T>)
    ensures Dump(lines, 0) == lines && Dump(lines, |lines|) == lines
  {
  }

  /** One turn of the second loop, on a full buffer. */
  lemma WrapStep<T>(lines: seq<T>, idx: nat, incoming: seq<T>, read: nat)
    requires idx < |lines| <= read < |incoming|
    requires Dump(lines, idx) == LastN(incoming[..read], |lines|)
    ensures Dump(lines[idx := incoming[read]], if idx == |lines| - 1 then 0 else idx + 1) ==
              LastN(incoming[..read + 1], |lines|)
  {
    Overwrite(lines, idx, incoming[read]);
    LastNNext(incoming, read, |lines|);
  }

  lemma MoreDumps<T>(dumps: seq<seq<T>>, incoming: seq<T>, read: nat, target: int, d: seq<T>)
    requires read < |incoming| && DumpsShow(dumps, incoming, read, target) && d == Shown(incoming[..read + 1], target)
    ensures DumpsShow(dumps + [d], incoming, read + 1, target)
  {
  }

  /** The second loop: overwrite the buffer, which is full if any line is left to read. */
  method Wrap<T>(target: nat, incoming: seq<T>, full: seq<T>, ghost filled: seq<seq<T>>)
    returns (lines: seq<T>, idx: nat, ghost dumps: seq<seq<T>>)
    requires 1 <= target == |full| < |incoming| && full == incoming[..target]
    requires DumpsShow(filled, incoming, target, target)
    ensures idx < |lines| && Dump(lines, idx) == LastN(incoming, target)
    ensures DumpsShow(dumps, incoming, |incoming|, target)
  {
    lines, idx, dumps := full, 0, filled;
    var read := target;
    DumpAll(full);
    while read < |incoming|
      invariant target <= read <= |incoming| && |lines| == target && idx < target
      invariant Dump(lines, idx) == LastN(incoming[..read], target)
      invariant DumpsShow(dumps, incoming, read, target)
    {
      WrapStep(lines, idx, incoming, read);
      lines := lines[idx := incoming[read]];
      idx := if idx == target - 1 then 0 else idx + 1;
      MoreDumps(dumps, incoming, read, target, Dump(lines, idx));
      dumps := dumps + [Dump(lines, idx)];
      read := read + 1;
    }
    assert incoming[..read] == incoming;
  }

  /**
   Both loops and the final dump. The output is the last `target` lines in order, or everything for a
   target below one, and at every boundary between two lines read a dump shows the same for the lines
   read so far.
   */
  method Roll<T>(target: int, incoming: seq<T>) returns (out: seq<T>, ghost dumps: seq<seq<T>>)
    ensures out == if 1 <= target < |incoming| then incoming[|incoming| - target..] else incoming
    ensures out == Shown(incoming, target)
    ensures DumpsShow(dumps, incoming, |incoming|, target)
  {
    var lines: seq<T>;
    var idx: nat;
    var read: nat;
    lines, idx, read, dumps := Fill(target, incoming);
    if read < |incoming| {
      lines, idx, dumps := Wrap(target, incoming, lines, dumps);
    } else {
      assert incoming[..read] == incoming;
    }
    out := Dump(lines, idx);
  }
}
