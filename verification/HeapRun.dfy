/** Runs of the send heap: in which of them order holds, and what is then served. */
module HeapRun {
  import opened HeapModel

  /** insert_, remove_ of the entry at a place, and the branch of update that makes the root due at once. */
  datatype Op<N> = Add(e: Entry<N>) | RemoveAt(loc: nat) | Hasten

  /** Times are at least 1: pop puts back positive times only, and update asks for time 1. */
  predicate Enabled<N>(h: seq<Entry<N>>, op: Op<N>)
  {
    match op
    case Add(e) => e.ts >= 1
    case RemoveAt(loc) => loc < |h|
    case Hasten => h != []
  }

  function Do<N>(h: seq<Entry<N>>, op: Op<N>): seq<Entry<N>>
    requires Enabled(h, op)
  {
    match op
    case Add(e) => Inserted(h, e)
    case RemoveAt(loc) => Removed(h, loc)
    case Hasten => h[0 := Entry(1, h[0].node)]
  }

  /** The removed entry is the root or the last one, or the last one is not earlier than the parent of its new place. */
  predicate Harmless<N>(h: seq<Entry<N>>, op: Op<N>)
  {
    op.RemoveAt? && 0 < op.loc < |h| ==> op.loc == |h| - 1 || h[|h| - 1].ts >= h[Parent(op.loc)].ts
  }

  ghost predicate Follows<N>(trace: seq<seq<Entry<N>>>, ops: seq<Op<N>>, i: int)
    requires 0 <= i < |ops| == |trace| - 1
  {
    Enabled(trace[i], ops[i]) && trace[i + 1] == Do(trace[i], ops[i])
  }

  ghost predicate IsRun<N>(trace: seq<seq<Entry<N>>>, ops: seq<Op<N>>)
  {
    && |trace| == |ops| + 1 && trace[0] == []
    && forall i :: 0 <= i < |ops| ==> Follows(trace, ops, i)
  }

  ghost predicate Timed<N>(h: seq<Entry<N>>)
  {
    forall e :: e in multiset(h) ==> e.ts >= 1
  }

  lemma {:induction false} StepTimed<N>(h: seq<Entry<N>>, op: Op<N>)
    requires Timed(h) && Enabled(h, op)
    ensures Timed(Do(h, op))
  {
    match op
    case Add(e) => Conserved(h, e, 0);
    case RemoveAt(loc) => Conserved(h, h[loc], loc);
    case Hasten =>
      var e := Entry(1, h[0].node);
      assert multiset(h[0 := e]) == multiset(h) - multiset{h[0]} + multiset{e};
  }

  lemma {:induction false} StepOrder<N>(h: seq<Entry<N>>, op: Op<N>)
    requires Order(h) && Timed(h) && Enabled(h, op)
    ensures Order(Do(h, op)) <==> Harmless(h, op)
  {
    match op
    case Add(e) => InsertedOrder(h, e);
    case RemoveAt(loc) => RemovedOrder(h, loc);
    case Hasten =>
      var t := Do(h, op);
      forall i | 0 < i < |t| ensures t[Parent(i)].ts <= t[i].ts {
        assert h[Parent(i)].ts <= h[i].ts && h[i] in multiset(h);
      }
  }

  lemma {:induction false} RunTimed<N>(trace: seq<seq<Entry<N>>>, ops: seq<Op<N>>, i: nat)
    requires IsRun(trace, ops) && i < |trace|
    ensures Timed(trace[i])
  {
    if i > 0 {
      RunTimed(trace, ops, i - 1);
      assert Follows(trace, ops, i - 1);
      StepTimed(trace[i - 1], ops[i - 1]);
    }
  }

  /** Heap order holds all through a run if and only if every removal in it is harmless. */
  lemma {:induction false} OrderedRuns<N>(trace: seq<seq<Entry<N>>>, ops: seq<Op<N>>)
    requires IsRun(trace, ops)
    ensures (forall i :: 0 <= i < |trace| ==> Order(trace[i])) <==>
            (forall i :: 0 <= i < |ops| ==> Harmless(trace[i], ops[i]))
  {
    if forall i :: 0 <= i < |trace| ==> Order(trace[i]) {
      forall i | 0 <= i < |ops| ensures Harmless(trace[i], ops[i]) {
        assert Follows(trace, ops, i);
        RunTimed(trace, ops, i);
        StepOrder(trace[i], ops[i]);
      }
    }
    if forall i :: 0 <= i < |ops| ==> Harmless(trace[i], ops[i]) {
      forall i | 0 <= i < |trace| ensures Order(trace[i]) {
        HarmlessRun(trace, ops, i);
      }
    }
  }

  lemma {:induction false} HarmlessRun<N>(trace: seq<seq<Entry<N>>>, ops: seq<Op<N>>, i: nat)
    requires IsRun(trace, ops) && i < |trace| && forall k :: 0 <= k < i ==> Harmless(trace[k], ops[k])
    ensures Order(trace[i])
  {
    if i > 0 {
      HarmlessRun(trace, ops, i - 1);
      RunTimed(trace, ops, i - 1);
      assert Follows(trace, ops, i - 1);
      StepOrder(trace[i - 1], ops[i - 1]);
    }
  }

  /** So long as all removals before it were harmless, a pop serves an entry no later than any other, and the next
      pop, with nothing in between, no earlier one. */
  lemma {:induction false} PopServesEarliest<N>(trace: seq<seq<Entry<N>>>, ops: seq<Op<N>>, t: nat)
    requires IsRun(trace, ops) && t < |ops| && ops[t] == RemoveAt(0)
    requires forall k :: 0 <= k < t ==> Harmless(trace[k], ops[k])
    ensures forall i :: 0 <= i < |trace[t]| ==> trace[t][0].ts <= trace[t][i].ts
    ensures |trace[t]| > 1 ==> trace[t][0].ts <= Removed(trace[t], 0)[0].ts
  {
    var h := trace[t];
    HarmlessRun(trace, ops, t);
    forall i | 0 <= i < |h| ensures h[0].ts <= h[i].ts {
      RootLeast(h, i);
    }
    if |h| > 1 {
      Conserved(h, h[0], 0);
      var e := Removed(h, 0)[0];
      assert e in multiset(Removed(h, 0));
      assert e in multiset(h);
    }
  }
}
