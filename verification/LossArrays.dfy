/** How an ordered sequence of intervals lies in the arrays of a loss list, and what the elementary
    array updates of the list operations do to it. */
module LossArrays {
  import opened Numbers
  import opened SeqNo
  import opened Intervals

  /** The stored end of an interval: -1 stands for a single number. */
  function EndOf(n: Node): int
  {
    if n.lo == n.hi then -1 else Wrap(n.hi)
  }

  /** Interval i sits in slot pos[i], the slot of its first number; no two share one. */
  ghost predicate Placed(size: int, anchor: int, ns: seq<Node>, pos: seq<int>)
  {
    && size > 0 && |pos| == |ns|
    && (forall i :: 0 <= i < |pos| ==> pos[i] == Slot(size, anchor, ns[i].lo))
    && Distinct(size, pos)
  }

  ghost predicate Distinct(size: int, pos: seq<int>)
  {
    && (forall i :: 0 <= i < |pos| ==> 0 <= pos[i] < size)
    && (forall i, j :: 0 <= i < j < |pos| ==> pos[i] != pos[j])
  }

  /** The two data arrays: interval i at pos[i], -1 in every free slot. */
  ghost predicate Stored(size: int, ns: seq<Node>, pos: seq<int>, d1: seq<int>, d2: seq<int>)
    requires |pos| == |ns|
  {
    && |d1| == size && |d2| == size
    && (forall i :: 0 <= i < |pos| ==> 0 <= pos[i] < size && d1[pos[i]] == Wrap(ns[i].lo) && d2[pos[i]] == EndOf(ns[i]))
    && (forall k :: 0 <= k < size && k !in pos ==> d1[k] == -1 && d2[k] == -1)
  }

  /** The slot after the i-th in list order, or -1. */
  ghost function After(pos: seq<int>, i: int): int
    requires 0 <= i < |pos|
  {
    if i + 1 < |pos| then pos[i + 1] else -1
  }

  /** The successor array follows the list order. */
  ghost predicate Chained(size: int, pos: seq<int>, nx: seq<int>)
  {
    && |nx| == size
    && (forall i {:trigger After(pos, i)} :: 0 <= i < |pos| ==> 0 <= pos[i] < size && nx[pos[i]] == After(pos, i))
  }

  function With<T>(s: seq<T>, k: int, x: T): seq<T>
    requires 0 <= k <= |s|
  {
    s[..k] + [x] + s[k..]
  }

  /** The three arrays of a loss list hold these intervals in these slots. */
  ghost predicate Holds(size: int, anchor: int, ns: seq<Node>, pos: seq<int>, d1: seq<int>, d2: seq<int>, nx: seq<int>)
  {
    && Placed(size, anchor, ns, pos)
    && Stored(size, ns, pos, d1, d2)
    && Chained(size, pos, nx)
  }

  // ---------- taking interval k out ----------

  lemma {:induction false} RemovePlaced(size: int, anchor: int, ns: seq<Node>, pos: seq<int>, k: int)
    requires Placed(size, anchor, ns, pos) && 0 <= k < |ns|
    ensures Placed(size, anchor, Without(ns, k), Without(pos, k))
    ensures forall x :: x in Without(pos, k) <==> x in pos && x != pos[k]
  {
    var q := Without(pos, k);
    assert forall x :: x in pos && x != pos[k] ==> x in q by {
      forall x | x in pos && x != pos[k] ensures x in q {
        var i :| 0 <= i < |pos| && pos[i] == x;
        assert x == q[if i < k then i else i - 1];
      }
    }
  }

  lemma {:induction false} RemoveStored(size: int, anchor: int, ns: seq<Node>, pos: seq<int>, d1: seq<int>,
                                        d2: seq<int>, k: int)
    requires Placed(size, anchor, ns, pos) && Stored(size, ns, pos, d1, d2) && 0 <= k < |ns|
    ensures Stored(size, Without(ns, k), Without(pos, k), d1[pos[k] := -1], d2[pos[k] := -1])
  {
    RemovePlaced(size, anchor, ns, pos, k);
  }

  lemma {:induction false} RemoveChained(size: int, pos: seq<int>, nx: seq<int>, k: int)
    requires Distinct(size, pos) && Chained(size, pos, nx) && 0 < k < |pos|
    ensures Chained(size, Without(pos, k), nx[pos[k - 1] := nx[pos[k]]])
  {
    var q, nx' := Without(pos, k), nx[pos[k - 1] := nx[pos[k]]];
    forall i | 0 <= i < |q| ensures 0 <= q[i] < size && nx'[q[i]] == After(q, i) {
      WithoutAt(pos, k, i);
      var j := if i < k then i else i + 1;
      assert nx[pos[j]] == After(pos, j) && nx[pos[k]] == After(pos, k);
      hide Without, Chained;
    }
  }

  lemma {:induction false} WithoutAt(pos: seq<int>, k: int, i: int)
    requires 0 <= k < |pos| && 0 <= i < |pos| - 1
    ensures |Without(pos, k)| == |pos| - 1
    ensures Without(pos, k)[i] == pos[if i < k then i else i + 1]
    ensures i + 1 < |pos| - 1 ==> Without(pos, k)[i + 1] == pos[if i + 1 < k then i + 1 else i + 2]
    ensures i > 0 ==> Without(pos, k)[i - 1] == pos[if i - 1 < k then i - 1 else i]
  {
  }

  // ---------- putting an interval in ----------

  lemma {:induction false} InsertPlaced(size: int, anchor: int, ns: seq<Node>, pos: seq<int>, k: int, n: Node,
                                        slot: int)
    requires Placed(size, anchor, ns, pos) && 0 <= k <= |ns|
    requires slot == Slot(size, anchor, n.lo)
    requires forall i :: 0 <= i < |ns| ==> ns[i].lo != n.lo && -size < ns[i].lo - n.lo < size
    ensures slot !in pos && 0 <= slot < size
    ensures Placed(size, anchor, With(ns, k, n), With(pos, k, slot))
    ensures forall x :: x in With(pos, k, slot) <==> x in pos || x == slot
  {
    SlotBounds(size, anchor, n.lo);
    forall i | 0 <= i < |ns| ensures pos[i] != slot {
      SlotInjective(size, anchor, ns[i].lo, n.lo);
    }
    var q := With(pos, k, slot);
    forall x | x in pos ensures x in q {
      var i :| 0 <= i < |pos| && pos[i] == x;
      assert x == q[if i < k then i else i + 1];
    }
    assert q[k] == slot;
  }

  lemma {:induction false} InsertStored(size: int, anchor: int, ns: seq<Node>, pos: seq<int>, d1: seq<int>,
                                        d2: seq<int>, k: int, n: Node, slot: int)
    requires Placed(size, anchor, ns, pos) && Stored(size, ns, pos, d1, d2) && 0 <= k <= |ns|
    requires 0 <= slot < size && slot !in pos
    requires forall x :: x in With(pos, k, slot) <==> x in pos || x == slot
    ensures Stored(size, With(ns, k, n), With(pos, k, slot), d1[slot := Wrap(n.lo)], d2[slot := EndOf(n)])
  {
  }

  lemma {:induction false} InsertChained(size: int, pos: seq<int>, nx: seq<int>, k: int, slot: int)
    requires Distinct(size, pos) && Chained(size, pos, nx) && 0 <= k <= |pos|
    requires 0 <= slot < size && slot !in pos
    ensures var after := if k < |pos| then pos[k] else -1;
            Chained(size, With(pos, k, slot), (if k > 0 then nx[pos[k - 1] := slot] else nx)[slot := after])
  {
    var q := With(pos, k, slot);
    var nx' := (if k > 0 then nx[pos[k - 1] := slot] else nx)[slot := if k < |pos| then pos[k] else -1];
    forall i | 0 <= i < |q| ensures 0 <= q[i] < size && nx'[q[i]] == After(q, i) {
      assert q[i] == if i < k then pos[i] else if i == k then slot else pos[i - 1];
      if i != k {
        assert nx[q[i]] == After(pos, if i < k then i else i - 1);
      }
    }
  }

  // ---------- changing the end of interval k ----------

  lemma {:induction false} SetEndStored(size: int, anchor: int, ns: seq<Node>, pos: seq<int>, d1: seq<int>,
                                        d2: seq<int>, k: int, hi: int)
    requires Placed(size, anchor, ns, pos) && Stored(size, ns, pos, d1, d2) && 0 <= k < |ns|
    ensures var n := Node(ns[k].lo, hi);
            Placed(size, anchor, ns[k := n], pos) && Stored(size, ns[k := n], pos, d1, d2[pos[k] := EndOf(n)])
  {
  }

  // ---------- order, window and members ----------

  /** Ordered except that interval k may reach into the ones after it. */
  ghost predicate OrderedBut(ns: seq<Node>, k: int)
  {
    && (forall i :: 0 <= i < |ns| ==> ns[i].lo <= ns[i].hi)
    && (forall i, j :: 0 <= i < j < |ns| ==> ns[i].lo < ns[j].lo)
    && (forall i, j :: 0 <= i < j < |ns| && i != k ==> ns[i].hi < ns[j].lo)
  }

  /** All numbers lie in a window narrower than the array and than the comparison threshold. */
  ghost predicate Window(size: int, ns: seq<Node>)
  {
    forall i, j :: 0 <= i < |ns| && 0 <= j < |ns| ==> Close(size, ns[i].lo, ns[j].hi)
  }

  ghost predicate Close(size: int, lo: int, hi: int)
  {
    hi - lo < size && hi - lo < SEQ_NO_TH
  }

  /** Interval k takes in the one after it. */
  function Absorbed(ns: seq<Node>, k: int): seq<Node>
    requires 0 <= k && k + 1 < |ns|
  {
    Without(ns[k := Node(ns[k].lo, Max(ns[k].hi, ns[k + 1].hi))], k + 1)
  }

  lemma {:induction false} AbsorbedMembers(ns: seq<Node>, k: int)
    requires 0 <= k && k + 1 < |ns|
    requires ns[k].lo < ns[k + 1].lo <= ns[k].hi + 1 && ns[k].lo <= ns[k].hi && ns[k + 1].lo <= ns[k + 1].hi
    ensures Members(Absorbed(ns, k)) == Members(ns)
    ensures Total(Absorbed(ns, k)) == Total(ns) - (Min(ns[k].hi, ns[k + 1].hi) - ns[k + 1].lo + 1)
  {
    var t := Absorbed(ns, k);
    var a, b, c := ns[k], ns[k + 1], t[k];
    Around(ns, k);
    assert ns[k + 1..][1..] == ns[k + 2..];
    Around(t, k);
    assert t[..k] == ns[..k] && t[k + 1..] == ns[k + 2..];
    SpanJoin(a, b, c, Members(ns[..k]), Members(ns[k + 2..]));
  }

  lemma {:induction false} SpanJoin(a: Node, b: Node, c: Node, before: set<int>, behind: set<int>)
    requires a.lo <= b.lo <= a.hi + 1 && b.lo <= b.hi && c == Node(a.lo, Max(a.hi, b.hi))
    ensures before + Span(a.lo, a.hi) + (Span(b.lo, b.hi) + behind) == before + Span(c.lo, c.hi) + behind
  {
    assert Span(c.lo, c.hi) == Span(a.lo, a.hi) + Span(b.lo, b.hi);
  }

  lemma {:induction false} AbsorbedOrder(size: int, ns: seq<Node>, k: int)
    requires OrderedBut(ns, k) && Window(size, ns) && 0 <= k && k + 1 < |ns|
    ensures OrderedBut(Absorbed(ns, k), k) && Window(size, Absorbed(ns, k))
  {
    AbsorbedWindow(size, ns, k);
    hide Window;
  }

  lemma {:induction false} AbsorbedWindow(size: int, ns: seq<Node>, k: int)
    requires Window(size, ns) && 0 <= k && k + 1 < |ns|
    ensures Window(size, Absorbed(ns, k))
  {
  }

  // ---------- the whole representation ----------

  /** The fields of a loss list hold these intervals: arrays, first node, length and cached position. */
  ghost predicate Rep(size: int, anchor: int, ns: seq<Node>, pos: seq<int>, d1: seq<int>, d2: seq<int>, nx: seq<int>,
                      head: int, length: int, last: int)
  {
    && Holds(size, anchor, ns, pos, d1, d2, nx)
    && Window(size, ns)
    && head == (if pos == [] then -1 else pos[0])
    && length == Total(ns)
    && (last == -1 || last in pos)
  }

  /** Interval k as the operations see it. */
  lemma {:induction false} RepAt(size: int, anchor: int, ns: seq<Node>, pos: seq<int>, d1: seq<int>, d2: seq<int>,
                                 nx: seq<int>,
                                 head: int, length: int, last: int, k: int)
    requires Rep(size, anchor, ns, pos, d1, d2, nx, head, length, last)
    ensures size > 0 && |d1| == |d2| == |nx| == size && |pos| == |ns|
    ensures length == Total(ns) && head == (if ns == [] then -1 else pos[0])
    ensures 0 <= k < |ns| ==>
              && 0 <= pos[k] < size && pos[k] == Slot(size, anchor, ns[k].lo)
              && d1[pos[k]] == Wrap(ns[k].lo) && d2[pos[k]] == EndOf(ns[k])
              && nx[pos[k]] == (if k + 1 < |ns| then pos[k + 1] else -1)
              && (k + 1 < |ns| ==>
                    0 <= pos[k + 1] < size && pos[k + 1] != pos[k] && Close(size, ns[k].lo, ns[k + 1].hi))
              && Close(size, ns[k].lo, ns[k].hi)
  {
    if 0 <= k < |ns| {
      assert nx[pos[k]] == After(pos, k);
    }
  }

  /** Intervals k and k + 1 as a round of the coalescing loop finds them. */
  lemma {:induction false} PairAt(size: int, anchor: int, ns: seq<Node>, pos: seq<int>, d1: seq<int>, d2: seq<int>,
                                  nx: seq<int>,
                                  head: int, length: int, last: int, k: int)
    requires Rep(size, anchor, ns, pos, d1, d2, nx, head, length, last)
    requires OrderedBut(ns, k) && 0 <= k && k + 1 < |ns|
    ensures |d1| == |d2| == |nx| == size && |pos| == |ns|
    ensures 0 <= pos[k] < size && 0 <= pos[k + 1] < size && pos[k + 1] != pos[k] && nx[pos[k]] == pos[k + 1]
    ensures d2[pos[k]] == EndOf(ns[k]) && d1[pos[k + 1]] == Wrap(ns[k + 1].lo) && d2[pos[k + 1]] == EndOf(ns[k + 1])
    ensures ns[k].lo < ns[k + 1].lo <= ns[k + 1].hi
    ensures ns[k].hi - ns[k].lo < SEQ_NO_TH && ns[k + 1].hi - ns[k].lo < SEQ_NO_TH
  {
    RepAt(size, anchor, ns, pos, d1, d2, nx, head, length, last, k);
    RepAt(size, anchor, ns, pos, d1, d2, nx, head, length, last, k + 1);
  }

  lemma {:induction false} EndOfFacts(n: Node)
    ensures -1 <= EndOf(n) <= MAX_SEQ_NO
    ensures EndOf(n) == -1 <==> n.lo == n.hi
    ensures EndOf(n) != -1 ==> EndOf(n) == Wrap(n.hi)
  {
  }

  /** The loop condition of the coalescing loop on true numbers. */
  lemma {:induction false} ReachRefines(hi: int, lo: int)
    requires Near(lo, hi + 1)
    ensures SeqCmp(Wrap(lo), IncSeq(Wrap(hi))) <= 0 <==> lo <= hi + 1
  {
    IncRefines(hi);
    CmpRefines(lo, hi + 1);
  }

  /** When interval k reaches no other, the coalescing loop is done. */
  lemma {:induction false} Settled(size: int, anchor: int, ns: seq<Node>, pos: seq<int>, d1: seq<int>, d2: seq<int>,
                                   nx: seq<int>,
                                   head: int, length: int, last: int, k: int)
    requires Rep(size, anchor, ns, pos, d1, d2, nx, head, length, last)
    requires OrderedBut(ns, k) && 0 <= k < |ns| && |pos| == |ns| && 0 <= pos[k] < |d2| == |nx|
    requires nx[pos[k]] == -1 || d2[pos[k]] == -1 || (k + 1 < |ns| && ns[k].hi < ns[k + 1].lo)
    ensures Ordered(ns)
  {
    RepAt(size, anchor, ns, pos, d1, d2, nx, head, length, last, k);
  }

  lemma {:induction false} AbsorbRep(size: int, anchor: int, ns: seq<Node>, pos: seq<int>, d1: seq<int>, d2: seq<int>,
                                     nx: seq<int>,
                                     head: int, length: int, k: int, d1': seq<int>, d2': seq<int>, nx': seq<int>,
                                     length': int)
    requires 0 <= k && k + 1 < |ns| && OrderedBut(ns, k) && ns[k + 1].lo <= ns[k].hi + 1
    requires |pos| == |ns| && Rep(size, anchor, ns, pos, d1, d2, nx, head, length, pos[k])
    requires var b := pos[k + 1];
             && d1' == d1[b := -1]
             && d2' == d2[pos[k] := EndOf(Node(ns[k].lo, Max(ns[k].hi, ns[k + 1].hi)))][b := -1]
             && nx' == nx[pos[k] := nx[b]]
             && length' == length - (Min(ns[k].hi, ns[k + 1].hi) - ns[k + 1].lo + 1)
    ensures Rep(size, anchor, Absorbed(ns, k), Without(pos, k + 1), d1', d2', nx', head, length', pos[k])
    ensures OrderedBut(Absorbed(ns, k), k) && Members(Absorbed(ns, k)) == Members(ns)
    ensures |Absorbed(ns, k)| == |Without(pos, k + 1)| == |ns| - 1 && Without(pos, k + 1)[k] == pos[k]
  {
    AbsorbHolds(size, anchor, ns, pos, d1, d2, nx, k);
    AbsorbedMembers(ns, k);
    AbsorbedOrder(size, ns, k);
  }

  // ---------- the array effect of each list operation ----------

  lemma {:induction false} AbsorbHolds(size: int, anchor: int, ns: seq<Node>, pos: seq<int>, d1: seq<int>, d2: seq<int>,
                                       nx: seq<int>, k: int)
    requires Holds(size, anchor, ns, pos, d1, d2, nx) && 0 <= k && k + 1 < |ns|
    ensures var n := Node(ns[k].lo, Max(ns[k].hi, ns[k + 1].hi));
            Holds(size, anchor, Absorbed(ns, k), Without(pos, k + 1),
              d1[pos[k + 1] := -1], d2[pos[k] := EndOf(n)][pos[k + 1] := -1], nx[pos[k] := nx[pos[k + 1]]])
    ensures forall x :: x in Without(pos, k + 1) <==> x in pos && x != pos[k + 1]
  {
    var n := Node(ns[k].lo, Max(ns[k].hi, ns[k + 1].hi));
    SetEndStored(size, anchor, ns, pos, d1, d2, k, n.hi);
    RemoveStored(size, anchor, ns[k := n], pos, d1, d2[pos[k] := EndOf(n)], k + 1);
    RemovePlaced(size, anchor, ns[k := n], pos, k + 1);
    RemoveChained(size, pos, nx, k + 1);
  }

  /** The list without its first interval. */
  lemma {:induction false} DropRep(size: int, anchor: int, ns: seq<Node>, pos: seq<int>, d1: seq<int>, d2: seq<int>,
                                   nx: seq<int>,
                                   length: int, last: int)
    requires ns != [] && |pos| == |ns| && Rep(size, anchor, ns, pos, d1, d2, nx, pos[0], length, last)
    ensures Rep(size, anchor, ns[1..], pos[1..], d1[pos[0] := -1], d2[pos[0] := -1], nx,
                if |ns| > 1 then pos[1] else -1, length - Len(ns[0]), if last == pos[0] then -1 else last)
  {
    DropHolds(size, anchor, ns, pos, d1, d2, nx);
    DropWindow(size, ns);
  }

  lemma {:induction false} DropWindow(size: int, ns: seq<Node>)
    requires ns != [] && Window(size, ns)
    ensures Window(size, ns[1..])
  {
  }

  lemma {:induction false} DropHolds(size: int, anchor: int, ns: seq<Node>, pos: seq<int>, d1: seq<int>, d2: seq<int>,
                                     nx: seq<int>)
    requires ns != [] && Holds(size, anchor, ns, pos, d1, d2, nx)
    ensures Holds(size, anchor, ns[1..], pos[1..], d1[pos[0] := -1], d2[pos[0] := -1], nx)
    ensures forall x :: x in pos[1..] <==> x in pos && x != pos[0]
  {
    var ns', pos' := Without(ns, 0), Without(pos, 0);
    assert ns' == ns[1..] && pos' == pos[1..];
    RemovePlaced(size, anchor, ns, pos, 0);
    RemoveStored(size, anchor, ns, pos, d1, d2, 0);
    DropChained(size, pos, nx);
  }

  lemma {:induction false} DropChained(size: int, pos: seq<int>, nx: seq<int>)
    requires pos != [] && Chained(size, pos, nx)
    ensures Chained(size, pos[1..], nx)
  {
    var q := pos[1..];
    forall i | 0 <= i < |q| ensures 0 <= q[i] < size && nx[q[i]] == After(q, i) {
      assert q[i] == pos[i + 1] && After(q, i) == After(pos, i + 1);
    }
  }

  /** The list with a new interval n as the k-th, in a slot of its own. */
  lemma {:induction false} LinkRep(size: int, anchor: int, ns: seq<Node>, pos: seq<int>, d1: seq<int>, d2: seq<int>,
                                   nx: seq<int>,
                                   head: int, length: int, last: int, k: int, n: Node, slot: int, last': int)
    requires Rep(size, anchor, ns, pos, d1, d2, nx, head, length, last) && |pos| == |ns|
    requires 0 <= k <= |ns| && slot == Slot(size, anchor, n.lo) && 0 <= slot < size
    requires n.lo <= n.hi && Window(size, With(ns, k, n))
    requires forall i :: 0 <= i < |ns| ==> ns[i].lo != n.lo && ns[i].lo <= ns[i].hi
    requires last' == last || last' == slot
    ensures slot !in pos && d1[slot] == -1 && d2[slot] == -1
    ensures var nx1 := if k > 0 then nx[pos[k - 1] := slot] else nx;
            Rep(size, anchor, With(ns, k, n), With(pos, k, slot), d1[slot := Wrap(n.lo)], d2[slot := EndOf(n)],
                nx1[slot := if k < |pos| then pos[k] else -1], if k == 0 then slot else head, length + Len(n), last')
  {
    LinkClose(size, ns, k, n);
    InsertPlaced(size, anchor, ns, pos, k, n, slot);
    InsertStored(size, anchor, ns, pos, d1, d2, k, n, slot);
    InsertChained(size, pos, nx, k, slot);
    WithMembers(ns, k, n);
  }

  /** A new interval between its neighbours, in terms of the slot before the new one. */
  lemma {:induction false} LinkAt(size: int, anchor: int, ns: seq<Node>, pos: seq<int>, d1: seq<int>, d2: seq<int>,
                                  nx: seq<int>,
                                  head: int, length: int, last: int, k: int, n: Node, slot: int)
    requires Rep(size, anchor, ns, pos, d1, d2, nx, head, length, last) && |pos| == |ns| && Ordered(ns)
    requires 0 <= k <= |ns| && slot == Slot(size, anchor, n.lo) && 0 <= slot < size
    requires n.lo <= n.hi && Close(size, n.lo, n.hi)
    requires forall i :: 0 <= i < |ns| ==> Close(size, n.lo, ns[i].hi) && Close(size, ns[i].lo, n.hi)
    requires (k > 0 ==> ns[k - 1].hi < n.lo) && (k < |ns| ==> n.lo < ns[k].lo)
    ensures |d1| == |d2| == |nx| == size && d2[slot] == -1
    ensures var prior := if k == 0 then -1 else pos[k - 1];
            && -1 <= prior < size && prior != slot
            && Rep(size, anchor, With(ns, k, n), With(pos, k, slot), d1[slot := Wrap(n.lo)], d2[slot := EndOf(n)],
                   if prior == -1 then nx[slot := head] else nx[prior := slot][slot := nx[prior]],
                   if prior == -1 then slot else head, length + (n.hi - n.lo + 1), slot)
    ensures OrderedBut(With(ns, k, n), k) && Members(With(ns, k, n)) == Members(ns) + Span(n.lo, n.hi)
    ensures |With(pos, k, slot)| == |With(ns, k, n)| > k && With(pos, k, slot)[k] == slot
  {
    hide Rep, Members, Span, Ordered, OrderedBut, Slot, Wrap, EndOf, Close;
    RepWindow(size, anchor, ns, pos, d1, d2, nx, head, length, last);
    FitsWith(size, ns, k, n);
    LinkOrder(ns, k, n);
    WithMembers(ns, k, n);
    RepAt(size, anchor, ns, pos, d1, d2, nx, head, length, last, k - 1);
    LinkFresh(ns, k, n);
    LinkRep(size, anchor, ns, pos, d1, d2, nx, head, length, last, k, n, slot, slot);
  }

  lemma {:induction false} LinkFresh(ns: seq<Node>, k: int, n: Node)
    requires Ordered(ns) && 0 <= k <= |ns|
    requires (k > 0 ==> ns[k - 1].hi < n.lo) && (k < |ns| ==> n.lo < ns[k].lo)
    ensures forall i :: 0 <= i < |ns| ==> ns[i].lo != n.lo && ns[i].lo <= ns[i].hi
  {
    assert forall i :: 0 <= i < k ==> ns[i].hi < n.lo;
    assert forall i :: k <= i < |ns| ==> n.lo < ns[i].lo;
  }

  /** Interval k grown up to hi. */
  lemma {:induction false} GrowAt(size: int, anchor: int, ns: seq<Node>, pos: seq<int>, d1: seq<int>, d2: seq<int>,
                                  nx: seq<int>,
                                  head: int, length: int, last: int, k: int, a: int, hi: int)
    requires Rep(size, anchor, ns, pos, d1, d2, nx, head, length, last) && |pos| == |ns| && Ordered(ns)
    requires 0 <= k < |ns| && ns[k].lo <= a <= ns[k].hi + 1 && ns[k].hi < hi
    requires forall i :: 0 <= i < |ns| ==> Close(size, ns[i].lo, hi)
    ensures var t := ns[k := Node(ns[k].lo, hi)];
            && Rep(size, anchor, t, pos, d1, d2[pos[k] := Wrap(hi)], nx, head, length + (hi - ns[k].hi), pos[k])
            && OrderedBut(t, k) && Members(t) == Members(ns) + Span(a, hi)
  {
    FitsGrown(size, ns, k, hi);
    GrowOrder(ns, k, hi);
    GrowMembers(ns, k, a, hi);
    SetEndRep(size, anchor, ns, pos, d1, d2, nx, head, length, last, k, hi, pos[k]);
  }

  lemma {:induction false} LinkClose(size: int, ns: seq<Node>, k: int, n: Node)
    requires 0 <= k <= |ns| && n.lo <= n.hi && Window(size, With(ns, k, n))
    requires forall i :: 0 <= i < |ns| ==> ns[i].lo <= ns[i].hi
    ensures forall i :: 0 <= i < |ns| ==> -size < ns[i].lo - n.lo < size
  {
    var q := With(ns, k, n);
    forall i | 0 <= i < |ns| ensures -size < ns[i].lo - n.lo < size {
      var j := if i < k then i else i + 1;
      assert q[j] == ns[i] && q[k] == n;
      assert Close(size, q[j].lo, q[k].hi) && Close(size, q[k].lo, q[j].hi);
    }
  }

  lemma {:induction false} WithMembers(ns: seq<Node>, k: int, n: Node)
    requires 0 <= k <= |ns|
    ensures Members(With(ns, k, n)) == Members(ns) + Span(n.lo, n.hi)
    ensures Total(With(ns, k, n)) == Total(ns) + Len(n)
  {
    hide Members, Total, Span, Len;
    var q, a, b := With(ns, k, n), ns[..k], ns[k..];
    MembersAppend(a + [n], b);
    MembersAppend(a, [n]);
    MembersOne(n);
    assert ns == a + b;
    MembersAppend(a, b);
    UnionSwap(Members(a), Span(n.lo, n.hi), Members(b), Members(q), Members(ns));
  }

  lemma {:induction false} UnionSwap(a: set<int>, b: set<int>, c: set<int>, abc: set<int>, ac: set<int>)
    requires abc == a + b + c && ac == a + c
    ensures abc == ac + b
  {
  }

  /** The list with the end of interval k moved. */
  lemma {:induction false} SetEndRep(size: int, anchor: int, ns: seq<Node>, pos: seq<int>, d1: seq<int>, d2: seq<int>,
                                     nx: seq<int>,
                                     head: int, length: int, last: int, k: int, hi: int, last': int)
    requires Rep(size, anchor, ns, pos, d1, d2, nx, head, length, last) && |pos| == |ns| && 0 <= k < |ns|
    requires ns[k].lo <= ns[k].hi && ns[k].lo <= hi && Window(size, ns[k := Node(ns[k].lo, hi)])
    requires last' == last || last' == pos[k]
    ensures var n := Node(ns[k].lo, hi);
            Rep(size, anchor, ns[k := n], pos, d1, d2[pos[k] := EndOf(n)], nx, head, length + (hi - ns[k].hi), last')
  {
    SetEndStored(size, anchor, ns, pos, d1, d2, k, hi);
    SetEndMembers(ns, k, hi);
  }

  lemma {:induction false} SetEndMembers(ns: seq<Node>, k: int, hi: int)
    requires 0 <= k < |ns| && ns[k].lo <= ns[k].hi && ns[k].lo <= hi
    ensures var t := ns[k := Node(ns[k].lo, hi)];
            && Total(t) == Total(ns) + (hi - ns[k].hi)
            && Members(t) == Members(ns[..k]) + Span(ns[k].lo, hi) + Members(ns[k + 1..])
  {
    var t := ns[k := Node(ns[k].lo, hi)];
    Around(ns, k);
    Around(t, k);
    assert t[..k] == ns[..k] && t[k + 1..] == ns[k + 1..];
  }

  // ---------- finding intervals ----------

  /** The new numbers a..b and the ones in s fit one window. */
  ghost predicate Fits(size: int, s: set<int>, a: int, b: int)
  {
    && a <= b && Close(size, a, b)
    && forall n :: n in s ==> Close(size, a, n) && Close(size, n, b)
  }

  lemma {:induction false} FitsNodes(size: int, ns: seq<Node>, a: int, b: int)
    requires Ordered(ns) && Fits(size, Members(ns), a, b)
    ensures forall i :: 0 <= i < |ns| ==> Close(size, a, ns[i].hi) && Close(size, ns[i].lo, b)
  {
    forall i | 0 <= i < |ns| ensures Close(size, a, ns[i].hi) && Close(size, ns[i].lo, b) {
      InMembers(ns, ns[i].lo);
      InMembers(ns, ns[i].hi);
    }
  }

  /** The slot the code computes for number a from the head, and the offset it uses. */
  lemma {:induction false} SlotFromHead(size: int, anchor: int, lo: int, a: int, head: int)
    requires size > 0 && head == Slot(size, anchor, lo) && Near(lo, a)
    ensures SeqOff(Wrap(lo), Wrap(a)) == a - lo
    ensures (head + (a - lo) + size) % size == Slot(size, anchor, a)
    ensures (head + (a - lo)) % size == Slot(size, anchor, a)
    ensures 0 <= Slot(size, anchor, a) < size
  {
    OffRefines(lo, a);
    SlotWalk(size, anchor, lo, a - lo);
    SlotBounds(size, anchor, a);
  }

  /** A slot whose start entry reads a belongs to the interval starting there, and no other slot does. */
  lemma {:induction false} StartsAt(size: int, anchor: int, ns: seq<Node>, pos: seq<int>, d1: seq<int>, d2: seq<int>,
                                    a: int) returns (k: int)
    requires Placed(size, anchor, ns, pos) && Stored(size, ns, pos, d1, d2)
    requires forall i :: 0 <= i < |ns| ==> Near(ns[i].lo, a)
    ensures 0 <= Slot(size, anchor, a) < size
    ensures d1[Slot(size, anchor, a)] == Wrap(a) ==> 0 <= k < |ns| && pos[k] == Slot(size, anchor, a) && ns[k].lo == a
    ensures d1[Slot(size, anchor, a)] != Wrap(a) ==> forall i :: 0 <= i < |ns| ==> ns[i].lo != a
  {
    var slot := Slot(size, anchor, a);
    SlotBounds(size, anchor, a);
    k := 0;
    if d1[slot] == Wrap(a) {
      assert slot in pos;
      k :| 0 <= k < |pos| && pos[k] == slot;
      WrapInjective(ns[k].lo, a);
    }
  }

  lemma {:induction false} FitsWith(size: int, ns: seq<Node>, k: int, n: Node)
    requires Window(size, ns) && 0 <= k <= |ns| && Close(size, n.lo, n.hi)
    requires forall i :: 0 <= i < |ns| ==> Close(size, n.lo, ns[i].hi) && Close(size, ns[i].lo, n.hi)
    ensures Window(size, With(ns, k, n))
  {
  }

  lemma {:induction false} FitsGrown(size: int, ns: seq<Node>, k: int, hi: int)
    requires Window(size, ns) && 0 <= k < |ns|
    requires forall i :: 0 <= i < |ns| ==> Close(size, ns[i].lo, hi)
    ensures Window(size, ns[k := Node(ns[k].lo, hi)])
  {
  }

  /** A new interval between its neighbours may at most reach into the ones after it. */
  lemma {:induction false} LinkOrder(ns: seq<Node>, k: int, n: Node)
    requires Ordered(ns) && 0 <= k <= |ns| && n.lo <= n.hi
    requires k > 0 ==> ns[k - 1].hi < n.lo
    requires k < |ns| ==> n.lo < ns[k].lo
    ensures OrderedBut(With(ns, k, n), k)
  {
    var q := With(ns, k, n);
    assert forall i :: 0 <= i < k ==> ns[i].hi < n.lo;
    assert forall i :: k <= i < |ns| ==> n.lo < ns[i].lo;
    forall i, j | 0 <= i < j < |q| ensures q[i].lo < q[j].lo && (i != k ==> q[i].hi < q[j].lo) {
      assert i < k ==> q[i] == ns[i];
      assert i > k ==> q[i] == ns[i - 1];
      assert j < k ==> q[j] == ns[j];
      assert j > k ==> q[j] == ns[j - 1];
    }
  }

  lemma {:induction false} GrowOrder(ns: seq<Node>, k: int, hi: int)
    requires Ordered(ns) && 0 <= k < |ns| && ns[k].hi <= hi
    ensures OrderedBut(ns[k := Node(ns[k].lo, hi)], k)
  {
  }

  /** Growing interval k to hi adds the numbers from anywhere inside it up to hi. */
  lemma {:induction false} GrowMembers(ns: seq<Node>, k: int, a: int, hi: int)
    requires 0 <= k < |ns| && ns[k].lo <= a <= ns[k].hi + 1 && ns[k].hi <= hi && ns[k].lo <= ns[k].hi
    ensures Members(ns[k := Node(ns[k].lo, hi)]) == Members(ns) + Span(a, hi)
  {
    SetEndMembers(ns, k, hi);
    Around(ns, k);
    assert Span(ns[k].lo, hi) == Span(ns[k].lo, ns[k].hi) + Span(a, hi);
  }

  /** An interval that already covers a..b adds nothing. */
  lemma {:induction false} Covered(ns: seq<Node>, k: int, a: int, b: int)
    requires 0 <= k < |ns| && ns[k].lo <= a && b <= ns[k].hi
    ensures Span(a, b) <= Members(ns)
  {
    Around(ns, k);
  }

  lemma {:induction false} TotalZero(ns: seq<Node>)
    requires Ordered(ns) && Total(ns) == 0
    ensures ns == []
  {
  }

  /** What the search for the last interval before a reads at interval k. */
  lemma {:induction false} SearchAt(size: int, anchor: int, ns: seq<Node>, pos: seq<int>, d1: seq<int>, d2: seq<int>,
                                    nx: seq<int>,
                                    head: int, length: int, last: int, a: int, k: int)
    requires Rep(size, anchor, ns, pos, d1, d2, nx, head, length, last) && 0 <= k < |ns|
    requires forall j :: 0 <= j < |ns| ==> Near(ns[j].lo, a)
    ensures |d1| == |nx| == size && |pos| == |ns| && 0 <= pos[k] < size
    ensures k + 1 == |ns| ==> nx[pos[k]] == -1
    ensures k + 1 < |ns| ==>
              && nx[pos[k]] == pos[k + 1] && 0 <= pos[k + 1] < size && 0 <= d1[pos[k + 1]] <= MAX_SEQ_NO
              && (SeqCmp(d1[pos[k + 1]], Wrap(a)) < 0 <==> ns[k + 1].lo < a)
  {
    RepAt(size, anchor, ns, pos, d1, d2, nx, head, length, last, k);
    RepAt(size, anchor, ns, pos, d1, d2, nx, head, length, last, k + 1);
    if k + 1 < |ns| { CmpRefines(ns[k + 1].lo, a); }
  }

  /** The slot after the head, and what the code reads there, when the first interval is no single number. */
  lemma {:induction false} ShiftSlot(size: int, anchor: int, ns: seq<Node>, pos: seq<int>, d1: seq<int>, d2: seq<int>,
                                     nx: seq<int>,
                                     head: int, length: int, last: int, loc: int)
    requires Rep(size, anchor, ns, pos, d1, d2, nx, head, length, last) && Ordered(ns)
    requires ns != [] && ns[0].lo < ns[0].hi && size > 0 && loc == (head + 1) % size
    ensures |d1| == |d2| == |nx| == size && |pos| == |ns| && 0 <= head < size && head == pos[0]
    ensures d1[head] == Wrap(ns[0].lo) && d2[head] == Wrap(ns[0].hi) && nx[head] == if |ns| > 1 then pos[1] else -1
    ensures loc == Slot(size, anchor, ns[0].lo + 1) && 0 <= loc < size && loc != head && d2[loc] == -1
    ensures IncSeq(d1[head]) == Wrap(ns[0].lo + 1)
    ensures SeqCmp(d2[head], Wrap(ns[0].lo + 1)) > 0 <==> ns[0].lo + 1 < ns[0].hi
  {
    RepAt(size, anchor, ns, pos, d1, d2, nx, head, length, last, 0);
    var lo := ns[0].lo;
    SlotWalk(size, anchor, lo, 1);
    SlotBounds(size, anchor, lo + 1);
    SlotInjective(size, anchor, lo, lo + 1);
    IncRefines(lo);
    CmpRefines(ns[0].hi, lo + 1);
    forall i | 0 <= i < |ns| ensures pos[i] != Slot(size, anchor, lo + 1) {
      SlotInjective(size, anchor, ns[i].lo, lo + 1);
      assert Close(size, lo, ns[i].hi);
    }
  }

  /** The first interval without its first number, moved to the next slot. */
  lemma {:induction false} RepWindow(size: int, anchor: int, ns: seq<Node>, pos: seq<int>, d1: seq<int>, d2: seq<int>,
                                     nx: seq<int>, head: int, length: int, last: int)
    requires Rep(size, anchor, ns, pos, d1, d2, nx, head, length, last)
    ensures Window(size, ns)
  {
  }

  lemma {:induction false} ShiftRep(size: int, anchor: int, ns: seq<Node>, pos: seq<int>, d1: seq<int>, d2: seq<int>,
                                    nx: seq<int>,
                                    head: int, length: int, last: int, loc: int)
    requires Rep(size, anchor, ns, pos, d1, d2, nx, head, length, last) && Ordered(ns)
    requires ns != [] && |pos| == |ns| && ns[0].lo < ns[0].hi && head == pos[0]
    requires loc == Slot(size, anchor, ns[0].lo + 1) && 0 <= loc < size && 0 <= head < |d1| == |d2| == |nx| == size
    requires nx[head] == if |ns| > 1 then pos[1] else -1
    ensures var n := Node(ns[0].lo + 1, ns[0].hi);
            && Rep(size, anchor, [n] + ns[1..], [loc] + pos[1..],
                   d1[head := -1][loc := Wrap(n.lo)], d2[head := -1][loc := EndOf(n)],
                   nx[loc := nx[head]], loc, length - 1, if last == head then -1 else last)
            && Ordered([n] + ns[1..])
  {
    hide Rep, Wrap, EndOf, Slot;
    var n := Node(ns[0].lo + 1, ns[0].hi);
    var last', rest, rpos := if last == head then -1 else last, ns[1..], pos[1..];
    RepWindow(size, anchor, ns, pos, d1, d2, nx, head, length, last);
    DropRep(size, anchor, ns, pos, d1, d2, nx, length, last);
    ShiftOrder(size, ns);
    assert With(rest, 0, n) == [n] + rest && With(rpos, 0, loc) == [loc] + rpos;
    LinkRep(size, anchor, rest, rpos, d1[head := -1], d2[head := -1], nx, nx[head], length - Len(ns[0]),
            last', 0, n, loc, last');
  }

  /** Both together, as the method that moves the first node needs them. */
  lemma {:induction false} ShiftBoth(size: int, anchor: int, ns: seq<Node>, pos: seq<int>, d1: seq<int>, d2: seq<int>,
                                     nx: seq<int>,
                                     head: int, length: int, last: int, loc: int)
    requires Rep(size, anchor, ns, pos, d1, d2, nx, head, length, last) && Ordered(ns)
    requires ns != [] && ns[0].lo < ns[0].hi && size > 0 && loc == (head + 1) % size
    ensures |d1| == |d2| == |nx| == size && |pos| == |ns| && 0 <= head < size
    ensures d1[head] == Wrap(ns[0].lo) && d2[head] == Wrap(ns[0].hi)
    ensures 0 <= loc < size && loc != head && d2[loc] == -1 && IncSeq(d1[head]) == Wrap(ns[0].lo + 1)
    ensures SeqCmp(d2[head], Wrap(ns[0].lo + 1)) > 0 <==> ns[0].lo + 1 < ns[0].hi
    ensures var n := Node(ns[0].lo + 1, ns[0].hi);
            && Rep(size, anchor, [n] + ns[1..], [loc] + pos[1..],
                   d1[head := -1][loc := Wrap(n.lo)], d2[head := -1][loc := EndOf(n)],
                   nx[loc := nx[head]], loc, length - 1, if last == head then -1 else last)
            && Ordered([n] + ns[1..])
  {
    hide Rep, Ordered;
    ShiftSlot(size, anchor, ns, pos, d1, d2, nx, head, length, last, loc);
    ShiftRep(size, anchor, ns, pos, d1, d2, nx, head, length, last, loc);
  }

  lemma {:induction false} ShiftOrder(size: int, ns: seq<Node>)
    requires Ordered(ns) && Window(size, ns) && ns != [] && ns[0].lo < ns[0].hi
    ensures var n := Node(ns[0].lo + 1, ns[0].hi);
            && Ordered([n] + ns[1..]) && Window(size, With(ns[1..], 0, n))
            && forall i :: 0 <= i < |ns[1..]| ==> ns[1..][i].lo != n.lo && ns[1..][i].lo <= ns[1..][i].hi
  {
    var n := Node(ns[0].lo + 1, ns[0].hi);
    var t := [n] + ns[1..];
    assert With(ns[1..], 0, n) == t;
    assert forall i :: 1 <= i < |t| ==> t[i] == ns[i];
    assert forall i :: 0 <= i < |t| ==> ns[i].lo <= t[i].lo && t[i].hi == ns[i].hi;
    forall i, j | 0 <= i < |t| && 0 <= j < |t| ensures Close(size, t[i].lo, t[j].hi) {
      assert Close(size, ns[i].lo, ns[j].hi);
    }
  }

  /** Interval k cut after number n: its upper part becomes an interval of its own. */
  ghost function SplitAt(ns: seq<Node>, k: int, n: int): seq<Node>
    requires 0 <= k < |ns|
  {
    With(ns[k := Node(ns[k].lo, n)], k + 1, Node(n + 1, ns[k].hi))
  }

  /** A cut puts the upper part in the slot of n + 1. */
  lemma {:induction false} SplitRep(size: int, anchor: int, ns: seq<Node>, pos: seq<int>, d1: seq<int>, d2: seq<int>,
                                    nx: seq<int>,
                                    head: int, length: int, last: int, k: int, n: int, loc: int)
    requires Rep(size, anchor, ns, pos, d1, d2, nx, head, length, last) && Ordered(ns) && |pos| == |ns|
    requires 0 <= k < |ns| && ns[k].lo <= n < ns[k].hi && loc == Slot(size, anchor, n + 1)
    ensures 0 <= loc < size && 0 <= pos[k] < size && pos[k] != loc && |d1| == |d2| == |nx| == size && d2[loc] == -1
    ensures d2[pos[k]] == Wrap(ns[k].hi) && ns[k].hi - n < SEQ_NO_TH
    ensures Rep(size, anchor, SplitAt(ns, k, n), With(pos, k + 1, loc), d1[loc := Wrap(n + 1)],
                   d2[pos[k] := EndOf(Node(ns[k].lo, n))][loc := EndOf(Node(n + 1, ns[k].hi))],
                   nx[pos[k] := loc][loc := nx[pos[k]]], head, length, last)
    ensures Ordered(SplitAt(ns, k, n)) && Members(SplitAt(ns, k, n)) == Members(ns)
    ensures |SplitAt(ns, k, n)| == |With(pos, k + 1, loc)| == |ns| + 1 && With(pos, k + 1, loc)[k + 1] == loc
    ensures SplitAt(ns, k, n)[k].hi == n && SplitAt(ns, k, n)[k + 1].lo == n + 1
  {
    var low, high := Node(ns[k].lo, n), Node(n + 1, ns[k].hi);
    var mid := ns[k := low];
    SlotBounds(size, anchor, n + 1);
    RepAt(size, anchor, ns, pos, d1, d2, nx, head, length, last, k);
    SplitShape(size, ns, pos, k, n, loc);
    SetEndRep(size, anchor, ns, pos, d1, d2, nx, head, length, last, k, n, last);
    LinkRep(size, anchor, mid, pos, d1, d2[pos[k] := EndOf(low)], nx, head, length + (n - ns[k].hi),
            last, k + 1, high, loc, last);
  }

  lemma {:induction false} SplitShape(size: int, ns: seq<Node>, pos: seq<int>, k: int, n: int, loc: int)
    requires Ordered(ns) && Window(size, ns) && |pos| == |ns| && 0 <= k < |ns| && ns[k].lo <= n < ns[k].hi
    ensures var mid, high := ns[k := Node(ns[k].lo, n)], Node(n + 1, ns[k].hi);
            && Window(size, mid) && Window(size, With(mid, k + 1, high)) && Ordered(With(mid, k + 1, high))
            && forall i :: 0 <= i < |mid| ==> mid[i].lo != high.lo && mid[i].lo <= mid[i].hi
    ensures Members(SplitAt(ns, k, n)) == Members(ns)
    ensures |SplitAt(ns, k, n)| == |With(pos, k + 1, loc)| == |ns| + 1 && With(pos, k + 1, loc)[k + 1] == loc
    ensures SplitAt(ns, k, n)[k].hi == n && SplitAt(ns, k, n)[k + 1].lo == n + 1
  {
    SplitOrder(ns, k, n);
    SplitWindow(size, ns, k, n);
    SplitMembers(ns, k, n);
  }

  lemma {:induction false} SplitWindow(size: int, ns: seq<Node>, k: int, n: int)
    requires Window(size, ns) && 0 <= k < |ns| && ns[k].lo <= n < ns[k].hi
    ensures var mid := ns[k := Node(ns[k].lo, n)];
            Window(size, mid) && Window(size, With(mid, k + 1, Node(n + 1, ns[k].hi)))
  {
    var mid, high := ns[k := Node(ns[k].lo, n)], Node(n + 1, ns[k].hi);
    assert forall i :: 0 <= i < |ns| ==> mid[i].lo == ns[i].lo && mid[i].hi <= ns[i].hi;
    forall i | 0 <= i < |ns| ensures Close(size, high.lo, mid[i].hi) && Close(size, mid[i].lo, high.hi) {
      assert Close(size, ns[k].lo, ns[i].hi) && Close(size, ns[i].lo, ns[k].hi);
    }
    forall i, j | 0 <= i < |ns| && 0 <= j < |ns| ensures Close(size, mid[i].lo, mid[j].hi) {
      assert Close(size, ns[i].lo, ns[j].hi);
    }
    assert Close(size, ns[k].lo, ns[k].hi);
    FitsWith(size, mid, k + 1, high);
  }

  lemma {:induction false} SplitOrder(ns: seq<Node>, k: int, n: int)
    requires Ordered(ns) && 0 <= k < |ns| && ns[k].lo <= n < ns[k].hi
    ensures var mid, high := ns[k := Node(ns[k].lo, n)], Node(n + 1, ns[k].hi);
            && Ordered(With(mid, k + 1, high))
            && forall i :: 0 <= i < |mid| ==> mid[i].lo != high.lo && mid[i].lo <= mid[i].hi
  {
    var mid, high := ns[k := Node(ns[k].lo, n)], Node(n + 1, ns[k].hi);
    assert Ordered(mid);
    assert forall i :: k < i < |ns| ==> high.hi < mid[i].lo;
    assert forall i :: 0 <= i <= k ==> mid[i].hi < high.lo;
  }

  lemma {:induction false} SplitMembers(ns: seq<Node>, k: int, n: int)
    requires 0 <= k < |ns| && ns[k].lo <= n < ns[k].hi
    ensures Members(SplitAt(ns, k, n)) == Members(ns)
  {
    var mid, a, b := ns[k := Node(ns[k].lo, n)], Members(ns[..k]), Members(ns[k + 1..]);
    WithMembers(mid, k + 1, Node(n + 1, ns[k].hi));
    SetEndMembers(ns, k, n);
    Around(ns, k);
    assert Span(ns[k].lo, ns[k].hi) == Span(ns[k].lo, n) + Span(n + 1, ns[k].hi);
    UnionSplit(a, Span(ns[k].lo, n), Span(n + 1, ns[k].hi), b);
  }

  lemma {:induction false} UnionSplit(a: set<int>, low: set<int>, high: set<int>, b: set<int>)
    ensures a + low + b + high == a + (low + high) + b
  {
  }

  /** The intervals after a cut at n hold exactly the members above n. */
  lemma {:induction false} MembersAbove(ns: seq<Node>, t: int, n: int)
    requires 0 <= t <= |ns|
    requires forall i :: 0 <= i < t ==> ns[i].hi <= n
    requires forall i :: t <= i < |ns| ==> n < ns[i].lo
    ensures Members(ns[t..]) == set x | x in Members(ns) && x > n
  {
    assert ns == ns[..t] + ns[t..];
    MembersAppend(ns[..t], ns[t..]);
    forall x | x in Members(ns[..t]) ensures x <= n {
      InMembers(ns[..t], x);
    }
    forall x | x in Members(ns[t..]) ensures x > n {
      InMembers(ns[t..], x);
    }
  }

  /** The first number of an ordered list is its least. */
  lemma {:induction false} FirstIsLeast(ns: seq<Node>)
    requires Ordered(ns) && ns != []
    ensures ns[0].lo in Members(ns) && forall x :: x in Members(ns) ==> ns[0].lo <= x
  {
    assert ns[0].lo in Span(ns[0].lo, ns[0].hi);
    forall x | x in Members(ns) ensures ns[0].lo <= x {
      InMembers(ns, x);
    }
  }
}