/** The predecessor array of the receiver's loss list, and the array updates of its operations. */
module RcvLossArrays {
  import opened Numbers
  import opened SeqNo
  import opened Intervals
  import opened LossArrays

  /** The slot before the i-th in list order, or -1. */
  ghost function Before(pos: seq<int>, i: int): int
    requires 0 <= i < |pos|
  {
    if i > 0 then pos[i - 1] else -1
  }

  ghost predicate BackChained(size: int, pos: seq<int>, pr: seq<int>)
  {
    && |pr| == size
    && (forall i {:trigger Before(pos, i)} :: 0 <= i < |pos| ==> 0 <= pos[i] < size && pr[pos[i]] == Before(pos, i))
  }

  /** next and prior are mutually inverse on the slots in use. */
  lemma {:induction false} LinksInverse(size: int, pos: seq<int>, nx: seq<int>, pr: seq<int>, i: int)
    requires Distinct(size, pos) && Chained(size, pos, nx) && BackChained(size, pos, pr) && 0 <= i < |pos|
    ensures nx[pos[i]] != -1 ==> 0 <= nx[pos[i]] < size && pr[nx[pos[i]]] == pos[i]
    ensures pr[pos[i]] != -1 ==> 0 <= pr[pos[i]] < size && nx[pr[pos[i]]] == pos[i]
  {
    assert nx[pos[i]] == After(pos, i) && pr[pos[i]] == Before(pos, i);
    if i + 1 < |pos| { assert pr[pos[i + 1]] == Before(pos, i + 1); }
    if i > 0 { assert nx[pos[i - 1]] == After(pos, i - 1); }
  }

  /** The fields of the receiver's list hold these intervals; the tail is meaningful while there are some. */
  ghost predicate RcvRep(size: int, anchor: int, ns: seq<Node>, pos: seq<int>, d1: seq<int>, d2: seq<int>, nx: seq<int>,
                         pr: seq<int>,
                         head: int, tail: int, length: int)
  {
    && Holds(size, anchor, ns, pos, d1, d2, nx)
    && BackChained(size, pos, pr)
    && Window(size, ns)
    && Ordered(ns)
    && head == (if pos == [] then -1 else pos[0])
    && (pos != [] ==> tail == pos[|pos| - 1])
    && length == Total(ns)
  }

  lemma {:induction false} RcvRepAt(size: int, anchor: int, ns: seq<Node>, pos: seq<int>, d1: seq<int>, d2: seq<int>,
                                    nx: seq<int>, pr: seq<int>,
                                    head: int, tail: int, length: int, k: int)
    requires RcvRep(size, anchor, ns, pos, d1, d2, nx, pr, head, tail, length)
    ensures size > 0 && |d1| == |d2| == |nx| == |pr| == size && |pos| == |ns|
    ensures length == Total(ns) && head == (if ns == [] then -1 else pos[0])
    ensures ns != [] ==> tail == pos[|ns| - 1]
    ensures Distinct(size, pos) && Ordered(ns) && Window(size, ns)
    ensures 0 <= k < |ns| ==> NodeAt(size, anchor, ns, pos, d1, d2, nx, pr, k)
  {
    if 0 <= k < |ns| {
      assert nx[pos[k]] == After(pos, k) && pr[pos[k]] == Before(pos, k);
    }
  }

  /** Interval k as the operations read it. */
  ghost predicate NodeAt(size: int, anchor: int, ns: seq<Node>, pos: seq<int>, d1: seq<int>, d2: seq<int>, nx: seq<int>,
                         pr: seq<int>, k: int)
    requires size > 0 && |d1| == |d2| == |nx| == |pr| == size && |pos| == |ns| && 0 <= k < |ns|
  {
    && 0 <= pos[k] < size && pos[k] == Slot(size, anchor, ns[k].lo)
    && d1[pos[k]] == Wrap(ns[k].lo) && d2[pos[k]] == EndOf(ns[k]) && ns[k].lo <= ns[k].hi
    && nx[pos[k]] == (if k + 1 < |ns| then pos[k + 1] else -1)
    && pr[pos[k]] == (if k > 0 then pos[k - 1] else -1)
    && Close(size, ns[k].lo, ns[k].hi)
  }

  /** Which interval the head and the tail are; neighbours have slots of their own. */
  lemma {:induction false} EndsAt(size: int, pos: seq<int>, k: int)
    requires Distinct(size, pos) && 0 <= k < |pos|
    ensures pos[k] == pos[0] <==> k == 0
    ensures pos[k] == pos[|pos| - 1] <==> k == |pos| - 1
    ensures k > 0 ==> 0 <= pos[k - 1] < size && pos[k - 1] != pos[k]
    ensures k + 1 < |pos| ==> 0 <= pos[k + 1] < size && pos[k + 1] != pos[k]
  {
  }

  // ---------- the predecessor array under the elementary updates ----------

  lemma {:induction false} RemoveBack(size: int, pos: seq<int>, pr: seq<int>, k: int)
    requires Distinct(size, pos) && BackChained(size, pos, pr) && 0 <= k < |pos|
    ensures BackChained(size, Without(pos, k), if k + 1 < |pos| then pr[pos[k + 1] := pr[pos[k]]] else pr)
  {
    var q, pr' := Without(pos, k), if k + 1 < |pos| then pr[pos[k + 1] := pr[pos[k]]] else pr;
    forall i | 0 <= i < |q| ensures 0 <= q[i] < size && pr'[q[i]] == Before(q, i) {
      WithoutAt(pos, k, i);
      var j := if i < k then i else i + 1;
      assert pr[pos[j]] == Before(pos, j) && pr[pos[k]] == Before(pos, k);
      hide Without, BackChained;
    }
  }

  lemma {:induction false} InsertBack(size: int, pos: seq<int>, pr: seq<int>, k: int, slot: int)
    requires Distinct(size, pos) && BackChained(size, pos, pr) && 0 <= k <= |pos|
    requires 0 <= slot < size && slot !in pos
    ensures var before := if k > 0 then pos[k - 1] else -1;
            BackChained(size, With(pos, k, slot), (if k < |pos| then pr[pos[k] := slot] else pr)[slot := before])
  {
    var q := With(pos, k, slot);
    var pr' := (if k < |pos| then pr[pos[k] := slot] else pr)[slot := if k > 0 then pos[k - 1] else -1];
    forall i | 0 <= i < |q| ensures 0 <= q[i] < size && pr'[q[i]] == Before(q, i) {
      assert q[i] == if i < k then pos[i] else if i == k then slot else pos[i - 1];
      if i != k {
        assert pr[q[i]] == Before(pos, if i < k then i else i - 1);
      }
    }
  }

  // ---------- the whole representation under the list operations ----------

  lemma {:induction false} WithoutOrder(ns: seq<Node>, k: int)
    requires Ordered(ns) && 0 <= k < |ns|
    ensures Ordered(Without(ns, k))
  {
  }

  lemma {:induction false} WithoutMembers(ns: seq<Node>, k: int)
    requires Ordered(ns) && 0 <= k < |ns|
    ensures Total(Without(ns, k)) == Total(ns) - Len(ns[k])
    ensures Members(Without(ns, k)) == Members(ns) - Span(ns[k].lo, ns[k].hi)
  {
    hide Members, Total, Span, Len;
    var a, b, s := ns[..k], ns[k + 1..], Span(ns[k].lo, ns[k].hi);
    Around(ns, k);
    MembersAppend(a, b);
    AllBelow(a, ns[k].lo);
    AllAbove(b, ns[k].hi);
    UnionLess(Members(a), s, Members(b), Members(ns), Members(Without(ns, k)));
  }

  lemma {:induction false} AllBelow(ns: seq<Node>, n: int)
    requires forall i :: 0 <= i < |ns| ==> ns[i].hi < n
    ensures forall x :: x in Members(ns) ==> x < n
  {
    forall x | x in Members(ns) ensures x < n { InMembers(ns, x); }
  }

  lemma {:induction false} AllAbove(ns: seq<Node>, n: int)
    requires forall i :: 0 <= i < |ns| ==> n < ns[i].lo
    ensures forall x :: x in Members(ns) ==> n < x
  {
    forall x | x in Members(ns) ensures n < x { InMembers(ns, x); }
  }

  lemma {:induction false} UnionLess(a: set<int>, s: set<int>, b: set<int>, asb: set<int>, ab: set<int>)
    requires asb == a + s + b && ab == a + b && forall x :: x in s ==> x !in a && x !in b
    ensures ab == asb - s
  {
    forall x ensures x in ab <==> x in asb - s {
      if x in s { assert x !in a && x !in b; }
    }
  }

  lemma {:induction false} WithoutWindow(size: int, ns: seq<Node>, k: int)
    requires Window(size, ns) && 0 <= k < |ns|
    ensures Window(size, Without(ns, k))
  {
  }

  lemma {:induction false} DropHoldsAt(size: int, anchor: int, ns: seq<Node>, pos: seq<int>, d1: seq<int>, d2: seq<int>,
                                       nx: seq<int>, k: int)
    requires Holds(size, anchor, ns, pos, d1, d2, nx) && 0 <= k < |ns|
    ensures Holds(size, anchor, Without(ns, k), Without(pos, k), d1[pos[k] := -1], d2[pos[k] := -1],
                  if k > 0 then nx[pos[k - 1] := nx[pos[k]]] else nx)
  {
    RemovePlaced(size, anchor, ns, pos, k);
    RemoveStored(size, anchor, ns, pos, d1, d2, k);
    if k > 0 {
      RemoveChained(size, pos, nx, k);
    } else {
      assert Without(pos, 0) == pos[1..];
      DropChained(size, pos, nx);
    }
  }

  /** The list without interval k: its neighbours are linked to each other. */
  lemma {:induction false} DropRcv(size: int, anchor: int, ns: seq<Node>, pos: seq<int>, d1: seq<int>, d2: seq<int>,
                                   nx: seq<int>, pr: seq<int>,
                                   head: int, tail: int, length: int, k: int)
    requires RcvRep(size, anchor, ns, pos, d1, d2, nx, pr, head, tail, length) && |pos| == |ns| && 0 <= k < |ns|
    ensures RcvRep(size, anchor, Without(ns, k), Without(pos, k), d1[pos[k] := -1], d2[pos[k] := -1],
                   if k > 0 then nx[pos[k - 1] := nx[pos[k]]] else nx,
                   if k + 1 < |ns| then pr[pos[k + 1] := pr[pos[k]]] else pr,
                   if k > 0 then head else nx[pos[k]], if k + 1 < |ns| then tail else pr[pos[k]], length - Len(ns[k]))
  {
    assert nx[pos[k]] == After(pos, k) && pr[pos[k]] == Before(pos, k);
    DropHoldsAt(size, anchor, ns, pos, d1, d2, nx, k);
    RemoveBack(size, pos, pr, k);
    WithoutOrder(ns, k);
    WithoutMembers(ns, k);
    WithoutWindow(size, ns, k);
    WithoutEnds(pos, k);
  }

  lemma {:induction false} WithoutEnds(pos: seq<int>, k: int)
    requires 0 <= k < |pos|
    ensures var q := Without(pos, k);
            && |q| == |pos| - 1
            && (q != [] ==> q[0] == if k > 0 then pos[0] else pos[1])
            && (q != [] ==> q[|q| - 1] == if k + 1 < |pos| then pos[|pos| - 1] else pos[k - 1])
  {
  }

  lemma {:induction false} LinkHoldsAt(size: int, anchor: int, ns: seq<Node>, pos: seq<int>, d1: seq<int>, d2: seq<int>,
                                       nx: seq<int>, k: int, n: Node, slot: int)
    requires Holds(size, anchor, ns, pos, d1, d2, nx) && 0 <= k <= |ns| && slot == Slot(size, anchor, n.lo)
    requires n.lo <= n.hi && Window(size, With(ns, k, n)) && Ordered(With(ns, k, n))
    ensures 0 <= slot < size && slot !in pos && |d1| == |d2| == |nx| == size && d1[slot] == -1 && d2[slot] == -1
    ensures Holds(size, anchor, With(ns, k, n), With(pos, k, slot), d1[slot := Wrap(n.lo)], d2[slot := EndOf(n)],
                  (if k > 0 then nx[pos[k - 1] := slot] else nx)[slot := if k < |pos| then pos[k] else -1])
  {
    WithOrder(ns, k, n);
    LinkClose(size, ns, k, n);
    SlotBounds(size, anchor, n.lo);
    InsertPlaced(size, anchor, ns, pos, k, n, slot);
    InsertStored(size, anchor, ns, pos, d1, d2, k, n, slot);
    InsertChained(size, pos, nx, k, slot);
  }

  /** The list with a new interval as the k-th, between its neighbours. */
  lemma {:induction false} LinkRcv(size: int, anchor: int, ns: seq<Node>, pos: seq<int>, d1: seq<int>, d2: seq<int>,
                                   nx: seq<int>, pr: seq<int>,
                                   head: int, tail: int, length: int, k: int, n: Node, slot: int)
    requires RcvRep(size, anchor, ns, pos, d1, d2, nx, pr, head, tail, length) && |pos| == |ns|
    requires 0 <= k <= |ns| && slot == Slot(size, anchor, n.lo)
    requires n.lo <= n.hi && Window(size, With(ns, k, n)) && Ordered(With(ns, k, n))
    ensures 0 <= slot < size && slot !in pos && |d1| == |d2| == |nx| == |pr| == size && d1[slot] == -1 && d2[slot] == -1
    ensures RcvRep(size, anchor, With(ns, k, n), With(pos, k, slot), d1[slot := Wrap(n.lo)], d2[slot := EndOf(n)],
                   (if k > 0 then nx[pos[k - 1] := slot] else nx)[slot := if k < |pos| then pos[k] else -1],
                   (if k < |pos| then pr[pos[k] := slot] else pr)[slot := if k > 0 then pos[k - 1] else -1],
                   if k == 0 then slot else head, if k == |pos| then slot else tail, length + Len(n))
  {
    LinkHoldsAt(size, anchor, ns, pos, d1, d2, nx, k, n, slot);
    InsertBack(size, pos, pr, k, slot);
    WithMembers(ns, k, n);
    WithEnds(pos, k, slot);
  }

  lemma {:induction false} WithEnds(pos: seq<int>, k: int, slot: int)
    requires 0 <= k <= |pos|
    ensures var q := With(pos, k, slot);
            && |q| == |pos| + 1
            && q[0] == (if k > 0 then pos[0] else slot)
            && q[|q| - 1] == if k < |pos| then pos[|pos| - 1] else slot
  {
  }

  lemma {:induction false} WithOrder(ns: seq<Node>, k: int, n: Node)
    requires 0 <= k <= |ns| && Ordered(With(ns, k, n))
    ensures forall i :: 0 <= i < |ns| ==> ns[i].lo != n.lo && ns[i].lo <= ns[i].hi
  {
    var q := With(ns, k, n);
    forall i | 0 <= i < |ns| ensures ns[i].lo != n.lo && ns[i].lo <= ns[i].hi {
      assert q[k] == n && q[if i < k then i else i + 1] == ns[i];
    }
  }

  /** The list with the end of interval k moved. */
  lemma {:induction false} SetEndRcv(size: int, anchor: int, ns: seq<Node>, pos: seq<int>, d1: seq<int>, d2: seq<int>,
                                     nx: seq<int>, pr: seq<int>,
                                     head: int, tail: int, length: int, k: int, hi: int)
    requires RcvRep(size, anchor, ns, pos, d1, d2, nx, pr, head, tail, length) && |pos| == |ns| && 0 <= k < |ns|
    requires ns[k].lo <= hi && Window(size, ns[k := Node(ns[k].lo, hi)]) && Ordered(ns[k := Node(ns[k].lo, hi)])
    ensures var n := Node(ns[k].lo, hi);
            RcvRep(size, anchor, ns[k := n], pos, d1, d2[pos[k] := EndOf(n)], nx, pr, head, tail,
                   length + (hi - ns[k].hi))
  {
    SetEndStored(size, anchor, ns, pos, d1, d2, k, hi);
    SetEndMembers(ns, k, hi);
  }

  // ---------- appending above the greatest number ----------

  lemma {:induction false} NextIs(hi: int, a: int)
    requires Near(hi, a) && hi < a
    ensures IncSeq(Wrap(hi)) == Wrap(a) <==> hi + 1 == a
  {
    IncRefines(hi);
    WrapInjective(hi + 1, a);
  }

  lemma {:induction false} AboveAll(size: int, ns: seq<Node>, n: Node)
    requires Ordered(ns) && Window(size, ns) && n.lo <= n.hi
    requires Fits(size, Members(ns), n.lo, n.hi) && forall x :: x in Members(ns) ==> x < n.lo
    ensures Ordered(With(ns, |ns|, n)) && Window(size, With(ns, |ns|, n))
  {
    FitsNodes(size, ns, n.lo, n.hi);
    FitsWith(size, ns, |ns|, n);
    forall i | 0 <= i < |ns| ensures ns[i].hi < n.lo { InMembers(ns, ns[i].hi); }
  }

  /** A new last interval. */
  lemma {:induction false} AppendRcv(size: int, anchor: int, ns: seq<Node>, pos: seq<int>, d1: seq<int>, d2: seq<int>,
                                     nx: seq<int>, pr: seq<int>,
                                     head: int, tail: int, length: int, n: Node, loc: int)
    requires RcvRep(size, anchor, ns, pos, d1, d2, nx, pr, head, tail, length) && ns != []
    requires n.lo <= n.hi && loc == Slot(size, anchor, n.lo)
    requires Fits(size, Members(ns), n.lo, n.hi) && forall x :: x in Members(ns) ==> x < n.lo
    ensures |pos| == |ns| && |d1| == |d2| == |nx| == |pr| == size
    ensures 0 <= tail < size && 0 <= loc < size && tail != loc && d2[loc] == -1
    ensures RcvRep(size, anchor, With(ns, |ns|, n), With(pos, |ns|, loc), d1[loc := Wrap(n.lo)], d2[loc := EndOf(n)],
                   nx[tail := loc][loc := -1], pr[loc := tail], head, loc, length + (n.hi - n.lo + 1))
    ensures Members(With(ns, |ns|, n)) == Members(ns) + Span(n.lo, n.hi)
  {
    RcvRepAt(size, anchor, ns, pos, d1, d2, nx, pr, head, tail, length, |ns| - 1);
    AboveAll(size, ns, n);
    WithMembers(ns, |ns|, n);
    LinkRcv(size, anchor, ns, pos, d1, d2, nx, pr, head, tail, length, |ns|, n, loc);
  }

  /** The last interval grows. */
  lemma {:induction false} GrowRcv(size: int, anchor: int, ns: seq<Node>, pos: seq<int>, d1: seq<int>, d2: seq<int>,
                                   nx: seq<int>, pr: seq<int>,
                                   head: int, tail: int, length: int, a: int, b: int)
    requires RcvRep(size, anchor, ns, pos, d1, d2, nx, pr, head, tail, length) && ns != []
    requires a <= b && ns[|ns| - 1].hi + 1 == a && Fits(size, Members(ns), a, b)
    ensures |d2| == size && 0 <= tail < size
    ensures var ns' := ns[|ns| - 1 := Node(ns[|ns| - 1].lo, b)];
            && RcvRep(size, anchor, ns', pos, d1, d2[tail := Wrap(b)], nx, pr, head, tail, length + (b - a + 1))
            && Members(ns') == Members(ns) + Span(a, b)
  {
    var k := |ns| - 1;
    RcvRepAt(size, anchor, ns, pos, d1, d2, nx, pr, head, tail, length, k);
    FitsNodes(size, ns, a, b);
    FitsGrown(size, ns, k, b);
    GrowMembers(ns, k, a, b);
    GrowLastOrder(ns, b);
    SetEndRcv(size, anchor, ns, pos, d1, d2, nx, pr, head, tail, length, k, b);
  }

  lemma {:induction false} GrowLastOrder(ns: seq<Node>, b: int)
    requires Ordered(ns) && ns != [] && ns[|ns| - 1].hi < b
    ensures Ordered(ns[|ns| - 1 := Node(ns[|ns| - 1].lo, b)])
  {
  }

  /** An empty list, refilled from slot 0. */
  lemma {:induction false} FirstRcv(size: int, anchor: int, pos: seq<int>, d1: seq<int>, d2: seq<int>, nx: seq<int>,
                                    pr: seq<int>,
                                    head: int, tail: int, length: int, n: Node)
    requires RcvRep(size, anchor, [], pos, d1, d2, nx, pr, head, tail, length)
    requires n.lo <= n.hi && Close(size, n.lo, n.hi)
    ensures |d1| == |d2| == |nx| == |pr| == size > 0 && d2[0] == -1
    ensures RcvRep(size, -n.lo, [n], [0], d1[0 := Wrap(n.lo)], d2[0 := EndOf(n)], nx[0 := -1], pr[0 := -1],
                   0, 0, n.hi - n.lo + 1)
    ensures length == 0
  {
    assert RcvRep(size, -n.lo, [], [], d1, d2, nx, pr, -1, -1, 0);
    assert With([], 0, n) == [n] && With([], 0, 0) == [0];
    LinkRcv(size, -n.lo, [], [], d1, d2, nx, pr, -1, -1, 0, 0, n, 0);
  }

  // ---------- deleting one number ----------

  /** An empty list does not use its tail. */
  lemma {:induction false} AnyTail(size: int, anchor: int, ns: seq<Node>, pos: seq<int>, d1: seq<int>, d2: seq<int>,
                                   nx: seq<int>, pr: seq<int>,
                                   head: int, tail: int, length: int, tail': int)
    requires RcvRep(size, anchor, ns, pos, d1, d2, nx, pr, head, tail, length) && (ns == [] || tail == tail')
    ensures RcvRep(size, anchor, ns, pos, d1, d2, nx, pr, head, tail', length)
  {
  }

  /** The links of interval k say whether it is the first and whether it is the last. */
  lemma {:induction false} LinksAt(size: int, anchor: int, ns: seq<Node>, pos: seq<int>, d1: seq<int>, d2: seq<int>,
                                   nx: seq<int>, pr: seq<int>,
                                   head: int, tail: int, length: int, k: int)
    requires RcvRep(size, anchor, ns, pos, d1, d2, nx, pr, head, tail, length) && 0 <= k < |ns|
    ensures |pos| == |ns| && |d1| == |d2| == |nx| == |pr| == size && 0 <= pos[k] < size && d2[pos[k]] == EndOf(ns[k])
    ensures pos[k] == Slot(size, anchor, ns[k].lo) && d1[pos[k]] == Wrap(ns[k].lo)
    ensures (pos[k] == head <==> k == 0) && (pos[k] == tail <==> k == |ns| - 1)
    ensures if k + 1 < |ns| then nx[pos[k]] == pos[k + 1] && 0 <= pos[k + 1] < size && pos[k + 1] != pos[k]
            else nx[pos[k]] == -1
    ensures if k > 0 then pr[pos[k]] == pos[k - 1] && 0 <= pos[k - 1] < size && pos[k - 1] != pos[k]
            else pr[pos[k]] == -1
  {
    hide RcvRep;
    RcvRepAt(size, anchor, ns, pos, d1, d2, nx, pr, head, tail, length, k);
    EndsAt(size, pos, k);
  }

  /** The only number of interval k: the interval goes. */
  lemma {:induction false} UnlinkRcv(size: int, anchor: int, ns: seq<Node>, pos: seq<int>, d1: seq<int>, d2: seq<int>,
                                     nx: seq<int>, pr: seq<int>,
                                     head: int, tail: int, length: int, k: int, tail': int)
    requires RcvRep(size, anchor, ns, pos, d1, d2, nx, pr, head, tail, length) && 0 <= k < |ns| && ns[k].lo == ns[k].hi
    requires |pos| == |ns| && |d1| == |d2| == |nx| == |pr| == size && 0 <= pos[k] < size
    requires if k + 1 < |ns| then 0 <= pos[k + 1] < size && tail' == tail else k > 0 ==> tail' == pos[k - 1]
    requires k > 0 ==> 0 <= pos[k - 1] < size
    ensures RcvRep(size, anchor, Without(ns, k), Without(pos, k), d1[pos[k] := -1], d2,
                   if k > 0 then nx[pos[k - 1] := nx[pos[k]]] else nx,
                   if k + 1 < |ns| then pr[pos[k + 1] := pr[pos[k]]] else pr,
                   if k > 0 then head else nx[pos[k]], tail', length - 1)
    ensures Members(Without(ns, k)) == Members(ns) - {ns[k].lo}
  {
    hide RcvRep, Window, Ordered, Distinct, Span, Members, Total;
    LinksAt(size, anchor, ns, pos, d1, d2, nx, pr, head, tail, length, k);
    RcvRepAt(size, anchor, ns, pos, d1, d2, nx, pr, head, tail, length, k);
    DropRcv(size, anchor, ns, pos, d1, d2, nx, pr, head, tail, length, k);
    WithoutMembers(ns, k);
    SpanOne(ns[k].lo);
    assert d2[pos[k] := -1] == d2;
    AnyTail(size, anchor, Without(ns, k), Without(pos, k), d1[pos[k] := -1], d2,
            if k > 0 then nx[pos[k - 1] := nx[pos[k]]] else nx,
            if k + 1 < |ns| then pr[pos[k + 1] := pr[pos[k]]] else pr,
            if k > 0 then head else nx[pos[k]], if k + 1 < |ns| then tail else pr[pos[k]], length - 1, tail');
  }

  lemma {:induction false} SpanOne(n: int)
    ensures Span(n, n) == {n}
  {
  }

  lemma {:induction false} SpanMinus(lo: int, hi: int, n: int)
    requires lo <= n <= hi
    ensures Span(lo, hi) - {n} == Span(lo, n - 1) + Span(n + 1, hi)
    ensures n == lo ==> Span(lo, hi) - {n} == Span(lo + 1, hi)
    ensures n == hi ==> Span(lo, hi) - {n} == Span(lo, hi - 1)
  {
  }

  /** The first of several numbers of interval k: the interval moves to the next slot. */
  lemma {:induction false} ShiftRcv(size: int, anchor: int, ns: seq<Node>, pos: seq<int>, d1: seq<int>, d2: seq<int>,
                                    nx: seq<int>, pr: seq<int>,
                                    head: int, tail: int, length: int, k: int, loc: int)
    requires RcvRep(size, anchor, ns, pos, d1, d2, nx, pr, head, tail, length) && 0 <= k < |ns| && ns[k].lo < ns[k].hi
    requires loc == Slot(size, anchor, ns[k].lo + 1) && |pos| == |ns| && |d1| == |d2| == |nx| == |pr| == size
    requires 0 <= pos[k] < size && 0 <= loc < size
    requires k > 0 ==> 0 <= pos[k - 1] < size && pos[k - 1] != loc
    requires k + 1 < |ns| ==> 0 <= pos[k + 1] < size && pos[k + 1] != loc
    ensures var n := Node(ns[k].lo + 1, ns[k].hi);
            RcvRep(size, anchor, ns[k := n], pos[k := loc], d1[pos[k] := -1][loc := Wrap(n.lo)],
                   d2[pos[k] := -1][loc := EndOf(n)],
                   if k > 0 then nx[loc := nx[pos[k]]][pos[k - 1] := loc] else nx[loc := nx[pos[k]]],
                   if k + 1 < |ns| then pr[loc := pr[pos[k]]][pos[k + 1] := loc] else pr[loc := pr[pos[k]]],
                   if k > 0 then head else loc, if k + 1 < |ns| then tail else loc, length - 1)
  {
    hide RcvRep, Window, Ordered, Distinct, Span, Members, Total, Slot, Without, Wrap, EndOf;
    var n, p := Node(ns[k].lo + 1, ns[k].hi), pos[k];
    RcvRepAt(size, anchor, ns, pos, d1, d2, nx, pr, head, tail, length, k);
    DropRcv(size, anchor, ns, pos, d1, d2, nx, pr, head, tail, length, k);
    ShiftShape(size, ns, pos, k, loc);
    var nx1 := if k > 0 then nx[pos[k - 1] := nx[p]] else nx;
    var pr1 := if k + 1 < |ns| then pr[pos[k + 1] := pr[p]] else pr;
    LinkRcv(size, anchor, Without(ns, k), Without(pos, k), d1[p := -1], d2[p := -1], nx1, pr1,
            if k > 0 then head else nx[p], if k + 1 < |ns| then tail else pr[p], length - Len(ns[k]), k, n, loc);
    if k > 0 { Overwrite(nx, pos[k - 1], nx[p], loc, nx[p]); }
    if k + 1 < |ns| { Overwrite(pr, pos[k + 1], pr[p], loc, pr[p]); }
  }

  lemma {:induction false} Overwrite(s: seq<int>, p: int, x: int, q: int, y: int)
    requires 0 <= p < |s| && 0 <= q < |s| && p != q
    ensures s[p := x][p := q][q := y] == s[q := y][p := q]
  {
  }

  lemma {:induction false} ShiftShape(size: int, ns: seq<Node>, pos: seq<int>, k: int, loc: int)
    requires Ordered(ns) && Window(size, ns) && |pos| == |ns| && 0 <= k < |ns| && ns[k].lo < ns[k].hi
    ensures var n := Node(ns[k].lo + 1, ns[k].hi);
            && With(Without(ns, k), k, n) == ns[k := n] && With(Without(pos, k), k, loc) == pos[k := loc]
            && |Without(ns, k)| == |Without(pos, k)| == |ns| - 1
            && (k > 0 ==> Without(pos, k)[k - 1] == pos[k - 1]) && (k + 1 < |ns| ==> Without(pos, k)[k] == pos[k + 1])
            && Ordered(ns[k := n]) && Window(size, ns[k := n])
  {
    var n := Node(ns[k].lo + 1, ns[k].hi);
    var t := ns[k := n];
    forall i, j | 0 <= i < |t| && 0 <= j < |t| ensures Close(size, t[i].lo, t[j].hi) {
      assert Close(size, ns[i].lo, ns[j].hi);
    }
  }

  lemma {:induction false} ShiftMembers(ns: seq<Node>, k: int)
    requires Ordered(ns) && 0 <= k < |ns| && ns[k].lo < ns[k].hi
    ensures Members(ns[k := Node(ns[k].lo + 1, ns[k].hi)]) == Members(ns) - {ns[k].lo}
  {
    var t := ns[k := Node(ns[k].lo + 1, ns[k].hi)];
    Around(ns, k);
    Around(t, k);
    assert t[..k] == ns[..k] && t[k + 1..] == ns[k + 1..];
    SpanMinus(ns[k].lo, ns[k].hi, ns[k].lo);
    OneLess(ns, k, ns[k].lo, Span(ns[k].lo + 1, ns[k].hi), Members(t));
  }

  /** Taking x out of interval k alone takes it out of the whole. */
  lemma {:induction false} OneLess(ns: seq<Node>, k: int, x: int, s: set<int>, all: set<int>)
    requires Ordered(ns) && 0 <= k < |ns| && ns[k].lo <= x <= ns[k].hi
    requires s == Span(ns[k].lo, ns[k].hi) - {x} && all == Members(ns[..k]) + s + Members(ns[k + 1..])
    ensures all == Members(ns) - {x}
  {
    Around(ns, k);
    AllBelow(ns[..k], ns[k].lo);
    AllAbove(ns[k + 1..], ns[k].hi);
    MinusMiddle(Members(ns[..k]), Span(ns[k].lo, ns[k].hi), Members(ns[k + 1..]), x, s, all, Members(ns));
  }

  lemma {:induction false} MinusMiddle(a: set<int>, m: set<int>, b: set<int>, x: int, s: set<int>, less: set<int>,
                                       all: set<int>)
    requires x !in a && x !in b && s == m - {x} && less == a + s + b && all == a + m + b
    ensures less == all - {x}
  {
  }

  /** The last of several numbers of interval k: its end moves back. */
  lemma {:induction false} TrimRcv(size: int, anchor: int, ns: seq<Node>, pos: seq<int>, d1: seq<int>, d2: seq<int>,
                                   nx: seq<int>, pr: seq<int>,
                                   head: int, tail: int, length: int, k: int)
    requires RcvRep(size, anchor, ns, pos, d1, d2, nx, pr, head, tail, length) && 0 <= k < |ns| && ns[k].lo < ns[k].hi
    ensures |pos| == |ns| && |d2| == size && 0 <= pos[k] < size
    ensures var n := Node(ns[k].lo, ns[k].hi - 1);
            && RcvRep(size, anchor, ns[k := n], pos, d1, d2[pos[k] := EndOf(n)], nx, pr, head, tail, length - 1)
            && Members(ns[k := n]) == Members(ns) - {ns[k].hi}
  {
    hide RcvRep, Window, Distinct, Span, Members, Total;
    var hi := ns[k].hi - 1;
    RcvRepAt(size, anchor, ns, pos, d1, d2, nx, pr, head, tail, length, k);
    TrimShape(size, ns, k, hi);
    SetEndRcv(size, anchor, ns, pos, d1, d2, nx, pr, head, tail, length, k, hi);
    SetEndMembers(ns, k, hi);
    SpanMinus(ns[k].lo, ns[k].hi, ns[k].hi);
    OneLess(ns, k, ns[k].hi, Span(ns[k].lo, hi), Members(ns[k := Node(ns[k].lo, hi)]));
  }

  lemma {:induction false} TrimShape(size: int, ns: seq<Node>, k: int, hi: int)
    requires Ordered(ns) && Window(size, ns) && 0 <= k < |ns| && ns[k].lo <= hi <= ns[k].hi
    ensures Ordered(ns[k := Node(ns[k].lo, hi)]) && Window(size, ns[k := Node(ns[k].lo, hi)])
  {
    var t := ns[k := Node(ns[k].lo, hi)];
    forall i, j | 0 <= i < |t| && 0 <= j < |t| ensures Close(size, t[i].lo, t[j].hi) {
      assert Close(size, ns[i].lo, ns[j].hi);
    }
  }

  /** Interval k without the inner number n: the rest above n gets a node of its own. */
  ghost function Holed(ns: seq<Node>, k: int, n: int): seq<Node>
    requires 0 <= k < |ns|
  {
    With(ns[k := Node(ns[k].lo, n - 1)], k + 1, Node(n + 1, ns[k].hi))
  }

  lemma {:induction false} HoleRcv(size: int, anchor: int, ns: seq<Node>, pos: seq<int>, d1: seq<int>, d2: seq<int>,
                                   nx: seq<int>, pr: seq<int>,
                                   head: int, tail: int, length: int, k: int, n: int, loc: int)
    requires RcvRep(size, anchor, ns, pos, d1, d2, nx, pr, head, tail, length)
    requires 0 <= k < |ns| && ns[k].lo < n < ns[k].hi
    requires loc == Slot(size, anchor, n + 1)
    ensures |pos| == |ns| && |d1| == |d2| == |nx| == |pr| == size && 0 <= loc < size
    ensures 0 <= pos[k] < size && pos[k] != loc && d2[loc] == -1
    ensures k + 1 < |ns| ==> 0 <= pos[k + 1] < size && pos[k + 1] != loc
    ensures nx[pos[k]] == (if k + 1 < |ns| then pos[k + 1] else -1)
    ensures RcvRep(size, anchor, Holed(ns, k, n), With(pos, k + 1, loc), d1[loc := Wrap(n + 1)],
                   d2[pos[k] := EndOf(Node(ns[k].lo, n - 1))][loc := EndOf(Node(n + 1, ns[k].hi))],
                   nx[pos[k] := loc][loc := nx[pos[k]]],
                   (if k + 1 < |ns| then pr[pos[k + 1] := loc] else pr)[loc := pos[k]],
                   head, if k + 1 < |ns| then tail else loc, length - 1)
    ensures Members(Holed(ns, k, n)) == Members(ns) - {n}
  {
    hide RcvRep;
    var low, high := Node(ns[k].lo, n - 1), Node(n + 1, ns[k].hi);
    var mid := ns[k := low];
    RcvRepAt(size, anchor, ns, pos, d1, d2, nx, pr, head, tail, length, k);
    EndsAt(size, pos, k);
    TrimShape(size, ns, k, n - 1);
    HoleShape(size, ns, k, n);
    HoleMembers(ns, k, n);
    SetEndRcv(size, anchor, ns, pos, d1, d2, nx, pr, head, tail, length, k, n - 1);
    LinkRcv(size, anchor, mid, pos, d1, d2[pos[k] := EndOf(low)], nx, pr, head, tail, length + (n - 1 - ns[k].hi),
            k + 1, high, loc);
  }

  lemma {:induction false} HoleShape(size: int, ns: seq<Node>, k: int, n: int)
    requires Ordered(ns) && Window(size, ns) && 0 <= k < |ns| && ns[k].lo < n < ns[k].hi
    ensures Ordered(Holed(ns, k, n)) && Window(size, Holed(ns, k, n))
  {
    SplitOrder(ns, k, n);
    SplitWindow(size, ns, k, n);
    var s := With(ns[k := Node(ns[k].lo, n)], k + 1, Node(n + 1, ns[k].hi));
    TrimShape(size, s, k, n - 1);
    assert Holed(ns, k, n) == s[k := Node(ns[k].lo, n - 1)];
  }

  lemma {:induction false} HoleMembers(ns: seq<Node>, k: int, n: int)
    requires Ordered(ns) && 0 <= k < |ns| && ns[k].lo < n < ns[k].hi
    ensures Members(Holed(ns, k, n)) == Members(ns) - {n}
  {
    var mid, a, b := ns[k := Node(ns[k].lo, n - 1)], Members(ns[..k]), Members(ns[k + 1..]);
    WithMembers(mid, k + 1, Node(n + 1, ns[k].hi));
    SetEndMembers(ns, k, n - 1);
    UnionSplit(a, Span(ns[k].lo, n - 1), Span(n + 1, ns[k].hi), b);
    SpanMinus(ns[k].lo, ns[k].hi, n);
    OneLess(ns, k, n, Span(ns[k].lo, n - 1) + Span(n + 1, ns[k].hi), Members(Holed(ns, k, n)));
  }

  // ---------- the backward search over slots ----------

  /** The slot of a number m from the window: used exactly when an interval starts at m. */
  lemma {:induction false} SlotUsed(size: int, anchor: int, ns: seq<Node>, pos: seq<int>, d1: seq<int>, d2: seq<int>,
                                    m: int) returns (k: int)
    requires Placed(size, anchor, ns, pos) && Stored(size, ns, pos, d1, d2)
    requires forall i :: 0 <= i < |ns| ==> -size < ns[i].lo - m < size
    ensures 0 <= Slot(size, anchor, m) < size
    ensures d1[Slot(size, anchor, m)] != -1 ==> 0 <= k < |ns| && pos[k] == Slot(size, anchor, m) && ns[k].lo == m
    ensures d1[Slot(size, anchor, m)] == -1 ==> forall i :: 0 <= i < |ns| ==> ns[i].lo != m
  {
    var slot := Slot(size, anchor, m);
    SlotBounds(size, anchor, m);
    k := 0;
    if d1[slot] != -1 {
      assert slot in pos;
      k :| 0 <= k < |pos| && pos[k] == slot;
      SlotInjective(size, anchor, ns[k].lo, m);
    }
  }

  /** The slot that the upper part of interval k, from number m on, moves to: free, and no neighbour's. */
  lemma {:induction false} NewSlot(size: int, anchor: int, ns: seq<Node>, pos: seq<int>, d1: seq<int>, d2: seq<int>,
                                   nx: seq<int>, pr: seq<int>,
                                   head: int, tail: int, length: int, k: int, m: int)
    requires RcvRep(size, anchor, ns, pos, d1, d2, nx, pr, head, tail, length)
    requires 0 <= k < |ns| && ns[k].lo < m <= ns[k].hi
    ensures var loc := Slot(size, anchor, m);
            && |pos| == |ns| && |d2| == size && 0 <= loc < size && d2[loc] == -1
            && (forall i :: 0 <= i < |ns| ==> pos[i] != loc)
  {
    SlotBounds(size, anchor, m);
    forall i | 0 <= i < |ns| ensures pos[i] != Slot(size, anchor, m) {
      assert Close(size, ns[i].lo, ns[k].hi) && Close(size, ns[k].lo, ns[i].hi);
      SlotInjective(size, anchor, ns[i].lo, m);
    }
  }

  /** The wrapped tests of remove on an interval lo..hi. */
  lemma {:induction false} EndTests(lo: int, hi: int, n: int)
    requires Near(hi, n) && Near(lo, n)
    ensures SeqCmp(Wrap(n), Wrap(hi)) > 0 <==> n > hi
    ensures Wrap(n) == Wrap(hi) <==> n == hi
    ensures Wrap(n) == IncSeq(Wrap(lo)) <==> n == lo + 1
    ensures IncSeq(Wrap(n)) == Wrap(n + 1) && DecSeq(Wrap(n)) == Wrap(n - 1)
    ensures Near(hi, n + 1) ==> (SeqCmp(Wrap(hi), Wrap(n + 1)) > 0 <==> hi > n + 1)
  {
    CmpRefines(n, hi);
    WrapInjective(n, hi);
    IncRefines(lo);
    IncRefines(n);
    WrapInjective(n, lo + 1);
    if Near(hi, n + 1) { CmpRefines(hi, n + 1); }
  }
}
