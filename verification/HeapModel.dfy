/** The heap of sockets by next sending time, as a sequence: what insert_ and remove_ of CSndUList do to it. */
module HeapModel {

  datatype Entry<N> = Entry(ts: int, node: N)

  function Parent(i: int): int
    requires i > 0
  {
    (i - 1) / 2
  }

  function Swap<T>(h: seq<T>, i: int, j: int): seq<T>
    requires 0 <= i < |h| && 0 <= j < |h|
  {
    h[i := h[j]][j := h[i]]
  }

  /** Entry q rises while its parent is later. */
  function SiftUp<N>(h: seq<Entry<N>>, q: nat): (r: seq<Entry<N>>)
    requires q < |h|
    ensures |r| == |h|
    decreases q
  {
    if q == 0 then h
    else if h[Parent(q)].ts > h[q].ts then SiftUp(Swap(h, Parent(q), q), Parent(q))
    else h
  }

  /** The earlier child of q; the left one on a tie. */
  function EarlierChild<N>(h: seq<Entry<N>>, q: nat): nat
    requires 2 * q + 1 < |h|
  {
    if 2 * q + 2 < |h| && h[2 * q + 1].ts > h[2 * q + 2].ts then 2 * q + 2 else 2 * q + 1
  }

  /** Entry q sinks while its earlier child is earlier than it. */
  function SiftDown<N>(h: seq<Entry<N>>, q: nat): (r: seq<Entry<N>>)
    ensures |r| == |h|
    decreases |h| - q
  {
    if 2 * q + 1 >= |h| then h
    else
      var c := EarlierChild(h, q);
      if h[q].ts > h[c].ts then SiftDown(Swap(h, q, c), c) else h
  }

  lemma {:induction false} SiftStep<N>(h: seq<Entry<N>>, q: nat)
    ensures 2 * q + 1 >= |h| ==> SiftDown(h, q) == h
    ensures 2 * q + 1 < |h| ==>
              var c := EarlierChild(h, q);
              SiftDown(h, q) == if h[q].ts > h[c].ts then SiftDown(Swap(h, q, c), c) else h
  {
  }

  function Inserted<N>(h: seq<Entry<N>>, e: Entry<N>): seq<Entry<N>>
  {
    SiftUp(h + [e], |h|)
  }

  /** The last entry takes the place of the removed one and sinks from there; it never rises. */
  function Removed<N>(h: seq<Entry<N>>, loc: nat): (r: seq<Entry<N>>)
    requires loc < |h|
    ensures |r| == |h| - 1
  {
    var last := |h| - 1;
    SiftDown(h[loc := h[last]][..last], loc)
  }

  /** Heap order on every edge except the one into `bad`. */
  ghost predicate OrderBut<N>(h: seq<Entry<N>>, bad: int)
  {
    forall i :: 0 < i < |h| && i != bad ==> h[Parent(i)].ts <= h[i].ts
  }

  ghost predicate Order<N>(h: seq<Entry<N>>)
  {
    OrderBut(h, 0)
  }

  // ---------- what is on the heap ----------

  lemma {:induction false} SwapMultiset<T>(h: seq<T>, i: int, j: int)
    requires 0 <= i < |h| && 0 <= j < |h|
    ensures multiset(Swap(h, i, j)) == multiset(h) && |Swap(h, i, j)| == |h|
  {
  }

  lemma {:induction false} SiftUpMultiset<N>(h: seq<Entry<N>>, q: nat)
    requires q < |h|
    ensures multiset(SiftUp(h, q)) == multiset(h)
    decreases q
  {
    if q > 0 && h[Parent(q)].ts > h[q].ts {
      SwapMultiset(h, Parent(q), q);
      SiftUpMultiset(Swap(h, Parent(q), q), Parent(q));
    }
  }

  lemma {:induction false} SiftDownMultiset<N>(h: seq<Entry<N>>, q: nat)
    ensures multiset(SiftDown(h, q)) == multiset(h)
    decreases |h| - q
  {
    if 2 * q + 1 < |h| {
      var c := EarlierChild(h, q);
      if h[q].ts > h[c].ts {
        SwapMultiset(h, q, c);
        SiftDownMultiset(Swap(h, q, c), c);
      }
    }
  }

  lemma {:induction false} ReplaceMultiset<T>(h: seq<T>, loc: nat)
    requires loc < |h|
    ensures multiset(h[loc := h[|h| - 1]][..|h| - 1]) == multiset(h) - multiset{h[loc]}
  {
    var last := |h| - 1;
    if loc == last {
      assert h == h[..last] + [h[last]];
      assert h[loc := h[last]][..last] == h[..last];
    } else {
      assert h == h[..loc] + [h[loc]] + h[loc + 1..last] + [h[last]];
      assert h[loc := h[last]][..last] == h[..loc] + [h[last]] + h[loc + 1..last];
    }
  }

  /** Insertion adds exactly the new entry; removal takes out exactly the one named. */
  lemma {:induction false} Conserved<N>(h: seq<Entry<N>>, e: Entry<N>, loc: nat)
    ensures multiset(Inserted(h, e)) == multiset(h) + multiset{e}
    ensures loc < |h| ==> multiset(Removed(h, loc)) == multiset(h) - multiset{h[loc]}
  {
    SiftUpMultiset(h + [e], |h|);
    if loc < |h| {
      ReplaceMultiset(h, loc);
      SiftDownMultiset(h[loc := h[|h| - 1]][..|h| - 1], loc);
    }
  }

  // ---------- order ----------

  /** While entry q rises: order holds on every edge but its own, and q's children are later than q's parent. */
  ghost predicate Rising<N>(h: seq<Entry<N>>, q: nat)
    requires q < |h|
  {
    && OrderBut(h, q)
    && (q > 0 ==> forall c :: 0 < c < |h| && Parent(c) == q ==> h[Parent(q)].ts <= h[c].ts)
  }

  lemma {:induction false} SiftUpOrder<N>(h: seq<Entry<N>>, q: nat)
    requires q < |h| && Rising(h, q)
    ensures Order(SiftUp(h, q))
    decreases q
  {
    if q > 0 && h[Parent(q)].ts > h[q].ts {
      RisingStep(h, q);
      SiftUpOrder(Swap(h, Parent(q), q), Parent(q));
    }
  }

  lemma {:induction false} RisingStep<N>(h: seq<Entry<N>>, q: nat)
    requires 0 < q < |h| && Rising(h, q) && h[Parent(q)].ts > h[q].ts
    ensures Rising(Swap(h, Parent(q), q), Parent(q))
  {
    var p, t := Parent(q), Swap(h, Parent(q), q);
    forall i | 0 < i < |t| && i != p ensures t[Parent(i)].ts <= t[i].ts {
      if Parent(i) != p && Parent(i) != q { assert h[Parent(i)].ts <= h[i].ts; }
    }
    if p > 0 {
      forall c | 0 < c < |t| && Parent(c) == p ensures t[Parent(p)].ts <= t[c].ts {
        assert h[Parent(p)].ts <= h[p].ts;
      }
    }
  }

  /** insert_ keeps heap order. */
  lemma {:induction false} InsertedOrder<N>(h: seq<Entry<N>>, e: Entry<N>)
    requires Order(h)
    ensures Order(Inserted(h, e))
  {
    var t := h + [e];
    forall i | 0 < i < |t| && i != |h| ensures t[Parent(i)].ts <= t[i].ts {
      assert t[Parent(i)] == h[Parent(i)] && t[i] == h[i];
    }
    SiftUpOrder(t, |h|);
  }

  /** While entry q sinks: order holds on every edge but those out of q and the one into bad, and q's children
      are later than q's parent. */
  ghost predicate Sinking<N>(h: seq<Entry<N>>, q: nat, bad: int)
  {
    && (forall i :: 0 < i < |h| && Parent(i) != q && i != bad ==> h[Parent(i)].ts <= h[i].ts)
    && (q > 0 ==> forall c :: 0 < c < |h| && Parent(c) == q ==> h[Parent(q)].ts <= h[c].ts)
  }

  lemma {:induction false} ChildBelow<N>(h: seq<Entry<N>>, q: nat)
    requires 2 * q + 1 < |h|
    ensures q < EarlierChild(h, q) < |h| == |Swap(h, q, EarlierChild(h, q))|
  {
  }

  /** An entry no later than its children has sunk far enough. */
  lemma {:induction false} Settles<N>(h: seq<Entry<N>>, q: nat, bad: int)
    requires Sinking(h, q, bad) && bad <= q
    requires 2 * q + 1 >= |h| || h[q].ts <= h[EarlierChild(h, q)].ts
    ensures OrderBut(h, bad)
  {
    assert forall i :: 0 < i < |h| && Parent(i) == q ==> i == 2 * q + 1 || i == 2 * q + 2;
  }

  lemma {:induction false} SiftDownOrder<N>(h: seq<Entry<N>>, q: nat, bad: int)
    requires Sinking(h, q, bad) && bad <= q
    requires 0 < bad == q < |h| ==> h[q].ts < h[Parent(q)].ts
    ensures OrderBut(SiftDown(h, q), bad)
    decreases |h| - q
  {
    hide Sinking, OrderBut, Swap, SiftDown;
    SiftStep(h, q);
    if 2 * q + 1 < |h| && h[q].ts > h[EarlierChild(h, q)].ts {
      var c := EarlierChild(h, q);
      SinkingStep(h, q, bad);
      ChildBelow(h, q);
      SiftDownOrder(Swap(h, q, c), c, bad);
    } else {
      Settles(h, q, bad);
    }
  }

  lemma {:induction false} SinkingStep<N>(h: seq<Entry<N>>, q: nat, bad: int)
    requires Sinking(h, q, bad) && bad <= q && 2 * q + 1 < |h|
    requires h[q].ts > h[EarlierChild(h, q)].ts
    requires 0 < bad == q < |h| ==> h[q].ts < h[Parent(q)].ts
    ensures Sinking(Swap(h, q, EarlierChild(h, q)), EarlierChild(h, q), bad)
  {
    var c := EarlierChild(h, q);
    var t := Swap(h, q, c);
    assert Parent(c) == q;
    forall i | 0 < i < |t| && Parent(i) != c && i != bad ensures t[Parent(i)].ts <= t[i].ts {
      if Parent(i) == q {
        assert i == 2 * q + 1 || i == 2 * q + 2;
      } else if i == q {
        assert h[Parent(q)].ts <= h[c].ts;
      }
    }
    forall d | 0 < d < |t| && Parent(d) == c ensures t[Parent(c)].ts <= t[d].ts {
      assert h[Parent(d)].ts <= h[d].ts;
    }
  }

  /** remove_ keeps heap order exactly when the removed entry was the root or the last one, or the last entry
      is not earlier than the parent of the vacated place; otherwise exactly that one edge is wrong. */
  /** With the last entry in the vacated place, order can fail only there. */
  lemma {:induction false} Vacated<N>(h: seq<Entry<N>>, loc: nat)
    requires Order(h) && loc < |h|
    ensures var t := h[loc := h[|h| - 1]][..|h| - 1];
            && (forall i :: 0 < i < |t| && Parent(i) != loc && i != loc ==> t[Parent(i)].ts <= t[i].ts)
            && (loc > 0 ==> forall c :: 0 < c < |t| && Parent(c) == loc ==> t[Parent(loc)].ts <= t[c].ts)
            && (0 < loc < |t| ==> t[Parent(loc)] == h[Parent(loc)] && t[loc] == h[|h| - 1])
  {
    var last := |h| - 1;
    var t := h[loc := h[last]][..last];
    forall i | 0 < i < |t| && Parent(i) != loc && i != loc ensures t[Parent(i)].ts <= t[i].ts {
      assert h[Parent(i)].ts <= h[i].ts;
    }
    if loc > 0 {
      forall c | 0 < c < |t| && Parent(c) == loc ensures t[Parent(loc)].ts <= t[c].ts {
        assert h[Parent(loc)].ts <= h[loc].ts <= h[c].ts;
      }
    }
  }

  lemma {:induction false} RemovedOrder<N>(h: seq<Entry<N>>, loc: nat)
    requires Order(h) && loc < |h|
    ensures OrderBut(Removed(h, loc), loc)
    ensures Order(Removed(h, loc)) <==> loc == 0 || loc == |h| - 1 || h[|h| - 1].ts >= h[Parent(loc)].ts
  {
    var last := |h| - 1;
    var t := h[loc := h[last]][..last];
    Vacated(h, loc);
    hide SiftDown;
    if loc > 0 && loc < last && h[last].ts < h[Parent(loc)].ts {
      SiftDownOrder(t, loc, loc);
      StaysPut(t, loc);
      assert t[Parent(loc)].ts > t[loc].ts;
    } else {
      SiftDownOrder(t, loc, 0);
    }
  }

  /** An entry earlier than its new parent is earlier than its children: it does not sink. */
  lemma {:induction false} StaysPut<N>(h: seq<Entry<N>>, q: nat)
    requires 0 < q < |h| && Sinking(h, q, q) && h[q].ts < h[Parent(q)].ts
    ensures SiftDown(h, q) == h
  {
    if 2 * q + 1 < |h| {
      assert Parent(EarlierChild(h, q)) == q;
    }
  }

  /** In an ordered heap the root is the earliest entry. */
  lemma {:induction false} RootLeast<N>(h: seq<Entry<N>>, i: nat)
    requires Order(h) && i < |h|
    ensures h[0].ts <= h[i].ts
  {
    if i > 0 {
      RootLeast(h, Parent(i));
    }
  }

  /** Even when remove_ breaks the order, the root it leaves is the earliest entry. */
  lemma {:induction false} RootLeastAfterRemoval<N>(h: seq<Entry<N>>, loc: nat, i: nat)
    requires Order(h) && 0 < loc < |h| && i < |h| - 1
    ensures Removed(h, loc)[0] == h[0] && h[0].ts <= Removed(h, loc)[i].ts
  {
    var last := |h| - 1;
    var t := h[loc := h[last]][..last];
    SiftDownMultiset(t, loc);
    SiftDownAbove(t, loc, 0);
    assert Removed(h, loc)[i] in multiset(t);
    assert Removed(h, loc)[i] in t;
    var j :| 0 <= j < |t| && t[j] == Removed(h, loc)[i];
    RootLeast(h, if j == loc then last else j);
  }

  /** Sinking from q leaves the entries before q alone. */
  lemma {:induction false} SiftDownAbove<N>(h: seq<Entry<N>>, q: nat, j: nat)
    requires j < q && j < |h|
    ensures SiftDown(h, q)[j] == h[j]
    decreases |h| - q
  {
    if 2 * q + 1 < |h| {
      var c := EarlierChild(h, q);
      if h[q].ts > h[c].ts {
        SiftDownAbove(Swap(h, q, c), c, j);
      }
    }
  }

  /** Later removals of the root can then serve a socket too early: from this heap of seven, remove the fourth,
      then the root twice; the root is now due at 10 although an entry is due at 5. */
  lemma {:induction false} BrokenOrderShows()
    ensures var h := [Entry(1, 'a'), Entry(10, 'b'), Entry(3, 'c'), Entry(11, 'd'), Entry(12, 'e'),
                     Entry(30, 'f'), Entry(5, 'g')];
            && Order(h)
            && var t := Removed(Removed(Removed(h, 3), 0), 0);
            && t[0].ts == 10 && t[1].ts == 5
  {
    var a, b, c, d, e, f, g := Entry(1, 'a'), Entry(10, 'b'), Entry(3, 'c'), Entry(11, 'd'), Entry(12, 'e'),
        Entry(30, 'f'), Entry(5, 'g');
    var h := [a, b, c, d, e, f, g];
    assert h[3 := h[6]][..6] == [a, b, c, g, e, f];
    var h1 := [a, b, c, g, e, f];
    assert Removed(h, 3) == h1;
    assert h1[0 := h1[5]][..5] == [f, b, c, g, e];
    assert Swap([f, b, c, g, e], 0, 2) == [c, b, f, g, e];
    var h2 := [c, b, f, g, e];
    assert SiftDown(h2, 2) == h2;
    assert Removed(h1, 0) == h2;
    assert h2[0 := h2[4]][..4] == [e, b, f, g];
    assert Swap([e, b, f, g], 0, 1) == [b, e, f, g];
    assert Swap([b, e, f, g], 1, 3) == [b, g, f, e];
    assert SiftDown([b, g, f, e], 3) == [b, g, f, e];
    assert SiftDown([b, e, f, g], 1) == [b, g, f, e];
    assert Removed(h2, 0) == [b, g, f, e];
  }
}
