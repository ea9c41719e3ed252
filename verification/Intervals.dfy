/** Sets of sequence numbers as ordered sequences of disjoint closed intervals, and the placement of
    intervals in a circular array. */
module Intervals {
  import opened Numbers

  /** One loss interval; a single number has lo == hi. */
  datatype Node = Node(lo: int, hi: int)

  ghost predicate Ordered(ns: seq<Node>)
  {
    && (forall i :: 0 <= i < |ns| ==> ns[i].lo <= ns[i].hi)
    && (forall i, j :: 0 <= i < j < |ns| ==> ns[i].hi < ns[j].lo)
  }

  ghost function Members(ns: seq<Node>): set<int>
  {
    if ns == [] then {} else Span(ns[0].lo, ns[0].hi) + Members(ns[1..])
  }

  ghost function Len(n: Node): nat
  {
    if n.lo <= n.hi then n.hi - n.lo + 1 else 0
  }

  /** Sum of the interval lengths. */
  ghost function Total(ns: seq<Node>): nat
  {
    if ns == [] then 0 else Len(ns[0]) + Total(ns[1..])
  }

  lemma {:induction false} MembersAppend(a: seq<Node>, b: seq<Node>)
    ensures Members(a + b) == Members(a) + Members(b)
    ensures Total(a + b) == Total(a) + Total(b)
  {
    if a == [] {
      assert a + b == b;
    } else {
      var ab, first := a + b, Span(a[0].lo, a[0].hi);
      assert ab[0] == a[0] && ab[1..] == a[1..] + b;
      MembersAppend(a[1..], b);
      assert Members(ab) == first + Members(ab[1..]);
      assert Members(a) == first + Members(a[1..]);
    }
  }

  lemma {:induction false} MembersNone()
    ensures Members([]) == {} && Total([]) == 0
  {
  }

  lemma {:induction false} MembersOne(n: Node)
    ensures Members([n]) == Span(n.lo, n.hi) && Total([n]) == Len(n)
  {
    assert [n][1..] == [];
  }

  /** Members and total around one interval of the sequence. */
  lemma {:induction false} Around(ns: seq<Node>, k: int)
    requires 0 <= k < |ns|
    ensures Members(ns) == Members(ns[..k]) + Span(ns[k].lo, ns[k].hi) + Members(ns[k + 1..])
    ensures Total(ns) == Total(ns[..k]) + Len(ns[k]) + Total(ns[k + 1..])
  {
    assert ns == ns[..k] + ns[k..];
    MembersAppend(ns[..k], ns[k..]);
    assert ns[k..][1..] == ns[k + 1..];
  }

  lemma {:induction false} InMembers(ns: seq<Node>, n: int)
    ensures n in Members(ns) <==> exists i :: 0 <= i < |ns| && ns[i].lo <= n <= ns[i].hi
  {
    if ns != [] {
      InMembers(ns[1..], n);
      if n in Members(ns[1..]) {
        var i :| 0 <= i < |ns[1..]| && ns[1..][i].lo <= n <= ns[1..][i].hi;
        assert ns[i + 1] == ns[1..][i];
      }
      if i :| 0 <= i < |ns| && ns[i].lo <= n <= ns[i].hi {
        if i > 0 { assert ns[1..][i - 1] == ns[i]; }
      }
    }
  }

  /** The interval lengths add up to the number of members. */
  lemma {:induction false} Cardinality(ns: seq<Node>)
    requires Ordered(ns)
    ensures |Members(ns)| == Total(ns)
  {
    if ns != [] {
      Cardinality(ns[1..]);
      forall n | n in Members(ns[1..]) ensures n > ns[0].hi {
        InMembers(ns[1..], n);
      }
      assert Span(ns[0].lo, ns[0].hi) !! Members(ns[1..]);
    }
  }

  // ---------- slots of a circular array ----------

  /** The slot of number n in a circular array of the given size; anchor fixes where number 0 goes. */
  ghost function Slot(size: int, anchor: int, n: int): int
    requires size > 0
  {
    Turn(size, anchor + n)
  }

  lemma {:induction false} SlotBounds(size: int, anchor: int, n: int)
    requires size > 0
    ensures 0 <= Slot(size, anchor, n) < size
  {
    TurnIsMod(size, anchor + n);
  }

  /** Walking d slots from the slot of n, computed as the code does. */
  lemma {:induction false} SlotWalk(size: int, anchor: int, n: int, d: int)
    requires size > 0
    ensures (Slot(size, anchor, n) + d) % size == Slot(size, anchor, n + d)
    ensures (Slot(size, anchor, n) + d + size) % size == Slot(size, anchor, n + d)
  {
    TurnIsMod(size, anchor + n);
    TurnIsMod(size, anchor + n + d);
    ModWalk(size, anchor + n, d);
  }

  /** Different numbers less than a full circle apart have different slots. */
  lemma {:induction false} SlotInjective(size: int, anchor: int, n: int, m: int)
    requires size > 0 && -size < n - m < size
    ensures Slot(size, anchor, n) == Slot(size, anchor, m) <==> n == m
  {
    TurnIsMod(size, anchor + n);
    TurnIsMod(size, anchor + m);
    ModInjective(size, anchor + n, anchor + m);
  }
}
