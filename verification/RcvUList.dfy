/** CRcvUList, the sockets in the order they were last heard from, and the timer sweep of the receiving worker. */
module RcvULists {
  import opened Numbers

  /** The receiving record of one socket. */
  class RNode {
    var timeStamp: int
    var prev: RNode?
    var next: RNode?
    var onList: bool

    constructor ()
      ensures !onList
    {
      timeStamp, prev, next, onList := 0, null, null, false;
    }
  }

  ghost predicate NoRepeats(s: seq<RNode>)
  {
    forall i, j :: 0 <= i < j < |s| ==> s[i] != s[j]
  }

  /** The nodes for which p holds, in order. */
  ghost function Kept(s: seq<RNode>, p: RNode -> bool): seq<RNode>
  {
    if s == [] then []
    else Kept(s[..|s| - 1], p) + (if p(s[|s| - 1]) then [s[|s| - 1]] else [])
  }

  lemma {:induction false} KeptIn(s: seq<RNode>, p: RNode -> bool, m: RNode)
    ensures m in Kept(s, p) <==> m in s && p(m)
  {
    if s != [] {
      KeptIn(s[..|s| - 1], p, m);
      assert s == s[..|s| - 1] + [s[|s| - 1]];
    }
  }

  lemma {:induction false} KeptNone(s: seq<RNode>, p: RNode -> bool)
    ensures s[0..] + Kept(s[..0], p) == s
  {
  }

  lemma {:induction false} Apart(s: seq<RNode>, k: nat)
    requires NoRepeats(s) && k < |s|
    ensures forall i :: k <= i < |s| ==> s[i] !in s[..k]
    ensures s[..k + 1] == s[..k] + [s[k]]
  {
  }

  lemma {:induction false} Rotate(s: seq<RNode>, k: nat, p: RNode -> bool)
    requires k < |s|
    ensures var now := s[k..] + Kept(s[..k], p);
            now[0] == s[k] &&
            Without(now, 0) + (if p(s[k]) then [s[k]] else []) == s[k + 1..] + Kept(s[..k + 1], p)
  {
    assert s[..k + 1][..k] == s[..k];
  }

  class RcvUList {
    var first: RNode?
    var last: RNode?
    ghost var nodes: seq<RNode>
    ghost var pool: set<RNode>
    ghost var clock: int

    /** A well-formed doubly linked list. */
    ghost predicate Linked()
      reads this, pool
    {
      && NoRepeats(nodes)
      && (forall i :: 0 <= i < |nodes| ==> nodes[i] in pool)
      && (forall i, j :: 0 <= i < j < |nodes| && j == i + 1 ==> nodes[i].next == nodes[j] && nodes[j].prev == nodes[i])
      && (nodes == [] ==> first == null && last == null)
      && (nodes != [] ==> first == nodes[0] && first.prev == null && last == nodes[|nodes| - 1] && last.next == null)
    }

    /** Oldest time first, no time in the future. */
    ghost predicate Sorted()
      requires Linked()
      reads this, pool
    {
      && (forall i, j :: 0 <= i < j < |nodes| ==> nodes[i].timeStamp <= nodes[j].timeStamp)
      && (forall i :: 0 <= i < |nodes| ==> nodes[i].timeStamp <= clock && nodes[i].onList)
    }

    ghost predicate Valid()
      reads this, pool
    {
      Linked() && Sorted()
    }

    constructor (now: int)
      ensures Valid() && nodes == [] && pool == {} && clock == now
    {
      first, last, nodes, pool, clock := null, null, [], {}, now;
    }

    /** What no operation on n does to the other sockets. */
    twostate predicate OthersKept(n: RNode)
      reads this, pool
    {
      pool == old(pool) && forall m :: m in pool && m != n ==>
        m.timeStamp == old(m.timeStamp) && m.onList == old(m.onList)
    }

    /** A socket gets its receiving record, off the list. */
    method Enlist(n: RNode)
      requires Valid()
      modifies this`pool
      ensures Valid() && pool == old(pool) + {n} && nodes == old(nodes) && clock == old(clock)
    {
      pool := pool + {n};
    }

    method Insert(n: RNode, now: int)
      requires Valid() && n in pool && n !in nodes && n.onList && clock <= now
      modifies this, pool
      ensures Valid() && nodes == old(nodes) + [n] && clock == n.timeStamp == now && n.onList && OthersKept(n)
    {
      n.timeStamp := now;
      clock := now;
      Append(n);
    }

    method Append(n: RNode)
      requires Linked() && n in pool && n !in nodes
      modifies this`first, this`last, this`nodes, pool
      ensures Linked() && nodes == old(nodes) + [n] && n.timeStamp == old(n.timeStamp)
      ensures n.onList == old(n.onList) && OthersKept(n)
    {
      if first == null {
        n.prev, n.next := null, null;
        last, first := n, n;
      } else {
        n.prev := last;
        n.next := null;
        last.next := n;
        last := n;
      }
      nodes := nodes + [n];
    }

    method Unlink(n: RNode, ghost i: nat)
      requires Linked() && i < |nodes| && nodes[i] == n
      modifies this`first, this`last, this`nodes, pool
      ensures Linked() && nodes == Without(old(nodes), i) && n !in nodes
      ensures n.timeStamp == old(n.timeStamp) && n.onList == old(n.onList) && OthersKept(n)
    {
      Around(i);
      if n.prev == null {
        first := n.next;
        if first == null {
          last := null;
        } else {
          first.prev := null;
        }
      } else {
        n.prev.next := n.next;
        if n.next == null {
          last := n.prev;
        } else {
          n.next.prev := n.prev;
        }
      }
      nodes := Without(nodes, i);
      n.next, n.prev := null, null;
    }

    lemma {:induction false} Around(i: nat)
      requires Linked() && i < |nodes|
      ensures nodes[i].prev == if i == 0 then null else nodes[i - 1]
      ensures nodes[i].next == if i == |nodes| - 1 then null else nodes[i + 1]
    {
    }

    /** remove */
    method Remove(n: RNode, ghost i: nat)
      requires Valid() && n in pool && (n.onList ==> i < |nodes| && nodes[i] == n)
      modifies this`first, this`last, this`nodes, pool
      ensures Valid() && nodes == (if old(n.onList) then Without(old(nodes), i) else old(nodes))
      ensures n.onList == old(n.onList) && OthersKept(n) && (n.onList ==> n !in nodes)
    {
      if !n.onList { return; }
      Unlink(n, i);
    }

    /** update: the socket was heard from now. */
    method Update(n: RNode, ghost i: nat, now: int)
      requires Valid() && n in pool && clock <= now && (n.onList ==> i < |nodes| && nodes[i] == n)
      modifies this, pool
      ensures Valid() && OthersKept(n) && n.onList == old(n.onList)
      ensures n.onList ==> nodes == Without(old(nodes), i) + [n] && n.timeStamp == clock == now
      ensures !n.onList ==> nodes == old(nodes) && clock == old(clock) && n.timeStamp == old(n.timeStamp)
    {
      if !n.onList { return; }
      n.timeStamp := now;
      clock := now;
      MoveToEnd(n, i);
      hide Linked;
    }

    method MoveToEnd(n: RNode, ghost i: nat)
      requires Linked() && i < |nodes| && nodes[i] == n
      modifies this`first, this`last, this`nodes, pool
      ensures Linked() && nodes == Without(old(nodes), i) + [n]
      ensures n.timeStamp == old(n.timeStamp) && n.onList == old(n.onList) && OthersKept(n)
    {
      Around(i);
      if n.next == null { return; }
      Unlink(n, i);
      Append(n);
    }

    lemma {:induction false} Facts()
      requires Valid()
      ensures NoRepeats(nodes) && (first == null <==> nodes == []) && (nodes != [] ==> first == nodes[0])
      ensures forall i :: 0 <= i < |nodes| ==>
                nodes[i] in pool && nodes[i].onList && nodes[0].timeStamp <= nodes[i].timeStamp
    {
    }

    method Examine(n: RNode, usable: bool, now: int)
      requires Valid() && nodes != [] && first == n && clock <= now
      modifies this, pool
      ensures Valid() && OthersKept(n) && clock <= now && n.onList == usable
      ensures n == old(nodes)[0] && nodes == Without(old(nodes), 0) + (if usable then [n] else [])
      ensures usable ==> n.timeStamp == now
    {
      if usable {
        Update(n, 0, now);
      } else {
        Remove(n, 0);
        n.onList := false;
      }
    }

    /** The sweep: looks at the first socket again and again while it was last heard from before the deadline. A usable
        one runs its timers and counts as heard from; any other one leaves the list. The k-th look at the clock
        reads ticks(k). */
    method Sweep(ticks: nat -> int, timeout: nat, usable: RNode -> bool) returns (ghost stale: nat)
      requires Valid() && clock <= ticks(0) && forall i: nat, j: nat :: i <= j ==> ticks(i) <= ticks(j)
      modifies this, pool
      ensures Valid() && pool == old(pool) && stale <= |old(nodes)|
      ensures forall i :: 0 <= i < |old(nodes)| ==> (i < stale <==> old(nodes[i].timeStamp) < ticks(0) - timeout)
      ensures nodes == old(nodes)[stale..] + Kept(old(nodes)[..stale], usable)
      ensures forall i :: 0 <= i < |nodes| ==> nodes[i].timeStamp >= ticks(0) - timeout
      ensures forall i :: 0 <= i < stale ==> old(nodes)[i].onList == usable(old(nodes)[i])
      ensures forall m :: m in pool && m !in old(nodes)[..stale] ==>
                m.timeStamp == old(m.timeStamp) && m.onList == old(m.onList)
    {
      hide Linked, Sorted, NoRepeats, Kept, Without;
      var ul := first;
      var ctime := ticks(0) - timeout;
      var k: nat := 0;
      ghost var was := nodes;
      Facts();
      KeptNone(was, usable);
      while ul != null && ul.timeStamp < ctime
        invariant Valid() && pool == old(pool) && ul == first && k <= |was| && clock <= ticks(k)
        invariant NoRepeats(was) && nodes == was[k..] + Kept(was[..k], usable)
        invariant forall i :: 0 <= i < k ==> old(was[i].timeStamp) < ctime && was[i].onList == usable(was[i])
        invariant forall i :: 0 <= i < k && usable(was[i]) ==> was[i].timeStamp >= ctime
        invariant forall m :: m in pool && m !in was[..k] ==>
                  m.timeStamp == old(m.timeStamp) && m.onList == old(m.onList)
        decreases |was| - k
      {
        Facts();
        KeptIn(was[..k], usable, ul);
        assert was[..|was|] == was && k < |was|;
        Rotate(was, k, usable);
        Apart(was, k);
        Examine(ul, usable(ul), ticks(k + 1));
        k := k + 1;
        ul := first;
      }
      stale := k;
      Facts();
      forall i | k <= i < |was| ensures old(was[i].timeStamp) >= ctime {
        assert was[i] == nodes[i - k];
        Apart(was, k);
      }
    }
  }
}
