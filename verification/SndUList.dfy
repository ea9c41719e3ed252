/** CSndUList: the array heap of sockets with the back-pointers that let a socket be removed from the middle. */
module SndULists {
  import opened HeapModel

  /** The scheduling record of one socket: its next sending time and its place on the heap, -1 when off it. */
  class SNode {
    var timeStamp: int
    var heapLoc: int

    constructor ()
      ensures heapLoc == -1
    {
      timeStamp := 0;
      heapLoc := -1;
    }
  }

  class SndUList {
    const heap: array<SNode?>
    var lastEntry: int
    ghost var nodes: set<SNode>

    ghost predicate Occupied()
      reads this, heap
    {
      && -1 <= lastEntry < heap.Length
      && (forall i :: 0 <= i <= lastEntry ==> heap[i] != null && heap[i] in nodes)
    }

    /** Places and back-pointers are inverse to each other. */
    ghost predicate Linked()
      reads this, heap, nodes
    {
      && Occupied()
      && (forall i :: 0 <= i <= lastEntry ==> heap[i].heapLoc == i)
      && (forall m :: m in nodes ==> m.heapLoc == -1 || (0 <= m.heapLoc <= lastEntry && heap[m.heapLoc] == m))
    }

    /** As Linked, but n, at place q, has not been told so yet. */
    ghost predicate LinkedBut(n: SNode, q: int)
      reads this, heap, nodes
    {
      && Occupied() && n in nodes && n.heapLoc == -1 && 0 <= q <= lastEntry && heap[q] == n
      && (forall i :: 0 <= i <= lastEntry && i != q ==> heap[i].heapLoc == i)
      && (forall m :: m in nodes && m.heapLoc != -1 ==>
            0 <= m.heapLoc <= lastEntry && m.heapLoc != q && heap[m.heapLoc] == m)
    }

    /** As Linked, but n, no longer on the heap, still holds a place. */
    ghost predicate LinkedWithout(n: SNode)
      reads this, heap, nodes
    {
      && Occupied() && n in nodes && n.heapLoc >= 0
      && (forall i :: 0 <= i <= lastEntry ==> heap[i] != n && heap[i].heapLoc == i)
      && (forall m :: m in nodes && m != n ==> m.heapLoc == -1 || (0 <= m.heapLoc <= lastEntry && heap[m.heapLoc] == m))
    }

    ghost function EntryAt(i: int): Entry<SNode>
      reads this, heap, nodes
      requires Occupied() && 0 <= i <= lastEntry
    {
      Entry(heap[i].timeStamp, heap[i])
    }

    ghost function Entries(): (h: seq<Entry<SNode>>)
      reads this, heap, nodes
      requires Occupied()
    {
      seq(lastEntry + 1, i requires Occupied() && 0 <= i <= lastEntry reads this, heap, nodes => EntryAt(i))
    }

    constructor (length: nat)
      ensures Linked() && Entries() == [] && nodes == {} && fresh(heap) && heap.Length == length
    {
      heap := new SNode?[length](_ => null);
      lastEntry := -1;
      nodes := {};
    }

    /** A socket gets its scheduling record, off the heap. */
    method Enlist(n: SNode)
      requires Linked() && n.heapLoc == -1
      modifies this`nodes
      ensures Linked() && nodes == old(nodes) + {n} && Entries() == old(Entries())
    {
      nodes := nodes + {n};
    }

    /** insert_ */
    method Insert_(ts: int, n: SNode)
      requires Linked() && n in nodes && lastEntry + 1 < heap.Length
      modifies this`lastEntry, heap, nodes
      ensures Linked() && lastEntry <= old(lastEntry) + 1
      ensures Entries() == if old(n.heapLoc) >= 0 then old(Entries()) else Inserted(old(Entries()), Entry(ts, n))
    {
      if n.heapLoc >= 0 { return; }
      ghost var was := Entries();
      Append(ts, n);
      var q, p := lastEntry, lastEntry;
      while p != 0
        invariant LinkedBut(n, q) && lastEntry == |was| && p == q
        invariant SiftUp(Entries(), q) == Inserted(was, Entry(ts, n))
        decreases q
      {
        p := (q - 1) / 2;
        if heap[p].timeStamp > heap[q].timeStamp {
          Rise(p, q, n);
          q := p;
        } else {
          break;
        }
      }
      Tell(q, n);
    }

    method Append(ts: int, n: SNode)
      requires Linked() && n in nodes && n.heapLoc == -1 && lastEntry + 1 < heap.Length
      modifies this`lastEntry, heap, n`timeStamp
      ensures lastEntry == old(lastEntry) + 1 && LinkedBut(n, lastEntry)
      ensures Entries() == old(Entries()) + [Entry(ts, n)]
    {
      lastEntry := lastEntry + 1;
      heap[lastEntry] := n;
      n.timeStamp := ts;
    }

    /** n changes places with its parent t; only t is told. */
    method Rise(p: nat, q: nat, n: SNode)
      requires LinkedBut(n, q) && p < q
      modifies heap, nodes
      ensures LinkedBut(n, p)
      ensures Entries() == Swap(old(Entries()), p, q)
    {
      var t := heap[p];
      heap[p] := heap[q];
      heap[q] := t;
      t.heapLoc := q;
    }

    method Tell(q: nat, n: SNode)
      requires LinkedBut(n, q)
      modifies n`heapLoc
      ensures Linked() && Entries() == old(Entries())
    {
      n.heapLoc := q;
    }

    /** remove_ */
    method Remove_(n: SNode)
      requires Linked() && n in nodes
      modifies this`lastEntry, heap, nodes
      ensures Linked() && n.heapLoc == -1
      ensures lastEntry == if old(n.heapLoc) >= 0 then old(lastEntry) - 1 else old(lastEntry)
      ensures Entries() == if old(n.heapLoc) >= 0 then Removed(old(Entries()), old(n.heapLoc)) else old(Entries())
    {
      hide SiftDown, Swap;
      if n.heapLoc < 0 { return; }
      ghost var was := Entries();
      ghost var loc := n.heapLoc;
      Vacate(n);
      assert SiftDown(Entries(), loc) == Removed(was, loc);
      hide Removed;
      var q := n.heapLoc;
      var p := q * 2 + 1;
      while p <= lastEntry
        invariant LinkedWithout(n) && lastEntry == |was| - 2 && 0 <= q && p == q * 2 + 1
        invariant SiftDown(Entries(), q) == Removed(was, loc)
        decreases lastEntry - q
      {
        if p + 1 <= lastEntry && heap[p].timeStamp > heap[p + 1].timeStamp {
          p := p + 1;
        }
        assert p == EarlierChild(Entries(), q);
        SiftStep(Entries(), q);
        if heap[q].timeStamp > heap[p].timeStamp {
          Sink(q, p, n);
          q := p;
          p := q * 2 + 1;
        } else {
          break;
        }
      }
      SiftStep(Entries(), q);
      Forget(n);
    }

    /** The last node takes n's place. */
    method Vacate(n: SNode)
      requires Linked() && n in nodes && n.heapLoc >= 0
      modifies this`lastEntry, heap, nodes
      ensures LinkedWithout(n) && n.heapLoc == old(n.heapLoc) && lastEntry == old(lastEntry) - 1
      ensures Entries() == old(Entries())[old(n.heapLoc) := old(Entries())[old(lastEntry)]][..old(lastEntry)]
    {
      heap[n.heapLoc] := heap[lastEntry];
      lastEntry := lastEntry - 1;
      heap[n.heapLoc].heapLoc := n.heapLoc;
    }

    method Sink(q: nat, p: nat, n: SNode)
      requires LinkedWithout(n) && q < p <= lastEntry
      modifies heap, nodes
      ensures LinkedWithout(n)
      ensures Entries() == Swap(old(Entries()), q, p)
    {
      var t := heap[p];
      heap[p] := heap[q];
      heap[p].heapLoc := p;
      heap[q] := t;
      heap[q].heapLoc := q;
    }

    method Forget(n: SNode)
      requires LinkedWithout(n)
      modifies n`heapLoc
      ensures Linked() && Entries() == old(Entries()) && n.heapLoc == -1
    {
      n.heapLoc := -1;
    }

    /** update: asks for the socket to be served as soon as possible. */
    method Update(n: SNode, reschedule: bool)
      requires Linked() && n in nodes && lastEntry + 1 < heap.Length
      modifies this`lastEntry, heap, nodes
      ensures Linked()
      ensures Entries() ==
              if old(n.heapLoc) == -1 then Inserted(old(Entries()), Entry(1, n))
              else if !reschedule then old(Entries())
              else if old(n.heapLoc) == 0 then old(Entries())[0 := Entry(1, n)]
              else Inserted(Removed(old(Entries()), old(n.heapLoc)), Entry(1, n))
    {
      if n.heapLoc >= 0 {
        if !reschedule { return; }
        if n.heapLoc == 0 {
          n.timeStamp := 1;
          return;
        }
        Remove_(n);
      }
      Insert_(1, n);
    }

    /** pop: takes the root off; a live socket that packed a packet comes back with its next time, unless that is 0. */
    method Pop(usable: bool, packed: bool, ts: nat) returns (n: SNode?)
      requires Linked()
      modifies this`lastEntry, heap, nodes
      ensures Linked()
      ensures old(lastEntry) == -1 ==> n == null && Entries() == []
      ensures old(lastEntry) >= 0 ==>
                && (n != null <==> usable && packed)
                && (n != null ==> n == old(heap[0]))
                && var rest := Removed(old(Entries()), 0);
                  Entries() == if usable && packed && ts > 0 then Inserted(rest, Entry(ts, old(heap[0]))) else rest
    {
      if lastEntry == -1 { return null; }
      var u := heap[0];
      Remove_(u);
      if !usable || !packed { return null; }
      if ts > 0 {
        Insert_(ts, u);
      }
      n := u;
    }

    /** getNextProcTime: 0 for an empty heap, otherwise the root's time, the least one when order holds. */
    method NextProcTime() returns (t: int)
      requires Linked()
      ensures lastEntry == -1 ==> t == 0
      ensures lastEntry >= 0 ==> t == Entries()[0].ts
      ensures Order(Entries()) ==> forall i :: 0 <= i < |Entries()| ==> t <= Entries()[i].ts
    {
      if lastEntry == -1 { return 0; }
      t := heap[0].timeStamp;
      if Order(Entries()) {
        forall i | 0 <= i < |Entries()| ensures t <= Entries()[i].ts {
          RootLeast(Entries(), i);
        }
      }
    }
  }
}
