/** CSndLossList: a set of sequence numbers kept as a linked list of intervals inside a circular array. */
module SndLossLists {
  import opened Numbers
  import opened SeqNo
  import opened Intervals
  import opened LossArrays

  class SndLossList {
    const size: int          // m_iSize
    const data1: array<int>  // m_piData1: interval starts, -1 in a free slot
    const data2: array<int>  // m_piData2: interval ends, -1 for a single number
    const next: array<int>   // m_piNext
    var head: int            // m_iHead
    var length: int          // m_iLength
    var lastInsertPos: int   // m_iLastInsertPos

    ghost var nodes: seq<Node>  // the intervals, in list order, as unbounded numbers
    ghost var pos: seq<int>     // the slot of each
    ghost var anchor: int       // number n belongs in slot (anchor + n) mod size

    /** The numbers in the list. */
    ghost function Contents(): set<int>
      reads this
    {
      Members(nodes)
    }

    ghost predicate Linked()
      reads this, data1, data2, next
    {
      LinkedFrom(head)
    }

    /** The arrays hold the intervals, the first of them at slot h. */
    ghost predicate LinkedFrom(h: int)
      reads this, data1, data2, next
    {
      && data1 != data2 && data1 != next && data2 != next
      && Rep(size, anchor, nodes, pos, data1[..], data2[..], next[..], h, length, lastInsertPos)
    }

    ghost predicate Valid()
      reads this, data1, data2, next
    {
      Linked() && Ordered(nodes)
    }

    /** Interval k at slot loc has just been written and may reach into the ones after it. */
    ghost predicate Ready(loc: int, k: int)
      reads this, data1, data2, next
    {
      Linked() && OrderedBut(nodes, k) && 0 <= k < |nodes| && |pos| == |nodes| && pos[k] == loc && lastInsertPos == loc
    }

    constructor (size: int)
      requires size > 0
      ensures Valid() && Contents() == {} && this.size == size && length == 0
      ensures fresh(data1) && fresh(data2) && fresh(next)
    {
      this.size := size;
      data1 := new int[size](_ => -1);
      data2 := new int[size](_ => -1);
      next := new int[size](_ => -1);
      head, length, lastInsertPos := -1, 0, -1;
      nodes, pos, anchor := [], [], 0;
    }

    /** One round of the coalescing loop: interval k takes in the one after it. */
    method Absorb(loc: int, ghost k: int)
      requires Linked() && OrderedBut(nodes, k) && 0 <= k && k + 1 < |nodes| && pos[k] == loc && lastInsertPos == loc
      requires nodes[k].lo < nodes[k].hi && nodes[k + 1].lo <= nodes[k].hi + 1
      modifies this`length, this`nodes, this`pos, data1, data2, next
      ensures Linked() && OrderedBut(nodes, k)
      ensures |nodes| == |old(nodes)| - 1 && |pos| == |nodes| && pos[k] == loc && lastInsertPos == loc
      ensures Contents() == old(Contents())
    {
      ghost var d1, d2, nx := data1[..], data2[..], next[..];
      PairAt(size, anchor, nodes, pos, d1, d2, nx, head, length, lastInsertPos, k);
      var i := next[loc];
      Join(loc, i, nodes[k], nodes[k + 1]);
      AbsorbRep(size, anchor, nodes, pos, d1, d2, nx, head, old(length), k, data1[..], data2[..], next[..], length);
      nodes := Absorbed(nodes, k);
      pos := Without(pos, k + 1);
      assert Rep(size, anchor, nodes, pos, data1[..], data2[..], next[..], head, length, lastInsertPos);
    }

    /** The array writes of one round: interval b at slot i is merged into interval a at slot loc. */
    method Join(loc: int, i: int, ghost a: Node, ghost b: Node)
      requires size == data1.Length == data2.Length == next.Length
      requires data1 != data2 && data1 != next && data2 != next
      requires 0 <= loc < size && 0 <= i < size && loc != i
      requires a.lo < a.hi && a.lo < b.lo <= b.hi && b.lo <= a.hi + 1
      requires a.hi - a.lo < SEQ_NO_TH && b.hi - a.lo < SEQ_NO_TH
      requires data2[loc] == EndOf(a) && data1[i] == Wrap(b.lo) && data2[i] == EndOf(b)
      modifies this`length, data1, data2, next
      ensures data1[..] == old(data1[..])[i := -1]
      ensures data2[..] == old(data2[..])[loc := EndOf(Node(a.lo, Max(a.hi, b.hi)))][i := -1]
      ensures next[..] == old(next[..])[loc := old(next[i])]
      ensures length == old(length) - (Min(a.hi, b.hi) - b.lo + 1)
    {
      Compare(a.lo, a.hi, b.lo, b.hi);
      if data2[i] != -1 {
        if SeqCmp(data2[i], data2[loc]) > 0 {
          if SeqCmp(data2[loc], data1[i]) >= 0 {
            length := length - SeqLen(data1[i], data2[loc]);
          }
          data2[loc] := data2[i];
        } else {
          length := length - SeqLen(data1[i], data2[i]);
        }
      } else {
        if data1[i] == IncSeq(data2[loc]) {
          data2[loc] := data1[i];
        } else {
          length := length - 1;
        }
      }
      assert data2[..] == old(data2[..])[loc := EndOf(Node(a.lo, Max(a.hi, b.hi)))];
      data1[i] := -1;
      data2[i] := -1;
      next[loc] := next[i];
    }

    /** What the wrapped comparisons of the coalescing loop say about the true numbers. */
    lemma Compare(lo1: int, hi1: int, lo2: int, hi2: int)
      requires lo1 < hi1 && lo1 < lo2 <= hi2 && lo2 <= hi1 + 1
      requires hi1 - lo1 < SEQ_NO_TH && hi2 - lo1 < SEQ_NO_TH
      ensures SeqCmp(Wrap(hi2), Wrap(hi1)) > 0 <==> hi2 > hi1
      ensures SeqCmp(Wrap(hi1), Wrap(lo2)) >= 0 <==> hi1 >= lo2
      ensures Wrap(lo2) == IncSeq(Wrap(hi1)) <==> lo2 == hi1 + 1
      ensures lo2 <= hi1 ==> SeqLen(Wrap(lo2), Wrap(hi1)) == hi1 - lo2 + 1
      ensures SeqLen(Wrap(lo2), Wrap(hi2)) == hi2 - lo2 + 1
    {
      CmpRefines(hi2, hi1);
      CmpRefines(hi1, lo2);
      IncRefines(hi1);
      WrapInjective(lo2, hi1 + 1);
      LenRefines(lo2, hi2);
      if lo2 <= hi1 { LenRefines(lo2, hi1); }
    }

    /** Whether the coalescing loop goes on: interval k is no single number and touches the next one. */
    method ReachesNext(loc: int, ghost k: int) returns (more: bool)
      requires Ready(loc, k)
      ensures more ==> k + 1 < |nodes| && nodes[k].lo < nodes[k].hi && nodes[k + 1].lo <= nodes[k].hi + 1
      ensures !more ==> Ordered(nodes)
    {
      RepAt(size, anchor, nodes, pos, data1[..], data2[..], next[..], head, length, lastInsertPos, k);
      EndOfFacts(nodes[k]);
      more := false;
      if next[loc] != -1 && data2[loc] != -1 {
        PairAt(size, anchor, nodes, pos, data1[..], data2[..], next[..], head, length, lastInsertPos, k);
        ReachRefines(nodes[k].hi, nodes[k + 1].lo);
        more := SeqCmp(data1[next[loc]], IncSeq(data2[loc])) <= 0;
      }
      if !more {
        Settled(size, anchor, nodes, pos, data1[..], data2[..], next[..], head, length, lastInsertPos, k);
      }
    }

    /** The loop that coalesces interval k with the ones it reaches. */
    method Coalesce(loc: int, ghost k: int)
      requires Ready(loc, k)
      modifies this`length, this`nodes, this`pos, data1, data2, next
      ensures Valid() && Contents() == old(Contents())
    {
      var more := ReachesNext(loc, k);
      while more
        invariant Ready(loc, k) && Contents() == old(Contents())
        invariant more ==> k + 1 < |nodes| && nodes[k].lo < nodes[k].hi && nodes[k + 1].lo <= nodes[k].hi + 1
        invariant !more ==> Ordered(nodes)
        decreases |nodes|
      {
        Absorb(loc, k);
        more := ReachesNext(loc, k);
      }
    }

    // ---------- insert ----------

    /** Into an empty list: the array is refilled from slot 0. */
    method InsertFirst(seqno1: Seq31, seqno2: Seq31, ghost a: int, ghost b: int)
      requires Valid() && nodes == [] && Fits(size, {}, a, b) && seqno1 == Wrap(a) && seqno2 == Wrap(b)
      modifies this, data1, data2, next
      ensures Valid() && nodes == [Node(a, b)]
    {
      ghost var d1, d2, nx := data1[..], data2[..], next[..];
      head := 0;
      data1[head] := seqno1;
      if seqno2 != seqno1 {
        data2[head] := seqno2;
      }
      next[head] := -1;
      lastInsertPos := head;
      length := length + SeqLen(seqno1, seqno2);
      LenRefines(a, b);
      WrapInjective(a, b);
      anchor := -a;
      ghost var n := Node(a, b);
      LinkRep(size, anchor, [], [], d1, d2, nx, -1, 0, -1, 0, n, 0, 0);
      nodes, pos := [n], [0];
      assert With([], 0, n) == nodes && With([], 0, 0) == pos;
      assert data1[..] == d1[0 := Wrap(a)] && data2[..] == d2[0 := EndOf(n)];
    }

    /** The array writes of a new node: its data in a free slot, its link after prior or at the front. */
    method WriteNode(loc: int, seqno1: Seq31, seqno2: Seq31, prior: int, ghost a: int, ghost b: int)
      requires data1.Length == data2.Length == next.Length
      requires data1 != data2 && data1 != next && data2 != next
      requires 0 <= loc < data1.Length && -1 <= prior < data1.Length && prior != loc && data2[loc] == -1
      requires a <= b && b - a < SEQ_NO_TH && seqno1 == Wrap(a) && seqno2 == Wrap(b)
      modifies this`head, this`length, this`lastInsertPos, data1, data2, next
      ensures lastInsertPos == loc
      ensures data1[..] == old(data1[..])[loc := Wrap(a)]
      ensures data2[..] == old(data2[..])[loc := EndOf(Node(a, b))]
      ensures next[..] == (if prior == -1 then old(next[..])[loc := old(head)]
                           else old(next[..])[prior := loc][loc := old(next[prior])])
      ensures head == (if prior == -1 then loc else old(head))
      ensures length == old(length) + (b - a + 1)
    {
      LenRefines(a, b);
      WrapInjective(a, b);
      lastInsertPos := loc;
      data1[loc] := seqno1;
      if seqno2 != seqno1 {
        data2[loc] := seqno2;
      }
      if prior == -1 {
        next[loc] := head;
        head := loc;
      } else {
        next[loc] := next[prior];
        next[prior] := loc;
      }
      length := length + SeqLen(seqno1, seqno2);
    }

    /** A new interval as the k-th, written into the free slot of its first number. */
    method Link(loc: int, seqno1: Seq31, seqno2: Seq31, prior: int, ghost k: int, ghost a: int, ghost b: int)
      requires Valid() && |pos| == |nodes| && 0 <= k <= |nodes|
      requires seqno1 == Wrap(a) && seqno2 == Wrap(b) && a <= b && Close(size, a, b)
      requires loc == Slot(size, anchor, a) && 0 <= loc < size && prior == (if k == 0 then -1 else pos[k - 1])
      requires forall i :: 0 <= i < |nodes| ==> Close(size, a, nodes[i].hi) && Close(size, nodes[i].lo, b)
      requires (k > 0 ==> nodes[k - 1].hi < a) && (k < |nodes| ==> a < nodes[k].lo)
      modifies this`head, this`length, this`lastInsertPos, this`nodes, this`pos, data1, data2, next
      ensures Ready(loc, k) && Contents() == old(Contents()) + Span(a, b)
    {
      hide Rep, Ordered, OrderedBut, Window, Distinct, Members, Span;
      ghost var d1, d2, nx, h, n := data1[..], data2[..], next[..], head, Node(a, b);
      LinkAt(size, anchor, nodes, pos, d1, d2, nx, head, length, lastInsertPos, k, n, loc);
      WriteNode(loc, seqno1, seqno2, prior, a, b);
      nodes, pos := With(nodes, k, n), With(pos, k, loc);
      assert next[..] == if prior == -1 then nx[loc := h] else nx[prior := loc][loc := nx[prior]];
      assert Rep(size, anchor, nodes, pos, data1[..], data2[..], next[..], head, length, lastInsertPos);
    }

    /** Interval k, at slot loc, grows up to b. */
    method Grow(loc: int, seqno2: Seq31, added: int, ghost k: int, ghost a: int, ghost b: int)
      requires Valid() && |pos| == |nodes| && 0 <= k < |nodes| && pos[k] == loc && 0 <= loc < data2.Length
      requires seqno2 == Wrap(b) && nodes[k].lo <= a <= nodes[k].hi + 1 && nodes[k].hi < b && added == b - nodes[k].hi
      requires forall i :: 0 <= i < |nodes| ==> Close(size, nodes[i].lo, b)
      modifies this`length, this`lastInsertPos, this`nodes, data2
      ensures Ready(loc, k) && Contents() == old(Contents()) + Span(a, b)
    {
      hide Rep, Members, Span, Wrap, EndOf, Ordered, OrderedBut;
      GrowAt(size, anchor, nodes, pos, data1[..], data2[..], next[..], head, length, lastInsertPos, k, a, b);
      WriteEnd(loc, seqno2, added);
      nodes := nodes[k := Node(nodes[k].lo, b)];
    }

    method WriteEnd(loc: int, seqno2: Seq31, added: int)
      requires 0 <= loc < data2.Length
      modifies this`length, this`lastInsertPos, data2
      ensures data2[..] == old(data2[..])[loc := seqno2] && length == old(length) + added && lastInsertPos == loc
    {
      lastInsertPos := loc;
      length := length + added;
      data2[loc] := seqno2;
    }

    /** The loop condition of the search: the next interval starts before seqno as well. */
    method NextIsBefore(i: int, seqno: Seq31, ghost k: int, ghost a: int) returns (more: bool, after: int)
      requires Linked() && |pos| == |nodes| && 0 <= k < |nodes| && i == pos[k]
      requires seqno == Wrap(a) && forall j :: 0 <= j < |nodes| ==> Near(nodes[j].lo, a)
      ensures more <==> k + 1 < |nodes| && nodes[k + 1].lo < a
      ensures more ==> after == pos[k + 1]
    {
      SearchAt(size, anchor, nodes, pos, data1[..], data2[..], next[..], head, length, lastInsertPos, a, k);
      after := next[i];
      more := after != -1 && SeqCmp(data1[after], seqno) < 0;
    }

    /** The search for the last interval that starts before seqno. */
    method SearchPrior(start: int, seqno: Seq31, ghost k0: int, ghost a: int) returns (i: int, ghost k: int)
      requires Linked() && |pos| == |nodes| && 0 <= k0 < |nodes| && start == pos[k0] && nodes[k0].lo < a
      requires seqno == Wrap(a) && forall j :: 0 <= j < |nodes| ==> Near(nodes[j].lo, a)
      ensures 0 <= k < |nodes| && i == pos[k] && nodes[k].lo < a && (k + 1 < |nodes| ==> a <= nodes[k + 1].lo)
    {
      hide Rep;
      i, k := start, k0;
      var more, after := NextIsBefore(i, seqno, k, a);
      while more
        invariant 0 <= k < |nodes| && i == pos[k] && nodes[k].lo < a
        invariant more <==> k + 1 < |nodes| && nodes[k + 1].lo < a
        invariant more ==> after == pos[k + 1]
        decreases |nodes| - k
      {
        i, k := after, k + 1;
        more, after := NextIsBefore(i, seqno, k, a);
      }
    }

    /** seqno1 is the start of interval k, at slot loc: only its end may have to move. */
    method InsertAtNode(loc: int, seqno1: Seq31, seqno2: Seq31, ghost k: int, ghost a: int, ghost b: int)
      returns (changed: bool)
      requires Valid() && |pos| == |nodes| && 0 <= k < |nodes| && pos[k] == loc && nodes[k].lo == a
      requires seqno1 == Wrap(a) && seqno2 == Wrap(b) && a <= b && Close(size, a, b)
      requires forall i :: 0 <= i < |nodes| ==> Close(size, a, nodes[i].hi) && Close(size, nodes[i].lo, b)
      modifies this`length, this`lastInsertPos, this`nodes, data2
      ensures Contents() == old(Contents()) + Span(a, b)
      ensures (if changed then Ready(loc, k) else Valid() && length == old(length))
    {
      RepAt(size, anchor, nodes, pos, data1[..], data2[..], next[..], head, length, lastInsertPos, k);
      EndOfFacts(nodes[k]);
      CmpRefines(b, nodes[k].hi);
      LenRefines(a, b);
      WrapInjective(a, b);
      if b <= nodes[k].hi { Covered(nodes, k, a, b); } else { LenRefines(nodes[k].hi, b); }
      lastInsertPos := loc;
      changed := true;
      if data2[loc] == -1 {
        if seqno2 != seqno1 {
          Grow(loc, seqno2, SeqLen(seqno1, seqno2) - 1, k, a, b);
        }
      } else if SeqCmp(seqno2, data2[loc]) > 0 {
        Grow(loc, seqno2, SeqLen(data2[loc], seqno2) - 1, k, a, b);
      } else {
        changed := false;
      }
    }

    /** No interval starts at seqno1: it extends interval k, the last one before it, or becomes a new one. */
    method InsertAfter(loc: int, i: int, seqno1: Seq31, seqno2: Seq31, ghost k: int, ghost a: int, ghost b: int)
      returns (changed: bool, at: int, ghost m: int)
      requires Valid() && |pos| == |nodes| && 0 <= k < |nodes| && pos[k] == i
      requires seqno1 == Wrap(a) && seqno2 == Wrap(b) && a <= b && Close(size, a, b)
      requires loc == Slot(size, anchor, a) && 0 <= loc < size
      requires nodes[k].lo < a && (k + 1 < |nodes| ==> a < nodes[k + 1].lo)
      requires forall i :: 0 <= i < |nodes| ==> Close(size, a, nodes[i].hi) && Close(size, nodes[i].lo, b)
      modifies this`head, this`length, this`lastInsertPos, this`nodes, this`pos, data1, data2, next
      ensures Contents() == old(Contents()) + Span(a, b)
      ensures (if changed then Ready(at, m) else Valid() && length == old(length))
    {
      hide Wrap, SeqCmp, SeqLen, Members, Span;
      RepAt(size, anchor, nodes, pos, data1[..], data2[..], next[..], head, length, lastInsertPos, k);
      EndOfFacts(nodes[k]);
      CmpRefines(nodes[k].hi, a);
      CmpRefines(nodes[k].hi, b);
      changed, at, m := true, loc, k + 1;
      if data2[i] == -1 || SeqCmp(data2[i], seqno1) < 0 {
        Link(loc, seqno1, seqno2, i, k + 1, a, b);
      } else {
        at, m := i, k;
        if SeqCmp(data2[i], seqno2) < 0 {
          LenRefines(nodes[k].hi, b);
          Grow(i, seqno2, SeqLen(data2[i], seqno2) - 1, k, a, b);
        } else {
          Covered(nodes, k, a, b);
          lastInsertPos := i;
          changed := false;
        }
      }
    }

    /** CSndLossList::insert: adds exactly the numbers a..b and returns how many of them were new. */
    method Insert(seqno1: Seq31, seqno2: Seq31, ghost a: int, ghost b: int) returns (added: int)
      requires Valid() && seqno1 == Wrap(a) && seqno2 == Wrap(b) && Fits(size, Contents(), a, b)
      modifies this, data1, data2, next
      ensures Valid() && Contents() == old(Contents()) + Span(a, b)
      ensures added == |Contents()| - |old(Contents())|
    {
      Cardinality(nodes);
      if length == 0 {
        TotalZero(nodes);
        InsertFirst(seqno1, seqno2, a, b);
        Around(nodes, 0);
        Cardinality(nodes);
        return length;
      }
      var origlen := length;
      var changed, loc, k := InsertSomewhere(seqno1, seqno2, a, b);
      if changed {
        Coalesce(loc, k);
      }
      Cardinality(nodes);
      added := length - origlen;
    }

    /** Into a list that is not empty: by the place of seqno1 relative to the head. */
    method InsertSomewhere(seqno1: Seq31, seqno2: Seq31, ghost a: int, ghost b: int)
      returns (changed: bool, at: int, ghost k: int)
      requires Valid() && length > 0 && seqno1 == Wrap(a) && seqno2 == Wrap(b) && Fits(size, Contents(), a, b)
      modifies this`head, this`length, this`lastInsertPos, this`nodes, this`pos, data1, data2, next
      ensures Contents() == old(Contents()) + Span(a, b)
      ensures (if changed then Ready(at, k) else Valid() && length == old(length))
    {
      hide Span, Members, Wrap, SeqOff, SeqCmp;
      FitsNodes(size, nodes, a, b);
      RepAt(size, anchor, nodes, pos, data1[..], data2[..], next[..], head, length, lastInsertPos, 0);
      SlotFromHead(size, anchor, nodes[0].lo, a, head);
      var offset := SeqOff(data1[head], seqno1);
      var loc := SlotFrom(offset);
      changed, at := true, loc;
      k := StartsAt(size, anchor, nodes, pos, data1[..], data2[..], a);
      if offset < 0 {
        k := 0;
        Link(loc, seqno1, seqno2, -1, 0, a, b);
      } else if offset > 0 {
        if seqno1 == data1[loc] {
          changed := InsertAtNode(loc, seqno1, seqno2, k, a, b);
        } else {
          var i;
          i, k := FindPrior(seqno1, a);
          changed, at, k := InsertAfter(loc, i, seqno1, seqno2, k, a, b);
        }
      } else {
        k := 0;
        changed := InsertAtNode(loc, seqno1, seqno2, 0, a, b);
      }
    }

    /** The search starts at the last insertion point when that lies before seqno, else at the head. */
    method FindPrior(seqno: Seq31, ghost a: int) returns (i: int, ghost k: int)
      requires Linked() && |pos| == |nodes| && 0 < |nodes| && nodes[0].lo < a
      requires seqno == Wrap(a) && forall j :: 0 <= j < |nodes| ==> Near(nodes[j].lo, a)
      ensures 0 <= k < |nodes| && i == pos[k] && nodes[k].lo < a && (k + 1 < |nodes| ==> a <= nodes[k + 1].lo)
    {
      k := 0;
      if lastInsertPos != -1 {
        k :| 0 <= k < |pos| && pos[k] == lastInsertPos;
        RepAt(size, anchor, nodes, pos, data1[..], data2[..], next[..], head, length, lastInsertPos, k);
        CmpRefines(nodes[k].lo, a);
      }
      RepAt(size, anchor, nodes, pos, data1[..], data2[..], next[..], head, length, lastInsertPos, 0);
      if lastInsertPos != -1 && SeqCmp(data1[lastInsertPos], seqno) < 0 {
        i, k := SearchPrior(lastInsertPos, seqno, k, a);
      } else {
        i, k := SearchPrior(head, seqno, 0, a);
      }
    }

    // ---------- remove and getLostSeq ----------

    /** The first interval leaves the list; the caller moves the head. */
    method ClearNode(h: int)
      requires 0 <= h < data1.Length == data2.Length && data1 != data2
      modifies this`lastInsertPos, data1, data2
      ensures data1[..] == old(data1[..])[h := -1] && data2[..] == old(data2[..])[h := -1]
      ensures lastInsertPos == if old(lastInsertPos) == h then -1 else old(lastInsertPos)
    {
      data1[h] := -1;
      data2[h] := -1;
      if lastInsertPos == h {
        lastInsertPos := -1;
      }
    }

    /** The first interval, a single number, is dropped. */
    method DropFirst()
      requires Valid() && nodes != [] && nodes[0].lo == nodes[0].hi
      modifies this`head, this`length, this`lastInsertPos, this`nodes, this`pos, data1, data2
      ensures Valid() && nodes == old(nodes)[1..]
    {
      ghost var d1, d2 := data1[..], data2[..];
      RepAt(size, anchor, nodes, pos, d1, d2, next[..], head, length, lastInsertPos, 0);
      DropRep(size, anchor, nodes, pos, d1, d2, next[..], length, lastInsertPos);
      var h := next[head];
      ClearNode(head);
      head := h;
      length := length - 1;
      nodes, pos := nodes[1..], pos[1..];
      assert Rep(size, anchor, nodes, pos, data1[..], data2[..], next[..], head, length, lastInsertPos);
    }

    /** The array writes that move the node at h, without its first number, to slot loc. */
    method MoveNode(h: int, loc: int, ghost lo: int, ghost hi: int)
      requires 0 <= h < data1.Length == data2.Length == next.Length && 0 <= loc < data1.Length && h != loc
      requires data1 != data2 && data1 != next && data2 != next
      requires data1[h] == Wrap(lo) && data2[h] == Wrap(hi) && lo < hi && data2[loc] == -1
      requires IncSeq(data1[h]) == Wrap(lo + 1) && (SeqCmp(data2[h], Wrap(lo + 1)) > 0 <==> lo + 1 < hi)
      modifies this`lastInsertPos, data1, data2, next
      ensures data1[..] == old(data1[..])[h := -1][loc := Wrap(lo + 1)]
      ensures data2[..] == old(data2[..])[h := -1][loc := EndOf(Node(lo + 1, hi))]
      ensures next[..] == old(next[..])[loc := old(next[h])]
      ensures lastInsertPos == if old(lastInsertPos) == h then -1 else old(lastInsertPos)
    {
      data1[loc] := IncSeq(data1[h]);
      if SeqCmp(data2[h], data1[loc]) > 0 {
        data2[loc] := data2[h];
      }
      ClearNode(h);
      next[loc] := next[h];
    }

    method SlotFrom(offset: int) returns (loc: int)
      requires size > 0
      ensures loc == (head + offset + size) % size
    {
      loc := (head + offset + size) % size;
    }

    method SlotAfter(i: int) returns (loc: int)
      requires size > 0
      ensures loc == (i + 1) % size
    {
      loc := (i + 1) % size;
    }

    /** The first number of the first interval is dropped: the interval moves to the next slot. */
    method ShiftFirst()
      requires Valid() && nodes != [] && nodes[0].lo < nodes[0].hi
      modifies this`head, this`length, this`lastInsertPos, this`nodes, this`pos, data1, data2, next
      ensures Valid() && nodes == [Node(old(nodes[0].lo) + 1, old(nodes[0].hi))] + old(nodes)[1..]
    {
      ghost var lo, hi := nodes[0].lo, nodes[0].hi;
      hide Rep, Ordered;
      RepAt(size, anchor, nodes, pos, data1[..], data2[..], next[..], head, length, lastInsertPos, 0);
      var loc := SlotAfter(head);
      ShiftBoth(size, anchor, nodes, pos, data1[..], data2[..], next[..], head, length, lastInsertPos, loc);
      MoveFirst(loc, lo, hi, [Node(lo + 1, hi)] + nodes[1..], [loc] + pos[1..]);
    }

    method MoveFirst(loc: int, ghost lo: int, ghost hi: int, ghost nodes': seq<Node>, ghost pos': seq<int>)
      requires 0 <= head < data1.Length == data2.Length == next.Length && 0 <= loc < data1.Length && head != loc
      requires data1 != data2 && data1 != next && data2 != next
      requires data1[head] == Wrap(lo) && data2[head] == Wrap(hi) && lo < hi && data2[loc] == -1
      requires IncSeq(data1[head]) == Wrap(lo + 1) && (SeqCmp(data2[head], Wrap(lo + 1)) > 0 <==> lo + 1 < hi)
      requires Ordered(nodes')
      requires Rep(size, anchor, nodes', pos', data1[..][head := -1][loc := Wrap(lo + 1)],
                   data2[..][head := -1][loc := EndOf(Node(lo + 1, hi))],
                   next[..][loc := next[head]], loc, length - 1, if lastInsertPos == head then -1 else lastInsertPos)
      modifies this`head, this`length, this`lastInsertPos, this`nodes, this`pos, data1, data2, next
      ensures Valid() && nodes == nodes'
    {
      hide Rep, Ordered;
      MoveNode(head, loc, lo, hi);
      head := loc;
      length := length - 1;
      nodes, pos := nodes', pos';
    }

    /** The first number leaves the list. */
    method RemoveFirst()
      requires Valid() && nodes != []
      modifies this`head, this`length, this`lastInsertPos, this`nodes, this`pos, data1, data2, next
      ensures Valid() && Contents() == old(Contents()) - {old(nodes[0].lo)}
    {
      hide Rep, Members, Span;
      RepAt(size, anchor, nodes, pos, data1[..], data2[..], next[..], head, length, lastInsertPos, 0);
      EndOfFacts(nodes[0]);
      FirstAlone(nodes);
      if data2[head] == -1 {
        DropFirst();
      } else {
        ShiftFirst();
      }
    }

    lemma {:induction false} FirstAlone(ns: seq<Node>)
      requires Ordered(ns) && ns != []
      ensures ns[0].lo == ns[0].hi ==> Members(ns[1..]) == Members(ns) - {ns[0].lo}
      ensures ns[0].lo < ns[0].hi ==> Members([Node(ns[0].lo + 1, ns[0].hi)] + ns[1..]) == Members(ns) - {ns[0].lo}
    {
      forall x | x in Members(ns[1..]) ensures ns[0].hi < x {
        InMembers(ns[1..], x);
      }
      var t := [Node(ns[0].lo + 1, ns[0].hi)] + ns[1..];
      assert t[1..] == ns[1..];
    }

    /** CSndLossList::getLostSeq: takes the least number out and returns it; -1 when there is none. */
    method GetLostSeq() returns (seqno: int, ghost n: int)
      requires Valid()
      modifies this`head, this`length, this`lastInsertPos, this`nodes, this`pos, data1, data2, next
      ensures Valid()
      ensures old(Contents()) == {} ==> seqno == -1 && Contents() == {}
      ensures old(Contents()) != {} ==>
                && n in old(Contents()) && (forall x :: x in old(Contents()) ==> n <= x)
                && seqno == Wrap(n) && Contents() == old(Contents()) - {n}
    {
      n := 0;
      Cardinality(nodes);
      if length == 0 {
        return -1, n;
      }
      assert nodes != [];
      FirstIsLeast(nodes);
      RepAt(size, anchor, nodes, pos, data1[..], data2[..], next[..], head, length, lastInsertPos, 0);
      n := nodes[0].lo;
      seqno := data1[head];
      RemoveFirst();
    }

    /** The array writes that cut the node at slot i after seqno; the rest goes to slot loc. */
    method WriteSplit(i: int, loc: int, seqno: Seq31, end: int, ghost n: int, ghost hi: int)
      requires 0 <= i < data1.Length == data2.Length == next.Length && 0 <= loc < data1.Length && i != loc
      requires data1 != data2 && data1 != next && data2 != next
      requires seqno == Wrap(n) && n < hi && hi - n < SEQ_NO_TH && data2[i] == Wrap(hi) && data2[loc] == -1
      modifies this`head, data1, data2, next
      ensures data1[..] == old(data1[..])[loc := Wrap(n + 1)]
      ensures data2[..] == old(data2[..])[i := end][loc := EndOf(Node(n + 1, hi))]
      ensures next[..] == old(next[..])[i := loc][loc := old(next[i])]
      ensures head == loc
    {
      IncRefines(n);
      CmpRefines(hi, n + 1);
      data1[loc] := IncSeq(seqno);
      if SeqCmp(data2[i], data1[loc]) > 0 {
        data2[loc] := data2[i];
      }
      data2[i] := end;
      next[loc] := next[i];
      next[i] := loc;
      head := loc;
    }

    /** Interval k, at slot i, is cut after n; everything up to the cut will go. */
    method Cut(i: int, loc: int, seqno: Seq31, end: int, ghost k: int, ghost n: int)
      requires Valid() && |pos| == |nodes| && 0 <= k < |nodes| && i == pos[k] && nodes[k].lo <= n < nodes[k].hi
      requires loc == Slot(size, anchor, n + 1) && seqno == Wrap(n) && end == EndOf(Node(nodes[k].lo, n))
      modifies this`head, this`nodes, this`pos, data1, data2, next
      ensures LinkedFrom(old(head)) && Ordered(nodes) && Contents() == old(Contents())
      ensures |pos| == |nodes| > k + 1 && head == pos[k + 1] && nodes[k].hi == n && nodes[k + 1].lo == n + 1
    {
      hide Rep;
      ghost var h, hi := head, nodes[k].hi;
      ghost var nodes', pos' := SplitAt(nodes, k, n), With(pos, k + 1, loc);
      SplitRep(size, anchor, nodes, pos, data1[..], data2[..], next[..], head, length, lastInsertPos, k, n, loc);
      WriteSplit(i, loc, seqno, end, n, hi);
      assert Rep(size, anchor, nodes', pos', data1[..], data2[..], next[..], h, length, lastInsertPos);
      nodes, pos := nodes', pos';
    }

    /** One round of the final loop of remove: the first interval goes, whatever its length. */
    method DropNode(h: int) returns (h': int)
      requires LinkedFrom(h) && Ordered(nodes) && nodes != []
      modifies this`length, this`lastInsertPos, this`nodes, this`pos, data1, data2
      ensures LinkedFrom(h') && Ordered(nodes) && nodes == old(nodes)[1..] && pos == old(pos)[1..]
    {
      hide Rep;
      RepAt(size, anchor, nodes, pos, data1[..], data2[..], next[..], h, length, lastInsertPos, 0);
      EndOfFacts(nodes[0]);
      LenRefines(nodes[0].lo, nodes[0].hi);
      DropRep(size, anchor, nodes, pos, data1[..], data2[..], next[..], length, lastInsertPos);
      if data2[h] != -1 {
        length := length - SeqLen(data1[h], data2[h]);
      } else {
        length := length - 1;
      }
      ClearNode(h);
      h' := next[h];
      nodes, pos := nodes[1..], pos[1..];
      assert Rep(size, anchor, nodes, pos, data1[..], data2[..], next[..], h', length, lastInsertPos);
    }

    /** The final loop of remove: all intervals before the new head go. */
    method DropBefore(h0: int, ghost t0: int)
      requires LinkedFrom(h0) && Ordered(nodes) && |pos| == |nodes| && 0 <= t0 <= |nodes|
      requires head == if t0 == |pos| then -1 else pos[t0]
      modifies this`length, this`lastInsertPos, this`nodes, this`pos, data1, data2
      ensures Valid() && nodes == old(nodes)[t0..]
    {
      hide Rep;
      var h := h0;
      ghost var t := t0;
      FromIs(h, t);
      while h != head
        invariant LinkedFrom(h) && Ordered(nodes) && |pos| == |nodes| && 0 <= t <= |nodes|
        invariant nodes == old(nodes)[t0 - t..] && head == (if t == |pos| then -1 else pos[t])
        invariant h == head <==> t == 0
        decreases t
      {
        h := DropNode(h);
        t := t - 1;
        FromIs(h, t);
      }
    }

    /** The slot h of the first interval is the new head exactly when none is left before it. */
    lemma {:induction false} FromIs(h: int, t: int)
      requires LinkedFrom(h) && |pos| == |nodes| && 0 <= t <= |nodes|
      ensures h == (if t == |pos| then -1 else pos[t]) <==> t == 0
    {
    }

    /** CSndLossList::remove: takes out exactly the numbers not after seqno. */
    method Remove(seqno: Seq31, ghost n: int)
      requires Valid() && seqno == Wrap(n) && forall x :: x in Contents() ==> Near(x, n)
      modifies this`head, this`length, this`lastInsertPos, this`nodes, this`pos, data1, data2, next
      ensures Valid() && Contents() == set x | x in old(Contents()) && x > n
    {
      hide Rep, Span, Members, Ordered;
      RepAt(size, anchor, nodes, pos, data1[..], data2[..], next[..], head, length, lastInsertPos, 0);
      Cardinality(nodes);
      if length == 0 {
        return;
      }
      FirstIsLeast(nodes);
      Above(Contents(), n, nodes[0].lo);
      SlotFromHead(size, anchor, nodes[0].lo, n, head);
      var offset := SeqOff(data1[head], seqno);
      var loc := SlotFrom(offset);
      if offset == 0 {
        RemoveFirst();
      } else if offset > 0 {
        RemoveUpTo(loc, seqno, n);
      }
    }

    /** The numbers above n, when n is not above the least number. */
    lemma {:induction false} Above(s: set<int>, n: int, least: int)
      requires least in s && forall x :: x in s ==> least <= x
      ensures n < least ==> (set x | x in s && x > n) == s
      ensures n == least ==> (set x | x in s && x > n) == s - {least}
    {
    }

    /** remove with a number after the start of the first interval. */
    method RemoveUpTo(loc: int, seqno: Seq31, ghost n: int)
      requires Valid() && nodes != [] && nodes[0].lo < n && seqno == Wrap(n)
      requires forall x :: x in Contents() ==> Near(x, n)
      requires loc == Slot(size, anchor, n)
      modifies this`head, this`length, this`lastInsertPos, this`nodes, this`pos, data1, data2, next
      ensures Valid() && Contents() == set x | x in old(Contents()) && x > n
    {
      hide Rep;
      var h := head;
      ghost var t := CutAfter(loc, seqno, n);
      ghost var ns := nodes;
      DropBefore(h, t);
      MembersAbove(ns, t, n);
    }

    /** The part of remove before its final loop: the new head is the first interval after seqno. */
    method CutAfter(loc: int, seqno: Seq31, ghost n: int) returns (ghost t: int)
      requires Valid() && nodes != [] && nodes[0].lo < n && seqno == Wrap(n)
      requires forall x :: x in Contents() ==> Near(x, n)
      requires loc == Slot(size, anchor, n)
      modifies this`head, this`nodes, this`pos, data1, data2, next
      ensures LinkedFrom(old(head)) && Ordered(nodes) && Contents() == old(Contents())
      ensures 0 <= t <= |nodes| == |pos| && head == (if t == |pos| then -1 else pos[t])
      ensures (forall i :: 0 <= i < t ==> nodes[i].hi <= n) && (forall i :: t <= i < |nodes| ==> n < nodes[i].lo)
    {
      hide Rep, Members, Span;
      NearNodes(nodes, n);
      RepAt(size, anchor, nodes, pos, data1[..], data2[..], next[..], head, length, lastInsertPos, 0);
      ghost var k := StartsAtNode(loc, n);
      if seqno == data1[loc] {
        CutAt(loc, loc, seqno, -1, k, n);
      } else {
        var i;
        i, k := SearchPrior(head, seqno, 0, n);
        CutAt(i, loc, seqno, seqno, k, n);
      }
      t := k + 1;
      CutSplits(nodes, k, n);
    }

    lemma {:induction false} NearNodes(ns: seq<Node>, n: int)
      requires Ordered(ns) && forall x :: x in Members(ns) ==> Near(x, n)
      ensures forall i :: 0 <= i < |ns| ==> Near(ns[i].lo, n) && Near(ns[i].hi, n)
    {
      forall i | 0 <= i < |ns| ensures Near(ns[i].lo, n) && Near(ns[i].hi, n) {
        InMembers(ns, ns[i].lo);
        InMembers(ns, ns[i].hi);
      }
    }

    lemma {:induction false} CutSplits(ns: seq<Node>, k: int, n: int)
      requires Ordered(ns) && 0 <= k < |ns| && ns[k].hi <= n && (k + 1 < |ns| ==> n < ns[k + 1].lo)
      ensures (forall i :: 0 <= i < k + 1 ==> ns[i].hi <= n) && (forall i :: k + 1 <= i < |ns| ==> n < ns[i].lo)
    {
    }

    lemma {:induction false} StartsAtNode(loc: int, n: int) returns (k: int)
      requires Valid() && loc == Slot(size, anchor, n) && forall i :: 0 <= i < |nodes| ==> Near(nodes[i].lo, n)
      ensures 0 <= loc < data1.Length == size && |pos| == |nodes|
      ensures data1[loc] == Wrap(n) ==> 0 <= k < |nodes| && pos[k] == loc && nodes[k].lo == n
      ensures data1[loc] != Wrap(n) ==> forall i :: 0 <= i < |nodes| ==> nodes[i].lo != n
    {
      k := StartsAt(size, anchor, nodes, pos, data1[..], data2[..], n);
    }

    /** Interval k, at slot i, is the last one that starts at or before n: it is cut, or lies below the cut. */
    method CutAt(i: int, loc: int, seqno: Seq31, end: int, ghost k: int, ghost n: int)
      requires Valid() && |pos| == |nodes| && 0 <= k < |nodes| && i == pos[k] && nodes[k].lo <= n
      requires k + 1 < |nodes| ==> n < nodes[k + 1].lo
      requires loc == Slot(size, anchor, n) && seqno == Wrap(n)
      requires end == EndOf(Node(nodes[k].lo, n)) && Near(nodes[k].hi, n)
      modifies this`head, this`nodes, this`pos, data1, data2, next
      ensures LinkedFrom(old(head)) && Ordered(nodes) && Contents() == old(Contents())
      ensures |pos| == |nodes| > k && head == (if k + 1 == |pos| then -1 else pos[k + 1])
      ensures nodes[k].hi <= n && (k + 1 < |nodes| ==> n < nodes[k + 1].lo)
    {
      hide Rep;
      RepAt(size, anchor, nodes, pos, data1[..], data2[..], next[..], head, length, lastInsertPos, k);
      EndOfFacts(nodes[k]);
      CmpRefines(nodes[k].hi, n);
      var after := SlotAfter(loc);
      SlotWalk(size, anchor, n, 1);
      if data2[i] != -1 && SeqCmp(data2[i], seqno) > 0 {
        Cut(i, after, seqno, end, k, n);
      } else {
        head := next[i];
      }
    }
  }
}