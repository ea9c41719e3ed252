/** CRcvLossList: the receiver's loss list, a doubly linked list of intervals inside a circular array. */
module RcvLossLists {
  import opened Numbers
  import opened SeqNo
  import opened Intervals
  import opened LossArrays
  import opened RcvLossArrays
  import opened LossReport

  class RcvLossList {
    const size: int          // m_iSize
    const data1: array<int>  // m_piData1
    const data2: array<int>  // m_piData2
    const next: array<int>   // m_piNext
    const prior: array<int>  // m_piPrior
    var head: int            // m_iHead
    var tail: int            // m_iTail
    var length: int          // m_iLength
    var timeStamp: int       // m_TimeStamp

    ghost var nodes: seq<Node>
    ghost var pos: seq<int>
    ghost var anchor: int

    /** The numbers in the list. */
    ghost function Contents(): set<int>
      reads this
    {
      Members(nodes)
    }

    ghost predicate Apart()
      reads this
    {
      && data1 != data2 && data1 != next && data1 != prior && data2 != next && data2 != prior && next != prior
      && data1.Length == data2.Length == next.Length == prior.Length == size
    }

    ghost predicate Valid()
      reads this, data1, data2, next, prior
    {
      && Apart()
      && RcvRep(size, anchor, nodes, pos, data1[..], data2[..], next[..], prior[..], head, tail, length)
    }

    constructor (size: int, now: int)
      requires size > 0
      ensures Valid() && Contents() == {} && this.size == size && length == 0
      ensures fresh(data1) && fresh(data2) && fresh(next) && fresh(prior)
    {
      this.size := size;
      data1 := new int[size](_ => -1);
      data2 := new int[size](_ => -1);
      next := new int[size](_ => -1);
      prior := new int[size](_ => -1);
      head, tail, length, timeStamp := -1, -1, 0, now;
      nodes, pos, anchor := [], [], 0;
    }

    /** The fields of interval k, read off the representation. */
    lemma {:induction false} At(k: int)
      requires Valid()
      ensures size > 0 && |pos| == |nodes| && length == Total(nodes) && Ordered(nodes)
      ensures head == (if nodes == [] then -1 else pos[0]) && (nodes != [] ==> tail == pos[|nodes| - 1])
      ensures 0 <= k < |nodes| ==> NodeAt(size, anchor, nodes, pos, data1[..], data2[..], next[..], prior[..], k)
    {
      RcvRepAt(size, anchor, nodes, pos, data1[..], data2[..], next[..], prior[..], head, tail, length, k);
    }

    // ---------- insert ----------

    /** The array writes of a new last node. */
    method WriteLast(loc: int, seqno1: Seq31, seqno2: Seq31, ghost a: int, ghost b: int)
      requires Apart() && 0 <= loc < size && -1 <= tail < size && tail != loc && data2[loc] == -1
      requires a <= b && b - a < SEQ_NO_TH && seqno1 == Wrap(a) && seqno2 == Wrap(b)
      modifies this`tail, this`length, data1, data2, next, prior
      ensures data1[..] == old(data1[..])[loc := Wrap(a)]
      ensures data2[..] == old(data2[..])[loc := EndOf(Node(a, b))]
      ensures next[..] == (if old(tail) == -1 then old(next[..]) else old(next[..])[old(tail) := loc])[loc := -1]
      ensures prior[..] == old(prior[..])[loc := old(tail)]
      ensures tail == loc && length == old(length) + (b - a + 1)
    {
      LenRefines(a, b);
      WrapInjective(a, b);
      data1[loc] := seqno1;
      if seqno2 != seqno1 {
        data2[loc] := seqno2;
      }
      if tail != -1 {
        next[tail] := loc;
      }
      prior[loc] := tail;
      next[loc] := -1;
      tail := loc;
      length := length + SeqLen(seqno1, seqno2);
    }

    /** Into an empty list: the array is refilled from slot 0. */
    method InsertFirst(seqno1: Seq31, seqno2: Seq31, ghost a: int, ghost b: int)
      requires Valid() && nodes == [] && a <= b && Close(size, a, b) && seqno1 == Wrap(a) && seqno2 == Wrap(b)
      modifies this`head, this`tail, this`length, this`nodes, this`pos, this`anchor, data1, data2, next, prior
      ensures Valid() && nodes == [Node(a, b)]
    {
      hide RcvRep, Members, Span;
      FirstRcv(size, anchor, pos, data1[..], data2[..], next[..], prior[..], head, tail, length, Node(a, b));
      head, tail := 0, -1;
      WriteLast(0, seqno1, seqno2, a, b);
      nodes, pos, anchor := [Node(a, b)], [0], -a;
      assert RcvRep(size, anchor, nodes, pos, data1[..], data2[..], next[..], prior[..], head, tail, length);
    }

    /** A new interval after all the others. */
    method LinkLast(loc: int, seqno1: Seq31, seqno2: Seq31, ghost a: int, ghost b: int)
      requires Valid() && nodes != [] && a <= b && seqno1 == Wrap(a)
      requires seqno2 == Wrap(b) && loc == Slot(size, anchor, a)
      requires Fits(size, Contents(), a, b) && forall x :: x in Contents() ==> x < a
      modifies this`tail, this`length, this`nodes, this`pos, data1, data2, next, prior
      ensures Valid() && Contents() == old(Contents()) + Span(a, b)
    {
      hide RcvRep, Members, Span;
      AppendRcv(size, anchor, nodes, pos, data1[..], data2[..], next[..], prior[..], head, tail, length,
                Node(a, b), loc);
      AddLast(loc, seqno1, seqno2, a, b, With(nodes, |nodes|, Node(a, b)), With(pos, |nodes|, loc));
    }

    method AddLast(loc: int, seqno1: Seq31, seqno2: Seq31, ghost a: int, ghost b: int, ghost nodes': seq<Node>,
                   ghost pos': seq<int>)
      requires Apart() && 0 <= loc < size && 0 <= tail < size && tail != loc && data2[loc] == -1
      requires a <= b && b - a < SEQ_NO_TH && seqno1 == Wrap(a) && seqno2 == Wrap(b)
      requires RcvRep(size, anchor, nodes', pos', data1[..][loc := Wrap(a)], data2[..][loc := EndOf(Node(a, b))],
                      next[..][tail := loc][loc := -1], prior[..][loc := tail], head, loc, length + (b - a + 1))
      modifies this`tail, this`length, this`nodes, this`pos, data1, data2, next, prior
      ensures Valid() && nodes == nodes'
    {
      hide RcvRep, Members, Span;
      WriteLast(loc, seqno1, seqno2, a, b);
      nodes, pos := nodes', pos';
    }

    /** The last interval is extended. */
    method GrowLast(seqno1: Seq31, seqno2: Seq31, ghost a: int, ghost b: int)
      requires Valid() && nodes != [] && a <= b && b - a < SEQ_NO_TH && seqno1 == Wrap(a) && seqno2 == Wrap(b)
      requires nodes[|nodes| - 1].hi + 1 == a && Fits(size, Contents(), a, b)
      modifies this`length, this`nodes, data2
      ensures Valid() && Contents() == old(Contents()) + Span(a, b)
    {
      hide RcvRep, Members, Span;
      GrowRcv(size, anchor, nodes, pos, data1[..], data2[..], next[..], prior[..], head, tail, length, a, b);
      LenRefines(a, b);
      ghost var nodes' := nodes[|nodes| - 1 := Node(nodes[|nodes| - 1].lo, b)];
      ghost var d2 := data2[..];
      data2[tail] := seqno2;
      length := length + SeqLen(seqno1, seqno2);
      assert data2[..] == d2[tail := Wrap(b)];
      nodes := nodes';
      assert RcvRep(size, anchor, nodes, pos, data1[..], data2[..], next[..], prior[..], head, tail, length);
    }

    /** Whether the last interval, no single number, ends just before a. */
    method EndsBefore(seqno1: Seq31, ghost a: int) returns (yes: bool)
      requires Valid() && nodes != [] && seqno1 == Wrap(a)
      requires Near(nodes[|nodes| - 1].hi, a) && nodes[|nodes| - 1].hi < a
      ensures yes ==> nodes[|nodes| - 1].hi + 1 == a
    {
      hide RcvRep, Members, Span;
      At(|nodes| - 1);
      EndOfFacts(nodes[|nodes| - 1]);
      NextIs(nodes[|nodes| - 1].hi, a);
      yes := data2[tail] != -1 && IncSeq(data2[tail]) == seqno1;
    }

    /** CRcvLossList::insert: the numbers a..b, above all those in the list, are added. */
    method Insert(seqno1: Seq31, seqno2: Seq31, now: int, ghost a: int, ghost b: int)
      requires Valid() && seqno1 == Wrap(a) && seqno2 == Wrap(b)
      requires Fits(size, Contents(), a, b) && forall x :: x in Contents() ==> x < a
      modifies this, data1, data2, next, prior
      ensures Valid() && Contents() == old(Contents()) + Span(a, b) && timeStamp == now
    {
      hide RcvRep, Members, Span;
      timeStamp := now;
      At(0);
      if length == 0 {
        TotalZero(nodes);
        MembersNone();
        InsertFirst(seqno1, seqno2, a, b);
        MembersOne(Node(a, b));
        return;
      }
      AppendSomehow(seqno1, seqno2, a, b);
    }

    method AppendSomehow(seqno1: Seq31, seqno2: Seq31, ghost a: int, ghost b: int)
      requires Valid() && nodes != [] && seqno1 == Wrap(a) && seqno2 == Wrap(b)
      requires Fits(size, Contents(), a, b) && forall x :: x in Contents() ==> x < a
      modifies this`tail, this`length, this`nodes, this`pos, data1, data2, next, prior
      ensures Valid() && Contents() == old(Contents()) + Span(a, b)
    {
      hide RcvRep, Members, Span;
      At(0);
      FitsNodes(size, nodes, a, b);
      InMembers(nodes, nodes[|nodes| - 1].hi);
      SlotFromHead(size, anchor, nodes[0].lo, a, head);
      var offset := SeqOff(data1[head], seqno1);
      var loc := SlotAt(head + offset);
      var yes := EndsBefore(seqno1, a);
      if yes {
        GrowLast(seqno1, seqno2, a, b);
      } else {
        LinkLast(loc, seqno1, seqno2, a, b);
      }
    }

    method SlotAt(i: int) returns (loc: int)
      requires size > 0
      ensures loc == i % size
    {
      loc := i % size;
    }

    // ---------- remove ----------

    /** The only number of interval k, at slot loc: its neighbours are linked to each other. */
    method Unlink(loc: int, ghost k: int)
      requires Valid() && 0 <= k < |nodes| && |pos| == |nodes| && pos[k] == loc && nodes[k].lo == nodes[k].hi
      modifies this`head, this`tail, this`length, this`nodes, this`pos, data1, next, prior
      ensures Valid() && Contents() == old(Contents()) - {old(nodes[k].lo)}
    {
      hide RcvRep, Members, Span;
      LinksAt(size, anchor, nodes, pos, data1[..], data2[..], next[..], prior[..], head, tail, length, k);
      UnlinkRcv(size, anchor, nodes, pos, data1[..], data2[..], next[..], prior[..], head, tail, length, k,
                if next[loc] == -1 && prior[loc] != -1 then prior[loc] else tail);
      DropNode(loc, Without(nodes, k), Without(pos, k));
    }

    method DropNode(loc: int, ghost nodes': seq<Node>, ghost pos': seq<int>)
      requires Apart() && 0 <= loc < size && -1 <= next[loc] < size && -1 <= prior[loc] < size
      requires head == loc <==> prior[loc] == -1
      requires RcvRep(size, anchor, nodes', pos', data1[..][loc := -1], data2[..],
                 if prior[loc] != -1 then next[..][prior[loc] := next[loc]] else next[..],
                 if next[loc] != -1 then prior[..][next[loc] := prior[loc]] else prior[..],
                 if prior[loc] != -1 then head else next[loc],
                 if next[loc] == -1 && prior[loc] != -1 then prior[loc] else tail, length - 1)
      modifies this`head, this`tail, this`length, this`nodes, this`pos, data1, next, prior
      ensures Valid() && nodes == nodes'
    {
      hide RcvRep, Members, Span;
      WriteUnlink(loc);
      nodes, pos := nodes', pos';
    }

    method WriteUnlink(loc: int)
      requires Apart() && 0 <= loc < size && -1 <= next[loc] < size && -1 <= prior[loc] < size
      requires head == loc <==> prior[loc] == -1
      modifies this`head, this`tail, this`length, data1, next, prior
      ensures data1[..] == old(data1[..])[loc := -1] && length == old(length) - 1
      ensures next[..] == if old(prior[loc]) != -1 then old(next[..])[old(prior[loc]) := old(next[loc])]
                          else old(next[..])
      ensures prior[..] == if old(next[loc]) != -1 then old(prior[..])[old(next[loc]) := old(prior[loc])]
                           else old(prior[..])
      ensures head == if old(prior[loc]) != -1 then old(head) else old(next[loc])
      ensures tail == if old(next[loc]) == -1 && old(prior[loc]) != -1 then old(prior[loc]) else old(tail)
    {
      if head == loc {
        head := next[head];
        if head != -1 {
          prior[head] := -1;
        }
      } else {
        next[prior[loc]] := next[loc];
        if next[loc] != -1 {
          prior[next[loc]] := prior[loc];
        } else {
          tail := prior[loc];
        }
      }
      data1[loc] := -1;
      length := length - 1;
    }

    /** The first of several numbers of interval k, at slot loc: the interval moves to the next slot. */
    method Shift(loc: int, ghost k: int)
      requires Valid() && 0 <= k < |nodes| && |pos| == |nodes| && pos[k] == loc && nodes[k].lo < nodes[k].hi
      modifies this`head, this`tail, this`length, this`nodes, this`pos, data1, data2, next, prior
      ensures Valid() && Contents() == old(Contents()) - {old(nodes[k].lo)}
    {
      hide RcvRep, Members, Span;
      At(k);
      LinksAt(size, anchor, nodes, pos, data1[..], data2[..], next[..], prior[..], head, tail, length, k);
      NewSlot(size, anchor, nodes, pos, data1[..], data2[..], next[..], prior[..], head, tail, length,
              k, nodes[k].lo + 1);
      EndOfFacts(nodes[k]);
      var i := SlotAt(loc + 1);
      SlotWalk(size, anchor, nodes[k].lo, 1);
      ShiftRcv(size, anchor, nodes, pos, data1[..], data2[..], next[..], prior[..], head, tail, length, k, i);
      ShiftMembers(nodes, k);
      MoveNode(loc, i, nodes[k].lo, nodes[k].hi, nodes[k := Node(nodes[k].lo + 1, nodes[k].hi)], pos[k := i]);
    }

    method MoveNode(loc: int, i: int, ghost lo: int, ghost hi: int, ghost nodes': seq<Node>, ghost pos': seq<int>)
      requires Apart() && 0 <= loc < size && 0 <= i < size && i != loc
      requires -1 <= next[loc] < size && -1 <= prior[loc] < size
      requires next[loc] != i && prior[loc] != i
      requires (head == loc <==> prior[loc] == -1) && (tail == loc <==> next[loc] == -1)
      requires data1[loc] == Wrap(lo) && data2[loc] == Wrap(hi) && data2[i] == -1 && lo < hi && hi - lo < SEQ_NO_TH
      requires RcvRep(size, anchor, nodes', pos', data1[..][loc := -1][i := Wrap(lo + 1)],
                      data2[..][loc := -1][i := EndOf(Node(lo + 1, hi))],
                 if prior[loc] != -1 then next[..][i := next[loc]][prior[loc] := i] else next[..][i := next[loc]],
                 if next[loc] != -1 then prior[..][i := prior[loc]][next[loc] := i] else prior[..][i := prior[loc]],
                 if prior[loc] != -1 then head else i, if next[loc] != -1 then tail else i, length - 1)
      modifies this`head, this`tail, this`length, this`nodes, this`pos, data1, data2, next, prior
      ensures Valid() && nodes == nodes'
    {
      hide RcvRep, Members, Span;
      WriteShift(loc, i, lo, hi);
      nodes, pos := nodes', pos';
    }

    method WriteShift(loc: int, i: int, ghost lo: int, ghost hi: int)
      requires Apart() && 0 <= loc < size && 0 <= i < size && i != loc
      requires -1 <= next[loc] < size && -1 <= prior[loc] < size
      requires next[loc] != i && prior[loc] != i
      requires (head == loc <==> prior[loc] == -1) && (tail == loc <==> next[loc] == -1)
      requires data1[loc] == Wrap(lo) && data2[loc] == Wrap(hi) && data2[i] == -1 && lo < hi && hi - lo < SEQ_NO_TH
      modifies this`head, this`tail, this`length, data1, data2, next, prior
      ensures data1[..] == old(data1[..])[loc := -1][i := Wrap(lo + 1)]
      ensures data2[..] == old(data2[..])[loc := -1][i := EndOf(Node(lo + 1, hi))]
      ensures next[..] == if old(prior[loc]) != -1 then old(next[..])[i := old(next[loc])][old(prior[loc]) := i]
                          else old(next[..])[i := old(next[loc])]
      ensures prior[..] == if old(next[loc]) != -1 then old(prior[..])[i := old(prior[loc])][old(next[loc]) := i]
                           else old(prior[..])[i := old(prior[loc])]
      ensures head == if old(prior[loc]) != -1 then old(head) else i
      ensures tail == if old(next[loc]) != -1 then old(tail) else i
      ensures length == old(length) - 1
    {
      MoveEnds(loc, i, lo, hi);
      Relink(loc, i);
    }

    /** The interval's first and last numbers, in its new slot. */
    method MoveEnds(loc: int, i: int, ghost lo: int, ghost hi: int)
      requires Apart() && 0 <= loc < size && 0 <= i < size && i != loc
      requires data1[loc] == Wrap(lo) && data2[loc] == Wrap(hi) && data2[i] == -1 && lo < hi && hi - lo < SEQ_NO_TH
      modifies data1, data2
      ensures data1[..] == old(data1[..])[loc := -1][i := Wrap(lo + 1)]
      ensures data2[..] == old(data2[..])[loc := -1][i := EndOf(Node(lo + 1, hi))]
    {
      IncRefines(lo);
      CmpRefines(hi, lo + 1);
      hide Wrap, SeqCmp, IncSeq;
      data1[i] := IncSeq(data1[loc]);
      if SeqCmp(data2[loc], IncSeq(data1[loc])) > 0 {
        data2[i] := data2[loc];
      }
      data1[loc] := -1;
      data2[loc] := -1;
    }

    /** The new slot takes the old one's place in the list. */
    method Relink(loc: int, i: int)
      requires Apart() && 0 <= loc < size && 0 <= i < size && i != loc
      requires -1 <= next[loc] < size && -1 <= prior[loc] < size
      requires next[loc] != i && prior[loc] != i
      requires (head == loc <==> prior[loc] == -1) && (tail == loc <==> next[loc] == -1)
      modifies this`head, this`tail, this`length, next, prior
      ensures next[..] == if old(prior[loc]) != -1 then old(next[..])[i := old(next[loc])][old(prior[loc]) := i]
                          else old(next[..])[i := old(next[loc])]
      ensures prior[..] == if old(next[loc]) != -1 then old(prior[..])[i := old(prior[loc])][old(next[loc]) := i]
                           else old(prior[..])[i := old(prior[loc])]
      ensures head == if old(prior[loc]) != -1 then old(head) else i
      ensures tail == if old(next[loc]) != -1 then old(tail) else i
      ensures length == old(length) - 1
    {
      next[i] := next[loc];
      prior[i] := prior[loc];
      if head == loc {
        head := i;
      } else {
        next[prior[i]] := i;
      }
      if tail == loc {
        tail := i;
      } else {
        prior[next[i]] := i;
      }
      length := length - 1;
    }

    /** The last of several numbers of interval k, at slot i. */
    method Trim(i: int, seqno: Seq31, ghost k: int)
      requires Valid() && 0 <= k < |nodes| && |pos| == |nodes| && pos[k] == i
      requires nodes[k].lo < nodes[k].hi && seqno == Wrap(nodes[k].hi)
      modifies this`length, this`nodes, data2
      ensures Valid() && Contents() == old(Contents()) - {old(nodes[k].hi)}
    {
      hide RcvRep, Members, Span;
      ghost var lo, hi := nodes[k].lo, nodes[k].hi;
      At(k);
      EndTests(lo, hi, hi);
      TrimRcv(size, anchor, nodes, pos, data1[..], data2[..], next[..], prior[..], head, tail, length, k);
      ghost var d2 := data2[..];
      if seqno == IncSeq(data1[i]) {
        data2[i] := -1;
      } else {
        data2[i] := DecSeq(seqno);
      }
      length := length - 1;
      assert data2[..] == d2[i := EndOf(Node(lo, hi - 1))];
      nodes := nodes[k := Node(lo, hi - 1)];
      assert RcvRep(size, anchor, nodes, pos, data1[..], data2[..], next[..], prior[..], head, tail, length);
    }

    /** An inner number n of interval k, at slot i: the interval is split, its upper part goes to slot loc. */
    method Split(i: int, loc: int, seqno: Seq31, ghost k: int, ghost n: int)
      requires Valid() && 0 <= k < |nodes| && |pos| == |nodes| && pos[k] == i && nodes[k].lo < n < nodes[k].hi
      requires seqno == Wrap(n) && loc == Slot(size, anchor, n + 1)
      modifies this`tail, this`length, this`nodes, this`pos, data1, data2, next, prior
      ensures Valid() && Contents() == old(Contents()) - {n}
    {
      hide RcvRep, Members, Span;
      ghost var lo, hi := nodes[k].lo, nodes[k].hi;
      ghost var nodes', pos' := Holed(nodes, k, n), With(pos, k + 1, loc);
      At(k);
      EndOfFacts(nodes[k]);
      LinksAt(size, anchor, nodes, pos, data1[..], data2[..], next[..], prior[..], head, tail, length, k);
      HoleRcv(size, anchor, nodes, pos, data1[..], data2[..], next[..], prior[..], head, tail, length, k, n, loc);
      WriteSplit(i, loc, seqno, lo, n, hi);
      nodes, pos := nodes', pos';
      assert RcvRep(size, anchor, nodes, pos, data1[..], data2[..], next[..], prior[..], head, tail, length);
    }

    method WriteSplit(i: int, loc: int, seqno: Seq31, ghost lo: int, ghost n: int, ghost hi: int)
      requires Apart() && 0 <= i < size && 0 <= loc < size && i != loc && -1 <= next[i] < size && next[i] != loc
      requires tail == i <==> next[i] == -1
      requires data1[i] == Wrap(lo) && data2[i] == Wrap(hi) && data2[loc] == -1
      requires seqno == Wrap(n) && lo < n < hi && hi - lo < SEQ_NO_TH
      modifies this`tail, this`length, data1, data2, next, prior
      ensures data1[..] == old(data1[..])[loc := Wrap(n + 1)]
      ensures data2[..] == old(data2[..])[i := EndOf(Node(lo, n - 1))][loc := EndOf(Node(n + 1, hi))]
      ensures next[..] == old(next[..])[i := loc][loc := old(next[i])]
      ensures prior[..] == (if old(next[i]) != -1 then old(prior[..])[old(next[i]) := loc]
                            else old(prior[..]))[loc := i]
      ensures tail == if old(next[i]) != -1 then old(tail) else loc
      ensures length == old(length) - 1
    {
      WriteHalves(i, loc, seqno, lo, n, hi);
      LinkHalf(i, loc);
    }

    /** The first and last numbers of the two parts. */
    method WriteHalves(i: int, loc: int, seqno: Seq31, ghost lo: int, ghost n: int, ghost hi: int)
      requires Apart() && 0 <= i < size && 0 <= loc < size && i != loc
      requires data1[i] == Wrap(lo) && data2[i] == Wrap(hi) && data2[loc] == -1
      requires seqno == Wrap(n) && lo < n < hi && hi - lo < SEQ_NO_TH
      modifies data1, data2
      ensures data1[..] == old(data1[..])[loc := Wrap(n + 1)]
      ensures data2[..] == old(data2[..])[i := EndOf(Node(lo, n - 1))][loc := EndOf(Node(n + 1, hi))]
    {
      hide Wrap, SeqCmp, IncSeq, DecSeq;
      EndTests(lo, hi, n);
      data1[loc] := IncSeq(seqno);
      if SeqCmp(data2[i], data1[loc]) > 0 {
        data2[loc] := data2[i];
      }
      if seqno == IncSeq(data1[i]) {
        data2[i] := -1;
      } else {
        data2[i] := DecSeq(seqno);
      }
    }

    /** The second part follows the first in the list. */
    method LinkHalf(i: int, loc: int)
      requires Apart() && 0 <= i < size && 0 <= loc < size && i != loc && -1 <= next[i] < size && next[i] != loc
      requires tail == i <==> next[i] == -1
      modifies this`tail, this`length, next, prior
      ensures next[..] == old(next[..])[i := loc][loc := old(next[i])]
      ensures prior[..] == (if old(next[i]) != -1 then old(prior[..])[old(next[i]) := loc]
                            else old(prior[..]))[loc := i]
      ensures tail == if old(next[i]) != -1 then old(tail) else loc
      ensures length == old(length) - 1
    {
      next[loc] := next[i];
      next[i] := loc;
      prior[loc] := i;
      if tail == i {
        tail := loc;
      } else {
        prior[next[loc]] := loc;
      }
      length := length - 1;
    }

    /** The interval that starts at m, if slot i, the slot of m, is in use. */
    lemma {:induction false} StartOf(i: int, m: int) returns (k: int)
      requires Valid() && nodes != [] && i == Slot(size, anchor, m)
      requires forall j :: 0 <= j < |nodes| ==> -size < nodes[j].lo - m < size
      ensures 0 <= i < size && |pos| == |nodes|
      ensures data1[i] != -1 ==> 0 <= k < |nodes| && pos[k] == i && nodes[k].lo == m
      ensures data1[i] == -1 ==> forall j :: 0 <= j < |nodes| ==> nodes[j].lo != m
    {
      k := SlotUsed(size, anchor, nodes, pos, data1[..], data2[..], m);
    }

    /** Numbers from the first interval's start up to n are within one turn of every start. */
    lemma {:induction false} WithinTurn(n: int, m: int)
      requires Valid() && nodes != [] && nodes[0].lo <= m <= n
      requires forall j :: 0 <= j < |nodes| ==> n - nodes[j].lo < size
      ensures forall j :: 0 <= j < |nodes| ==> -size < nodes[j].lo - m < size
    {
      At(0);
      forall j | 0 <= j < |nodes| ensures -size < nodes[j].lo - m < size {
        assert Close(size, nodes[0].lo, nodes[j].hi);
      }
    }

    /** The backward search for the nearest used slot: it finds the last interval that starts before n. */
    method SearchBack(loc: int, ghost n: int) returns (i: int, ghost k: int)
      requires Valid() && nodes != [] && nodes[0].lo < n && loc == Slot(size, anchor, n)
      requires forall j :: 0 <= j < |nodes| ==> nodes[j].lo != n && n - nodes[j].lo < size
      ensures 0 <= k < |nodes| && |pos| == |nodes| && i == pos[k]
      ensures nodes[k].lo < n && (k + 1 < |nodes| ==> n < nodes[k + 1].lo)
    {
      hide RcvRep, Members, Span;
      At(0);
      ghost var m := n - 1;
      SlotWalk(size, anchor, n, -1);
      i := SlotAt(loc - 1 + size);
      WithinTurn(n, m);
      k := StartOf(i, m);
      while data1[i] == -1
        invariant i == Slot(size, anchor, m) && 0 <= i < size && nodes[0].lo <= m < n
        invariant forall j :: 0 <= j < |nodes| ==> nodes[j].lo <= m || n < nodes[j].lo
        invariant data1[i] != -1 ==> 0 <= k < |nodes| && pos[k] == i && nodes[k].lo == m
        invariant data1[i] == -1 ==> forall j :: 0 <= j < |nodes| ==> nodes[j].lo != m
        decreases m - nodes[0].lo
      {
        SlotWalk(size, anchor, m, -1);
        i := SlotAt(i - 1 + size);
        m := m - 1;
        WithinTurn(n, m);
        k := StartOf(i, m);
      }
    }

    /** CRcvLossList::remove: deletes the one number, and says whether it was there. */
    method Remove(seqno: Seq31, now: int, ghost n: int) returns (removed: bool)
      requires Valid() && seqno == Wrap(n) && Fits(size, Contents(), n, n)
      modifies this, data1, data2, next, prior
      ensures Valid() && Contents() == old(Contents()) - {n} && (removed <==> n in old(Contents())) && timeStamp == now
    {
      hide RcvRep, Members, Span;
      timeStamp := now;
      At(0);
      if length == 0 {
        TotalZero(nodes);
        MembersNone();
        return false;
      }
      FitsNodes(size, nodes, n, n);
      FirstIsLeast(nodes);
      SlotFromHead(size, anchor, nodes[0].lo, n, head);
      var offset := SeqOff(data1[head], seqno);
      if offset < 0 {
        return false;
      }
      var loc := SlotAt(head + offset);
      removed := RemoveAt(loc, seqno, n);
    }

    /** remove, once the slot of the number is known. */
    method RemoveAt(loc: int, seqno: Seq31, ghost n: int) returns (removed: bool)
      requires Valid() && nodes != [] && nodes[0].lo <= n && seqno == Wrap(n) && loc == Slot(size, anchor, n)
      requires forall j :: 0 <= j < |nodes| ==> Close(size, n, nodes[j].hi) && Close(size, nodes[j].lo, n)
      modifies this`head, this`tail, this`length, this`nodes, this`pos, data1, data2, next, prior
      ensures Valid() && Contents() == old(Contents()) - {n} && (removed <==> n in old(Contents()))
    {
      hide RcvRep, Members, Span;
      ghost var k := StartAt(loc, n);
      if seqno == data1[loc] {
        At(k);
        EndOfFacts(nodes[k]);
        InMembers(nodes, n);
        if data2[loc] == -1 {
          Unlink(loc, k);
        } else {
          Shift(loc, k);
        }
        removed := true;
      } else {
        var i;
        i, k := SearchBack(loc, n);
        At(k);
        removed := RemoveInside(i, loc, seqno, k, n);
      }
    }

    lemma {:induction false} StartAt(loc: int, n: int) returns (k: int)
      requires Valid() && nodes != [] && loc == Slot(size, anchor, n)
      requires forall j :: 0 <= j < |nodes| ==> Close(size, n, nodes[j].hi) && Close(size, nodes[j].lo, n)
      ensures 0 <= loc < size && |pos| == |nodes|
      ensures data1[loc] == Wrap(n) ==> 0 <= k < |nodes| && pos[k] == loc && nodes[k].lo == n
      ensures data1[loc] != Wrap(n) ==> forall j :: 0 <= j < |nodes| ==> nodes[j].lo != n
    {
      k := StartsAt(size, anchor, nodes, pos, data1[..], data2[..], n);
    }

    /** remove of a number that starts no interval: it is inside interval k, at slot i, or not in the list. */
    method RemoveInside(i: int, loc: int, seqno: Seq31, ghost k: int, ghost n: int) returns (removed: bool)
      requires Valid() && 0 <= k < |nodes| && |pos| == |nodes| && i == pos[k]
      requires nodes[k].lo < n && Near(nodes[k].hi, n) && Near(nodes[k].lo, n)
      requires k + 1 < |nodes| ==> n < nodes[k + 1].lo
      requires seqno == Wrap(n) && loc == Slot(size, anchor, n)
      modifies this`tail, this`length, this`nodes, this`pos, data1, data2, next, prior
      ensures Valid() && Contents() == old(Contents()) - {n} && (removed <==> n in old(Contents()))
    {
      hide RcvRep, Members, Span;
      At(k);
      EndOfFacts(nodes[k]);
      EndTests(nodes[k].lo, nodes[k].hi, n);
      OnlyIn(nodes, k, n);
      if data2[i] == -1 || SeqCmp(seqno, data2[i]) > 0 {
        return false;
      }
      removed := true;
      if seqno == data2[i] {
        Trim(i, seqno, k);
      } else {
        var after := SlotAt(loc + 1);
        SlotWalk(size, anchor, n, 1);
        Split(i, after, seqno, k, n);
      }
    }

    /** A number between the starts of interval k and the next is in the list exactly when interval k covers it. */
    lemma {:induction false} OnlyIn(ns: seq<Node>, k: int, n: int)
      requires Ordered(ns) && 0 <= k < |ns| && ns[k].lo < n && (k + 1 < |ns| ==> n < ns[k + 1].lo)
      ensures n in Members(ns) <==> n <= ns[k].hi
    {
      InMembers(ns, n);
      assert forall j :: 0 <= j < k ==> ns[j].hi < n;
      assert forall j :: k < j < |ns| ==> n < ns[j].lo;
    }

    // ---------- queries ----------

    /** CRcvLossList::find: is any number from a to b lost? */
    method Find(seqno1: Seq31, seqno2: Seq31, ghost a: int, ghost b: int) returns (found: bool)
      requires Valid() && seqno1 == Wrap(a) && seqno2 == Wrap(b) && Fits(size, Contents(), a, b)
      ensures found <==> exists n :: n in Contents() && a <= n <= b
    {
      hide RcvRep, Members, Span;
      At(0);
      MeetsMembers(nodes, a, b);
      if length == 0 {
        TotalZero(nodes);
        MembersNone();
        return false;
      }
      FitsNodes(size, nodes, a, b);
      var p := head;
      ghost var k := 0;
      found := false;
      while p != -1 && !found
        invariant 0 <= k <= |nodes| && |pos| == |nodes| && p == (if k < |nodes| then pos[k] else -1)
        invariant p == -1 <==> k == |nodes|
        invariant if found then k < |nodes| && Meets(nodes[k], a, b)
                  else forall j :: 0 <= j < k ==> !Meets(nodes[j], a, b)
        decreases |nodes| - k, !found
      {
        var after;
        found, after := Hits(p, seqno1, seqno2, k, a, b);
        if !found {
          p, k := after, k + 1;
        }
      }
      if found {
        assert Meets(nodes[k], a, b);
        assert exists n :: n in Members(nodes) && a <= n <= b;
        assert exists n :: n in Contents() && a <= n <= b;
      } else {
        assert forall j :: 0 <= j < |nodes| ==> !Meets(nodes[j], a, b);
        assert forall n :: n in Members(nodes) ==> !(a <= n <= b);
        assert forall n :: n in Contents() ==> !(a <= n <= b);
      }
    }

    ghost predicate Meets(n: Node, a: int, b: int)
    {
      !(n.hi < a || b < n.lo)
    }

    /** The test of find on interval k, at slot p. */
    method Hits(p: int, seqno1: Seq31, seqno2: Seq31, ghost k: int, ghost a: int, ghost b: int)
      returns (yes: bool, after: int)
      requires Valid() && 0 <= k < |nodes| && |pos| == |nodes| && p == pos[k]
      requires seqno1 == Wrap(a) && seqno2 == Wrap(b) && a <= b
      requires Close(size, a, nodes[k].hi) && Close(size, nodes[k].lo, b)
      ensures yes <==> Meets(nodes[k], a, b)
      ensures after == (if k + 1 < |nodes| then pos[k + 1] else -1) && (after == -1 <==> k + 1 == |nodes|)
    {
      hide RcvRep, Members, Span;
      LinksAt(size, anchor, nodes, pos, data1[..], data2[..], next[..], prior[..], head, tail, length, k);
      At(k);
      EndOfFacts(nodes[k]);
      FindTests(nodes[k].lo, nodes[k].hi, a, b);
      yes := SeqCmp(data1[p], seqno1) == 0
             || (SeqCmp(data1[p], seqno1) > 0 && SeqCmp(data1[p], seqno2) <= 0)
             || (SeqCmp(data1[p], seqno1) < 0 && data2[p] != -1 && SeqCmp(data2[p], seqno1) >= 0);
      after := next[p];
    }

    lemma {:induction false} MeetsMembers(ns: seq<Node>, a: int, b: int)
      requires Ordered(ns) && a <= b
      ensures (exists k :: 0 <= k < |ns| && Meets(ns[k], a, b)) <==> exists n :: n in Members(ns) && a <= n <= b
      ensures (forall k :: 0 <= k < |ns| ==> !Meets(ns[k], a, b)) ==> forall n :: n in Members(ns) ==> !(a <= n <= b)
    {
      if k :| 0 <= k < |ns| && Meets(ns[k], a, b) {
        var n := if ns[k].lo < a then a else ns[k].lo;
        InMembers(ns, n);
      }
      if n :| n in Members(ns) && a <= n <= b {
        InMembers(ns, n);
        var k :| 0 <= k < |ns| && ns[k].lo <= n <= ns[k].hi;
        assert Meets(ns[k], a, b);
      }
    }

    lemma {:induction false} FindTests(lo: int, hi: int, a: int, b: int)
      requires Near(lo, a) && Near(lo, b) && Near(hi, a)
      ensures SameSign(SeqCmp(Wrap(lo), Wrap(a)), lo - a) && SameSign(SeqCmp(Wrap(lo), Wrap(b)), lo - b)
      ensures SameSign(SeqCmp(Wrap(hi), Wrap(a)), hi - a)
    {
      CmpRefines(lo, a);
      CmpRefines(lo, b);
      CmpRefines(hi, a);
    }

    /** CRcvLossList::getLossLength. */
    method GetLossLength() returns (n: int)
      requires Valid()
      ensures n == |Contents()|
    {
      At(0);
      Cardinality(nodes);
      n := length;
    }

    /** CRcvLossList::getFirstLostSeq: the least number, or -1. */
    method GetFirstLostSeq() returns (seqno: int)
      requires Valid()
      ensures Contents() == {} ==> seqno == -1
      ensures Contents() != {} ==> seqno == Wrap(MinOf(Contents()))
    {
      hide RcvRep, Span;
      At(0);
      Cardinality(nodes);
      if length == 0 {
        return -1;
      }
      FirstIsLeast(nodes);
      seqno := data1[head];
    }

    /** CRcvLossList::getLossArray: nothing before the threshold has passed; then the report of the lowest intervals. */
    method GetLossArray(words: array<int>, limit: int, threshold: int, now: int) returns (len: int)
      requires Valid() && words != data1 && words != data2 && words != next
      requires words != prior && 0 <= limit <= words.Length
      modifies this`timeStamp, words
      ensures Valid() && 0 <= len <= limit && words[limit..] == old(words[limit..])
      ensures if now - old(timeStamp) < threshold then len == 0 && timeStamp == old(timeStamp)
              else words[..len] == Report(nodes, limit, 0) && timeStamp == now
    {
      len := 0;
      if now - timeStamp < threshold {
        return;
      }
      len := WriteReport(words, limit);
      timeStamp := now;
    }

    method WriteReport(words: array<int>, limit: int) returns (len: int)
      requires Valid() && words != data1 && words != data2 && words != next
      requires words != prior && 0 <= limit <= words.Length
      modifies words
      ensures Valid() && 0 <= len <= limit && words[limit..] == old(words[limit..])
      ensures words[..len] == Report(nodes, limit, 0)
    {
      hide RcvRep, Words;
      At(0);
      len := 0;
      var i := head;
      ghost var k := 0;
      assert words[..0] + Report(nodes[0..], limit, 0) == Report(nodes, limit, 0) by { assert nodes[0..] == nodes; }
      while len < limit - 1 && i != -1
        invariant Valid()
        invariant 0 <= k <= |nodes| && |pos| == |nodes|
        invariant i == (if k < |nodes| then pos[k] else -1) && (i == -1 <==> k == |nodes|)
        invariant 0 <= len <= limit && words[limit..] == old(words[limit..])
        invariant words[..len] + Report(nodes[k..], limit, len) == Report(nodes, limit, 0)
        decreases |nodes| - k
      {
        ghost var before, rest := words[..len], Report(nodes[k + 1..], limit, len + |Words(nodes[k])|);
        ReportStep(nodes, k, limit, len);
        i, len := WriteInterval(words, len, i, limit, k);
        Associate(before, Words(nodes[k]), rest);
        k := k + 1;
      }
      assert Report(nodes[k..], limit, len) == [];
    }

    lemma {:induction false} Associate(a: seq<int>, b: seq<int>, c: seq<int>)
      ensures (a + b) + c == a + (b + c)
    {
    }

    lemma {:induction false} ReportStep(ns: seq<Node>, k: int, limit: int, len: nat)
      requires 0 <= k < |ns| && len < limit - 1
      ensures Report(ns[k..], limit, len) == Words(ns[k]) + Report(ns[k + 1..], limit, len + |Words(ns[k])|)
      ensures |Words(ns[k])| <= 2
    {
      assert ns[k..][1..] == ns[k + 1..];
    }

    method WriteInterval(words: array<int>, at: int, i: int, limit: int, ghost k: int) returns (after: int, len: int)
      requires Valid() && words != data1 && words != data2 && words != next && words != prior
      requires 0 <= k < |nodes| && |pos| == |nodes| && i == pos[k] && 0 <= at && at + 1 < limit <= words.Length
      modifies words
      ensures Valid() && len == at + |Words(nodes[k])| <= limit
      ensures words[..len] == old(words[..at]) + Words(nodes[k]) && words[limit..] == old(words[limit..])
      ensures after == (if k + 1 < |nodes| then pos[k + 1] else -1) && (after == -1 <==> k + 1 == |nodes|)
    {
      hide RcvRep;
      LinksAt(size, anchor, nodes, pos, data1[..], data2[..], next[..], prior[..], head, tail, length, k);
      EndOfFacts(nodes[k]);
      after := next[i];
      var start, end := data1[i], data2[i];
      len := WriteWords(words, at, limit, start, end);
    }

    method WriteWords(words: array<int>, at: int, limit: int, start: Seq31, end: int) returns (len: int)
      requires 0 <= at && at + 1 < limit <= words.Length
      modifies words
      ensures var w := if end == -1 then [start] else [Flag(start), end];
              len == at + |w| && words[..len] == old(words[..at]) + w
      ensures words[limit..] == old(words[limit..])
    {
      len := at;
      words[len] := start;
      if end != -1 {
        words[len] := Flag(start);
        len := len + 1;
        words[len] := end;
      }
      len := len + 1;
    }
  }
}
