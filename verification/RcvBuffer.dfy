/** CRcvBuffer: a circular array of received units, read as a byte stream or message by message. */
module RcvBuffers {
  import opened Bytes
  import opened Numbers
  import opened MsgModel
  import Protocol

  /** A unit of the receiving queue: flag 0 means free. */
  class CUnit {
    var flag: int
    var data: UnitData
    ghost var place: int   // the slot that holds it

    constructor (data: UnitData)
      ensures flag == 0 && this.data == data
    {
      flag, this.data := 0, data;
    }
  }

  class UnitQueue {
    var count: int

    constructor ()
      ensures count == 0
    {
      count := 0;
    }
  }

  ghost predicate IsCell(u: CUnit?, c: Cell)
    reads u
  {
    if u == null then c == Empty else u.flag != 0 && c == Full(u.flag, u.data)
  }

  function CellPayloads(cells: seq<Cell>): (r: seq<Payload>)
    requires forall k :: 0 <= k < |cells| ==> cells[k].Full?
    ensures |r| == |cells|
  {
    seq(|cells|, k requires 0 <= k < |cells| => cells[k].unit.payload)
  }

  /** The copying loop of readBuffer: what is copied, and what remains to be read, make up the result. */
  ghost predicate Copying(data: seq<Byte>, units: seq<Payload>, i: nat, notch: nat, rs: nat,
                          goal: (seq<Byte>, seq<Payload>, nat))
  {
    && i <= |units|
    && (i < |units| ==> notch <= |units[i]|)
    && var todo := Protocol.ReadUnits(units[i..], notch, rs);
      data + todo.0 == goal.0 && todo.1 == goal.1 && todo.2 == goal.2
  }

  lemma {:induction false} CopyingStarts(units: seq<Payload>, notch: nat, len: nat)
    requires units != [] ==> notch <= |units[0]|
    ensures Copying([], units, 0, notch, len, Protocol.ReadUnits(units, notch, len))
  {
    assert units[0..] == units;
    var d := Protocol.ReadUnits(units, notch, len).0;
    assert [] + d == d;
  }

  lemma {:induction false} CopyingStep(data: seq<Byte>, units: seq<Payload>, i: nat, notch: nat, rs: nat,
                                       goal: (seq<Byte>, seq<Payload>, nat), chunk: seq<Byte>, whole: bool)
    requires Copying(data, units, i, notch, rs, goal) && i < |units| && 0 < rs
    requires whole == (rs >= |units[i]| - notch)
    requires chunk == if whole then units[i][notch..] else units[i][notch..notch + rs]
    ensures if whole then Copying(data + chunk, units, i + 1, 0, rs - |chunk|, goal)
            else Copying(data + chunk, units, i, notch + rs, rs - |chunk|, goal)
  {
    assert units[i..][0] == units[i] && units[i..][1..] == units[i + 1..];
  }

  lemma {:induction false} CopyingEnds(data: seq<Byte>, units: seq<Payload>, i: nat, notch: nat, rs: nat,
                                       goal: (seq<Byte>, seq<Payload>, nat))
    requires Copying(data, units, i, notch, rs, goal) && (i == |units| || rs == 0)
    ensures goal == (data, units[i..], notch)
  {
    assert data + [] == data;
  }

  /** The copying loop of readMsg: what is copied, and what there is still room for, make up the result. */
  ghost predicate Filling(data: seq<Byte>, cells: seq<Cell>, i: nat, hi: nat, rs: nat, goal: seq<Byte>)
  {
    && i <= hi <= |cells| && (forall k :: i <= k < hi ==> cells[k].Full?)
    && data + Take(BytesOf(cells, i, hi), rs) == goal
  }

  lemma {:induction false} FillingStep(data: seq<Byte>, cells: seq<Cell>, i: nat, hi: nat, rs: nat, goal: seq<Byte>,
                                       n: nat)
    requires Filling(data, cells, i, hi, rs, goal) && i < hi
    requires n == if |cells[i].unit.payload| > rs then rs else |cells[i].unit.payload|
    ensures Filling(data + cells[i].unit.payload[..n], cells, i + 1, hi, rs - n, goal)
  {
    var u, rest := cells[i].unit.payload, BytesOf(cells, i + 1, hi);
    assert Take(u + rest, rs) == u[..n] + Take(rest, rs - n);
    assert data + (u[..n] + Take(rest, rs - n)) == data + u[..n] + Take(rest, rs - n);
  }

  lemma {:induction false} FillingEnds(data: seq<Byte>, cells: seq<Cell>, i: nat, rs: nat, goal: seq<Byte>)
    requires Filling(data, cells, i, i, rs, goal)
    ensures data == goal
  {
    assert data + [] == data;
  }

  class RcvBuffer {
    const slots: array<CUnit?>
    const queue: UnitQueue
    var startPos: nat
    var lastAckPos: nat
    var maxPos: int
    var notch: nat
    ghost var cells: seq<Cell>   // the slots from startPos around
    ghost var acked: nat         // how many of them come before lastAckPos
    ghost var units: set<CUnit>
    ghost var others: int        // units of the queue held elsewhere

    function Index(start: int, k: int): int
    {
      if start + k < slots.Length then start + k else start + k - slots.Length
    }

    /** The slots from `start` around hold these cells, no two slots the same unit; every other unit is free. */
    ghost predicate Holds(start: nat, cs: seq<Cell>)
      reads this`units, slots, units
    {
      && |cs| == slots.Length > start
      && (forall i :: 0 <= i < slots.Length && slots[i] != null ==> slots[i] in units && slots[i].place == i)
      && (forall u :: u in units && u.flag != 0 ==> 0 <= u.place < slots.Length && slots[u.place] == u)
      && (forall k {:trigger Index(start, k)} :: 0 <= k < |cs| ==>
          0 <= Index(start, k) < slots.Length && IsCell(slots[Index(start, k)], cs[k]))
    }

    ghost predicate Valid()
      reads this, slots, queue, units
    {
      && |cells| == slots.Length > startPos
      && Holds(startPos, cells)
      && acked < |cells| && lastAckPos == Index(startPos, acked)
      && queue.count == others + Filled(cells)
    }

    ghost function Contents(): Buf
      reads this
    {
      Buf(cells, acked, maxPos)
    }

    constructor (bufsize: nat, queue: UnitQueue)
      requires bufsize > 0
      ensures Valid() && Contents() == Buf(Empties(bufsize), 0, -1) && notch == 0
      ensures fresh(slots) && this.queue == queue && units == {} && others == queue.count
    {
      slots := new CUnit?[bufsize](_ => null);
      this.queue := queue;
      startPos, lastAckPos, maxPos, notch := 0, 0, -1, 0;
      cells, acked, units, others := Empties(bufsize), 0, {}, queue.count;
      new;
      FilledNone(bufsize);
    }

    /** (base + offset) % m_iSize */
    method Wrapped(base: nat, offset: nat) returns (pos: nat)
      requires base < slots.Length && offset <= slots.Length
      ensures pos == Index(base, offset)
    {
      pos := (base + offset) % slots.Length;
      if base + offset < slots.Length {
        DivUnique(base + offset, slots.Length, 0, base + offset);
      } else {
        DivUnique(base + offset, slots.Length, 1, base + offset - slots.Length);
      }
    }

    lemma {:induction false} IndexOnce(start: nat, i: nat, j: nat)
      requires start < slots.Length && i < slots.Length && j < slots.Length
      ensures Index(start, i) == Index(start, j) <==> i == j
    {
    }

    lemma {:induction false} IndexNext(start: nat, i: nat)
      requires start < slots.Length && i < slots.Length
      ensures Index(Index(start, i), 1) == Index(start, i + 1)
    {
    }

    /** The slot after the k-th is the a-th, an earlier one, only by going around. */
    lemma {:induction false} AroundTo(k: nat, a: nat)
      requires startPos < slots.Length && a < k <= slots.Length && slots.Length >= 2
      ensures 0 <= Index(startPos, k) < slots.Length
      ensures Index(Index(startPos, k), 1) == Index(startPos, a) <==> a == k + 1 - slots.Length
    {
    }

    lemma {:induction false} IndexZero(p: nat, cs: seq<Cell>)
      requires Holds(p, cs)
      ensures Index(p, 0) == p
    {
    }

    /** No stored unit is free. */
    lemma {:induction false} InUse(start: nat, cs: seq<Cell>)
      requires Holds(start, cs)
      ensures forall i :: 0 <= i < slots.Length && slots[i] != null ==> slots[i].flag != 0
    {
      forall i | 0 <= i < slots.Length && slots[i] != null ensures slots[i].flag != 0 {
        var j := if i >= start then i - start else i - start + slots.Length;
        assert IsCell(slots[Index(start, j)], cs[j]);
      }
    }

    /** A slot is empty exactly when its cell is. */
    lemma {:induction false} SlotIs(start: nat, cs: seq<Cell>, k: nat)
      requires Holds(start, cs) && k < |cs|
      ensures 0 <= Index(start, k) < slots.Length
      ensures var u := slots[Index(start, k)];
              if u == null then cs[k] == Empty else u in units && cs[k] == Full(u.flag, u.data)
    {
      assert IsCell(slots[Index(start, k)], cs[k]);
    }

    // ---------- single slots ----------

    method SetSlot(start: nat, pos: nat, ghost cs: seq<Cell>, ghost k: nat, u: CUnit)
      requires Holds(start, cs) && k < |cs| && pos == Index(start, k) && slots[pos] == null && u.flag == 0
      modifies slots, u, this`units
      ensures Holds(start, cs[k := Full(1, u.data)])
      ensures units == old(units) + {u} && u.flag == 1 && u.data == old(u.data)
    {
      InUse(start, cs);
      slots[pos] := u;
      u.flag := 1;
      u.place := pos;
      units := units + {u};
    }

    /** The unit in the first slot goes back to the queue. */
    method Free(p: nat, ghost cs: seq<Cell>)
      requires Holds(p, cs) && slots[p] != null
      modifies slots, units, queue
      ensures cs[0].Full? && Holds(p, cs[0 := Empty])
      ensures queue.count == old(queue.count) - 1
    {
      assert Index(p, 0) == p && IsCell(slots[Index(p, 0)], cs[0]);
      var tmp := slots[p];
      slots[p] := null;
      tmp.flag := 0;
      queue.count := queue.count - 1;
    }

    method Next(p: nat, ghost cs: seq<Cell>) returns (r: nat)
      requires Holds(p, cs) && cs[0] == Empty
      ensures Holds(r, Drop(cs, 1)) && r == Index(p, 1)
    {
      r := p + 1;
      if r == slots.Length {
        r := 0;
      }
      ghost var to := Drop(cs, 1);
      forall k | 0 <= k < |to| ensures 0 <= Index(r, k) < slots.Length && IsCell(slots[Index(r, k)], to[k]) {
        if k + 1 < |cs| {
          assert Index(r, k) == Index(p, k + 1);
          assert IsCell(slots[Index(p, k + 1)], cs[k + 1]);
        } else {
          assert Index(r, k) == Index(p, 0);
          assert IsCell(slots[Index(p, 0)], cs[0]);
        }
      }
    }

    method MarkRead(start: nat, pos: nat, ghost cs: seq<Cell>, ghost k: nat)
      requires Holds(start, cs) && k < |cs| && pos == Index(start, k) && slots[pos] != null
      modifies units
      ensures cs[k].Full? && Holds(start, cs[k := Full(2, cs[k].unit)])
    {
      slots[pos].flag := 2;
    }

    // ---------- stream mode ----------

    /** getRcvDataSize */
    method GetRcvDataSize() returns (n: nat)
      requires Valid()
      ensures n == acked
    {
      if lastAckPos >= startPos {
        n := lastAckPos - startPos;
      } else {
        n := slots.Length + lastAckPos - startPos;
      }
    }

    /** getAvailBufSize: one slot stays empty. */
    method GetAvailBufSize() returns (n: int)
      requires Valid()
      ensures n == |cells| - acked - 1
    {
      var used := GetRcvDataSize();
      n := slots.Length - used - 1;
    }

    /** addData: an occupied slot is never overwritten. */
    method AddData(unit: CUnit, offset: nat) returns (r: int)
      requires Valid() && unit.flag == 0 && acked + offset < |cells|
      modifies this`maxPos, this`cells, this`units, slots, queue, unit
      ensures Valid() && Contents() == MsgModel.AddData(old(Contents()), offset, unit.data)
      ensures units - old(units) <= {unit} && others == old(others)
      ensures r == (if old(cells)[acked + offset] == Empty then 0 else -1)
      ensures unit.flag == (if r == 0 then 1 else 0) && unit.data == old(unit.data)
    {
      hide Holds, Filled;
      var pos := Wrapped(lastAckPos, offset);
      ghost var k := acked + offset;
      assert pos == Index(startPos, k);
      if offset > maxPos {
        maxPos := offset;
      }
      SlotIs(startPos, cells, k);
      if slots[pos] != null { return -1; }
      SetSlot(startPos, pos, cells, k, unit);
      FilledSet(cells, k, Full(1, unit.data));
      cells := cells[k := Full(1, unit.data)];
      queue.count := queue.count + 1;
      r := 0;
    }

    /** ackData */
    method AckData(len: nat)
      requires Valid() && acked + len < |cells|
      modifies this`lastAckPos, this`maxPos, this`acked
      ensures Valid() && Contents() == MsgModel.AckData(old(Contents()), len)
    {
      lastAckPos := Wrapped(lastAckPos, len);
      maxPos := maxPos - len;
      if maxPos < 0 {
        maxPos := 0;
      }
      acked := acked + len;
    }

    /** Frees the unit in slot p and returns the next slot. */
    method FreeNext(p: nat, ghost cs: seq<Cell>) returns (r: nat)
      requires Holds(p, cs) && cs[0].Full? && queue.count == others + Filled(cs)
      modifies slots, units, queue
      ensures Holds(r, Drop(cs, 1)) && r == Index(p, 1)
      ensures queue.count == others + Filled(Drop(cs, 1))
    {
      SlotIs(p, cs, 0);
      Free(p, cs);
      FilledDropOne(cs);
      FilledSet(cs, 0, Empty);
      assert Drop(cs[0 := Empty], 1) == Drop(cs, 1);
      r := Next(p, cs[0 := Empty]);
    }

    /** One turn of readBuffer: all that is left of the unit in slot p, or the rs bytes wanted of it. */
    method ReadUnit(p: nat, ghost cs: seq<Cell>, rs: nat)
      returns (chunk: seq<Byte>, r: nat, left: nat, ghost whole: bool)
      requires Holds(p, cs) && |cs| > 0 && cs[0].Full? && queue.count == others + Filled(cs)
      requires notch <= |cs[0].unit.payload|
      modifies this`notch, slots, queue, units
      ensures whole == (rs >= |cs[0].unit.payload| - old(notch))
      ensures notch == if whole then 0 else old(notch) + rs
      ensures chunk == if whole then cs[0].unit.payload[old(notch)..]
                             else cs[0].unit.payload[old(notch)..old(notch) + rs]
      ensures left == rs - |chunk|
      ensures r == if whole then Index(p, 1) else p
      ensures var rest := if whole then Drop(cs, 1) else cs; Holds(r, rest) && queue.count == others + Filled(rest)
    {
      hide Holds, Filled;
      SlotIs(p, cs, 0);
      IndexZero(p, cs);
      r := p;
      var unit := slots[p].data.payload;
      var unitsize := |unit| - notch;
      if unitsize > rs {
        unitsize := rs;
      }
      chunk := unit[notch..notch + unitsize];
      if rs > unitsize || rs == |unit| - notch {
        r := FreeNext(p, cs);
        notch := 0;
        whole := true;
      } else {
        notch := notch + rs;
        whole := false;
      }
      left := rs - unitsize;
    }

    /** readBuffer: copies out the first bytes, frees every unit read to its end, and keeps the place in the last
        one. */
    method ReadBuffer(len: nat) returns (data: seq<Byte>)
      requires Valid() && forall k :: 0 <= k < acked ==> cells[k].Full?
      requires acked > 0 ==> notch <= |cells[0].unit.payload|
      modifies this`startPos, this`notch, this`cells, this`acked, slots, queue, units
      ensures Valid() && maxPos == old(maxPos) && acked <= old(acked)
      ensures cells == Drop(old(cells), old(acked) - acked)
      ensures var was := old(CellPayloads(cells[..acked]));
              (data, was[old(acked) - acked..], notch) == Protocol.ReadUnits(was, old(notch), len)
    {
      hide Holds, Filled, Protocol.ReadUnits;
      ghost var was := CellPayloads(cells[..acked]);
      var p;
      ghost var i;
      data, p, i := CopyOut(len, was);
      startPos := p;
      cells := Drop(cells, i);
      acked := acked - i;
      hide CellPayloads, Drop;
    }

    /** Between two turns: p is i slots on, the units before it are freed, and the rest is still to be copied. */
    ghost predicate Midway(data: seq<Byte>, p: nat, rs: nat, i: nat, was: seq<Payload>,
                           goal: (seq<Byte>, seq<Payload>, nat))
      reads this, slots, queue, units
    {
      && |cells| == slots.Length > startPos && acked < |cells| && lastAckPos == Index(startPos, acked)
      && |was| == acked && (forall k :: 0 <= k < acked ==> cells[k].Full? && was[k] == cells[k].unit.payload)
      && i <= acked && p == Index(startPos, i)
      && Holds(p, Drop(cells, i)) && queue.count == others + Filled(Drop(cells, i))
      && Copying(data, was, i, notch, rs, goal)
    }

    method CopyUnit(ghost was: seq<Payload>, ghost goal: (seq<Byte>, seq<Payload>, nat), data: seq<Byte>, p: nat,
                    rs: nat, ghost i: nat)
      returns (data': seq<Byte>, p': nat, rs': nat, ghost i': nat)
      requires Midway(data, p, rs, i, was, goal) && i < acked && rs > 0
      modifies this`notch, slots, queue, units
      ensures Midway(data', p', rs', i', was, goal)
      ensures i <= i' && rs' <= rs && (i < i' || rs' < rs)
    {
      DropMore(cells, i);
      IndexNext(startPos, i);
      ghost var k, u := notch, was[i];
      assert u == Drop(cells, i)[0].unit.payload;
      hide Holds, Filled, Drop, Index;
      assert k <= |u|;
      hide Copying;
      var chunk;
      ghost var whole;
      chunk, p', rs', whole := ReadUnit(p, Drop(cells, i), rs);
      CopyingStep(data, was, i, k, rs, goal, chunk, whole);
      data' := data + chunk;
      i' := if whole then i + 1 else i;
    }

    /** The loop of readBuffer. */
    method CopyOut(len: nat, ghost was: seq<Payload>) returns (data: seq<Byte>, p: nat, ghost i: nat)
      requires Valid() && |was| == acked
      requires forall k :: 0 <= k < acked ==> cells[k].Full? && was[k] == cells[k].unit.payload
      requires acked > 0 ==> notch <= |was[0]|
      modifies this`notch, slots, queue, units
      ensures i <= acked && p == Index(startPos, i) && Holds(p, Drop(cells, i))
      ensures queue.count == others + Filled(Drop(cells, i))
      ensures (data, was[i..], notch) == Protocol.ReadUnits(was, old(notch), len)
    {
      p := startPos;
      var lastack := lastAckPos;
      var rs := len;
      data, i := [], 0;
      ghost var goal := Protocol.ReadUnits(was, notch, len);
      CopyingStarts(was, notch, len);
      assert Drop(cells, 0) == cells;
      hide Holds, Filled, Copying, Drop;
      assert Midway(data, p, rs, i, was, goal);
      while p != lastack && rs > 0
        invariant rs >= 0 && Midway(data, p, rs, i, was, goal)
        decreases acked - i, rs
      {
        IndexOnce(startPos, i, acked);
        data, p, rs, i := CopyUnit(was, goal, data, p, rs, i);
      }
      IndexOnce(startPos, i, acked);
      CopyingEnds(data, was, i, notch, rs, goal);
    }

    // ---------- message mode ----------

    /** The look-ahead of scanMsg from the first slot. */
    method LookAhead() returns (good: bool)
      requires Valid()
      ensures good == LooksWhole(cells, acked, 0)
    {
      good := true;
      var i := startPos;
      ghost var k := 0;
      while i != lastAckPos
        invariant 0 <= k <= acked && i == Index(startPos, k) && good
        invariant LooksWhole(cells, acked, 0) == LooksWhole(cells, acked, k)
        decreases acked - k
      {
        SlotIs(startPos, cells, k);
        IndexOnce(startPos, k, acked);
        if slots[i] == null || slots[i].flag != 1 {
          good := false;
          return;
        }
        if slots[i].data.last { return; }
        i := i + 1;
        if i == slots.Length {
          i := 0;
        }
        k := k + 1;
      }
      IndexOnce(startPos, k, acked);
    }

    /** The first slot, already acknowledged, is emptied if need be and left behind. */
    method SkipFirst()
      requires Valid() && acked > 0
      modifies this`startPos, this`cells, this`acked, slots, queue, units
      ensures Valid() && acked == old(acked) - 1 && cells == Drop(old(cells), 1)
    {
      hide Holds, Filled;
      SlotIs(startPos, cells, 0);
      FilledDropOne(cells);
      if slots[startPos] == null {
        startPos := Next(startPos, cells);
      } else {
        startPos := FreeNext(startPos, cells);
      }
      cells := Drop(cells, 1);
      acked := acked - 1;
    }

    /** Whether the first slot holds the unread start of a message that looks whole. */
    method StartsMessage() returns (good: bool)
      requires Valid() && acked > 0
      ensures good == (Unread(cells[0]) && cells[0].unit.first && LooksWhole(cells, acked, 0))
    {
      hide Filled, LooksWhole;
      SlotIs(startPos, cells, 0);
      hide Holds;
      good := false;
      if slots[startPos] != null && slots[startPos].flag == 1 && slots[startPos].data.first {
        good := LookAhead();
      }
    }

    /** The first part of scanMsg. */
    method SkipBad()
      requires Valid()
      modifies this`startPos, this`cells, this`acked, slots, queue, units
      ensures Valid() && Contents() == Skipped(old(Contents()))
    {
      hide Holds, Filled, LooksWhole, Drop, Skip;
      ghost var was, n, d := cells, acked, 0;
      DropNone(was);
      while startPos != lastAckPos
        invariant Valid() && 0 <= d <= n && acked == n - d && cells == Drop(was, d)
        invariant Skip(was, n, 0) == Skip(was, n, d)
        decreases n - d
      {
        IndexOnce(startPos, 0, acked);
        DropMore(was, d);
        LooksWholeShift(was, n, d, d);
        var good := StartsMessage();
        if good {
          SkipStep(was, n, d);
          break;
        }
        SkipStep(was, n, d);
        SkipFirst();
        d := d + 1;
      }
      IndexOnce(startPos, 0, acked);
      SkipStep(was, n, d);
    }

    /** The second part of scanMsg. */
    method FindMsg() returns (found: bool, p: int, q: nat, passack: bool, ghost start: int)
      requires Valid() && -1 <= maxPos && 0 <= acked + maxPos < |cells|
      ensures q < slots.Length
      ensures match Scan(cells, acked, maxPos + acked, 0, -1)
              case Found(a, b) => found && p == Index(startPos, a) && q == Index(startPos, b) && passack == (b >= acked)
              case Nothing(a) =>
                && p == (if a < 0 then -1 else Index(startPos, a)) && (p == -1 <==> a == -1)
                && q == Index(startPos, acked + maxPos + 1)
                && passack && !found && -1 <= a == start <= acked + maxPos
    {
      hide Holds, Filled;
      p, q, found := -1, startPos, false;
      passack := startPos == lastAckPos;
      IndexOnce(startPos, 0, acked);
      var size := GetRcvDataSize();
      var i, n := 0, maxPos + size;
      start := -1;
      while i <= n
        invariant 0 <= i <= n + 1 && q == Index(startPos, i) < slots.Length && -1 <= start < i && !found
        invariant p == if start == -1 then -1 else Index(startPos, start)
        invariant passack == (i >= acked)
        invariant Scan(cells, acked, n, 0, -1) == Scan(cells, acked, n, i, start)
      {
        SlotIs(startPos, cells, i);
        if slots[q] != null && slots[q].flag == 1 {
          var unit := slots[q].data;
          if unit.first {
            p := q;
            start := i;
            found := unit.last;
          } else if unit.last && p != -1 {
            found := true;
          }
        } else {
          p := -1;
          start := -1;
        }
        if found {
          if !passack || !slots[q].data.inOrder { return; }
          found := false;
        }
        q := q + 1;
        if q == slots.Length {
          q := 0;
        }
        if i + 1 < slots.Length {
          IndexOnce(startPos, i + 1, acked);
        }
        if q == lastAckPos {
          passack := true;
        }
        i := i + 1;
      }
    }

    /** scanMsg. Besides a message it may report one too long for the buffer: then the slot after q is p. */
    method ScanMsg() returns (found: bool, p: int, q: nat, passack: bool)
      requires Valid() && -1 <= maxPos && acked + maxPos < |cells| && (acked > 0 ==> maxPos >= 0)
      modifies this`startPos, this`cells, this`acked, slots, queue, units
      ensures Valid() && Contents() == MsgModel.ScanMsg(old(Contents())).0 && q < slots.Length
      ensures match MsgModel.ScanMsg(old(Contents())).1
              case Found(a, b) => found && p == Index(startPos, a) && q == Index(startPos, b) && passack == (b >= acked)
              case Nothing(a) =>
                found == (a >= 0 && a == acked + maxPos + 2 - |cells|) && (found ==> passack && p == Index(q, 1))
    {
      ghost var goal := MsgModel.ScanMsg(Contents());
      IndexOnce(startPos, 0, acked);
      if startPos == lastAckPos && maxPos <= 0 {
        found, p, q, passack := false, -1, 0, false;
        return;
      }
      hide Holds, Filled, Skip, Scan, Drop, Skipped;
      assert |cells| >= 2;
      SkipBad();
      ghost var start;
      found, p, q, passack, start := FindMsg();
      assert goal == (Contents(), Scan(cells, acked, maxPos + acked, 0, -1));
      hide Index, MsgModel.ScanMsg;
      if !found {
        found := FillsBuffer(p, q, start);
      }
    }

    /** Whether a message that has begun at p fills the rest of the buffer up to q. */
    method FillsBuffer(p: int, q: nat, ghost start: int) returns (yes: bool)
      requires Valid() && 2 <= |cells| && 0 <= acked + maxPos < |cells| && -1 <= start <= acked + maxPos
      requires p == (if start < 0 then -1 else Index(startPos, start))
      requires q == Index(startPos, acked + maxPos + 1) < slots.Length
      ensures yes == (start >= 0 && start == acked + maxPos + 2 - |cells|) && (yes ==> p == Index(q, 1))
    {
      hide Holds, Filled;
      yes := false;
      if p != -1 {
        AroundTo(acked + maxPos + 1, start);
        var next := Wrapped(q, 1);
        yes := next == p;
      }
    }

    /** getRcvMsgNum */
    method GetRcvMsgNum() returns (n: int)
      requires Valid() && BufOk(Contents())
      modifies this`startPos, this`cells, this`acked, slots, queue, units
      ensures Valid() && BufOk(Contents())
      ensures match MsgModel.ScanMsg(old(Contents())).1
              case Found(_, _) => n == 1
              case Nothing(a) => n == if a >= 0 && a == acked + maxPos + 2 - |cells| then 1 else 0
      ensures (exists p, q :: Deliverable(old(cells), old(acked), p, q)) && (old(acked) > 0 || old(maxPos) > 0) ==>
                n == 1
      ensures n == 1 ==> old(acked) > 0 || old(maxPos) > 0
    {
      ScanMsgExact(Contents());
      hide Deliverable, MsgModel.ScanMsg;
      var found, p, q, passack := ScanMsg();
      n := if found then 1 else 0;
    }

    /** Between two turns of the copying loop of readMsg: cells a to i have been copied; acknowledged ones are freed,
        other ones marked as read. */
    ghost predicate Taking(c: Buf, a: nat, i: nat, b: nat, passack: bool, p: int)
      reads this, slots, queue, units
    {
      && |cells| == |c.cells| == slots.Length > startPos && cells == c.cells && a <= i <= b + 1 < |c.cells|
      && (passack || a == 0)
      && p == Index(startPos, i)
      && (if passack then Holds(startPos, Mark(c.cells, a, i)) && queue.count == others + Filled(Mark(c.cells, a, i))
          else Holds(p, Drop(c.cells, i)) && queue.count == others + Filled(Drop(c.cells, i)))
    }

    method TakeUnit(ghost c: Buf, ghost a: nat, ghost i: nat, ghost b: nat, passack: bool, p: nat) returns (p': nat)
      requires Taking(c, a, i, b, passack, p) && i <= b && c.cells[i].Full?
      modifies slots, queue, units
      ensures Taking(c, a, i + 1, b, passack, p')
    {
      IndexNext(startPos, i);
      MarkMore(c.cells, a, i);
      DropMore(c.cells, i);
      hide Holds, Filled, Mark, Drop;
      if !passack {
        p' := FreeNext(p, Drop(c.cells, i));
      } else {
        ghost var cs := Mark(c.cells, a, i);
        FilledSet(cs, i, Full(2, cs[i].unit));
        SlotIs(startPos, cs, i);
        MarkRead(startPos, p, cs, i);
        p' := p + 1;
        if p' == slots.Length {
          p' := 0;
        }
      }
    }

    /** One turn of that loop. */
    method CopyOne(ghost c: Buf, ghost a: nat, ghost i: nat, ghost b: nat, passack: bool, p: nat, rs: nat,
                   data: seq<Byte>, ghost goal: seq<Byte>)
      returns (data': seq<Byte>, p': nat, rs': nat)
      requires Taking(c, a, i, b, passack, p) && i <= b && Filling(data, c.cells, i, b + 1, rs, goal)
      modifies slots, queue, units
      ensures Taking(c, a, i + 1, b, passack, p') && Filling(data', c.cells, i + 1, b + 1, rs', goal)
    {
      ghost var cs := if passack then Mark(c.cells, a, i) else Drop(c.cells, i);
      SlotIs(if passack then startPos else p, cs, if passack then i else 0);
      IndexNext(startPos, i);
      var unit := slots[p].data.payload;
      var unitsize := |unit|;
      if unitsize > rs {
        unitsize := rs;
      }
      FillingStep(data, c.cells, i, b + 1, rs, goal, unitsize);
      data' := data + unit[..unitsize];
      rs' := rs - unitsize;
      p' := TakeUnit(c, a, i, b, passack, p);
    }

    lemma {:induction false} IndexSum(i: nat, j: nat)
      requires startPos < slots.Length && i <= j < slots.Length
      ensures Index(Index(startPos, i), j - i) == Index(startPos, j)
    {
    }

    /** The copying loop of readMsg, and the move past an acknowledged message. For a message too long for the
        buffer the loop does not turn at all. */
    method CopyMsg(ghost c: Buf, ghost f: Found, p: nat, q: nat, passack: bool, len: nat) returns (data: seq<Byte>)
      requires Valid() && Contents() == c && q < |cells|
      requires f.Found? ==>
                 && 0 <= f.p <= f.q && f.q + 1 < |cells| && (forall k :: f.p <= k < f.q + 1 ==> cells[k].Full?)
                 && p == Index(startPos, f.p) && q == Index(startPos, f.q)
                 && passack == (f.q >= acked) && (!passack ==> f.p == 0)
      requires f.Nothing? ==> p == Index(q, 1) && passack
      modifies this`startPos, this`cells, this`acked, slots, queue, units
      ensures Valid() && Contents() == if f.Found? then Taken(c, f.p, f.q) else c
      ensures data == if f.Found? then Take(BytesOf(c.cells, f.p, f.q + 1), len) else []
    {
      hide Holds, Filled, Mark, Drop, Take, BytesOf;
      var end := Wrapped(q, 1);
      data := [];
      if p != end {
        NothingMarked(c.cells, f.p);
        data := CopyUnits(c, f.p, f.q, p, end, passack, len);
      }
      if !passack {
        IndexSum(f.q + 1, acked);
        startPos := Wrapped(q, 1);
      }
      if f.Found? {
        cells := if passack then Mark(cells, f.p, f.q + 1) else Drop(cells, f.q + 1);
        acked := if passack then acked else acked - (f.q + 1);
      }
    }

    method CopyUnits(ghost c: Buf, ghost a: nat, ghost b: nat, p: nat, end: nat, passack: bool, len: nat)
      returns (data: seq<Byte>)
      requires Taking(c, a, a, b, passack, p) && end == Index(startPos, b + 1)
      requires forall k :: a <= k < b + 1 ==> c.cells[k].Full?
      modifies slots, queue, units
      ensures Taking(c, a, b + 1, b, passack, end)
      ensures data == Take(BytesOf(c.cells, a, b + 1), len)
    {
      var pos, rs := p, len;
      ghost var goal := Take(BytesOf(c.cells, a, b + 1), len);
      data := [];
      ghost var i := a;
      assert data + goal == goal;
      assert Filling(data, c.cells, i, b + 1, rs, goal);
      hide Holds, Filled, Mark, Drop, Filling;
      while pos != end
        invariant Taking(c, a, i, b, passack, pos) && rs >= 0
        invariant Filling(data, c.cells, i, b + 1, rs, goal)
        decreases b + 1 - i
      {
        IndexOnce(startPos, i, b + 1);
        data, pos, rs := CopyOne(c, a, i, b, passack, pos, rs, data, goal);
        i := i + 1;
      }
      IndexOnce(startPos, i, b + 1);
      FillingEnds(data, c.cells, i, rs, goal);
    }

    /** readMsg */
    method ReadMsg(len: nat) returns (data: seq<Byte>)
      requires Valid() && BufOk(Contents())
      modifies this`startPos, this`cells, this`acked, slots, queue, units
      ensures Valid() && (Contents(), data) == MsgModel.ReadMsg(old(Contents()), len)
    {
      hide Holds, Filled, Taken, MsgModel.ScanMsg, BytesOf, Take, Stamped, Drop, Mark, Skipped;
      ScanMsgUse(Contents());
      data := [];
      var found, p, q, passack := ScanMsg();
      hide Index;
      if !found { return; }
      data := CopyMsg(Contents(), MsgModel.ScanMsg(old(Contents())).1, p, q, passack, len);
    }
  }
}
