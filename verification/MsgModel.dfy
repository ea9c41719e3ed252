/** The receive buffer as a sequence of cells seen from its first unread slot, and what scanMsg and readMsg do to it. */
module MsgModel {
  import opened Bytes
  import opened Numbers

  /** A data packet: its bytes and the boundary and order bits of its message word. */
  datatype UnitData = UnitData(payload: Payload, first: bool, last: bool, inOrder: bool)

  /** flag 1: not read yet; 2: read out of order; 3: dropped. */
  datatype Cell = Empty | Full(flag: int, unit: UnitData)

  /** acked: cells before m_iLastAckPos; maxPos: m_iMaxPos. */
  datatype Buf = Buf(cells: seq<Cell>, acked: nat, maxPos: int)

  predicate Unread(c: Cell)
  {
    c.Full? && c.flag == 1
  }

  function Empties(n: nat): (r: seq<Cell>)
  {
    seq(n, _ => Empty)
  }

  /** The first d cells are freed and the window moves past them. */
  function Drop(cells: seq<Cell>, d: nat): (r: seq<Cell>)
    requires d <= |cells|
    ensures |r| == |cells|
  {
    seq(|cells|, k requires 0 <= k < |cells| => if k + d < |cells| then cells[k + d] else Empty)
  }

  /** How many slots hold a unit. */
  function Filled(cells: seq<Cell>): nat
  {
    if cells == [] then 0 else Filled(cells[1..]) + if cells[0].Full? then 1 else 0
  }

  lemma {:induction false} FilledAppend(a: seq<Cell>, b: seq<Cell>)
    ensures Filled(a + b) == Filled(a) + Filled(b)
  {
    if a == [] {
      assert a + b == b;
    } else {
      FilledAppend(a[1..], b);
      assert (a + b)[1..] == a[1..] + b;
    }
  }

  lemma {:induction false} FilledNone(n: nat)
    ensures Filled(Empties(n)) == 0
  {
    if n > 0 {
      FilledNone(n - 1);
      assert Empties(n)[1..] == Empties(n - 1);
    }
  }

  lemma {:induction false} FilledSet(cells: seq<Cell>, k: nat, c: Cell)
    requires k < |cells|
    ensures Filled(cells[k := c]) == Filled(cells) - (if cells[k].Full? then 1 else 0) + (if c.Full? then 1 else 0)
  {
    if k > 0 {
      FilledSet(cells[1..], k - 1, c);
      assert cells[k := c][1..] == cells[1..][k - 1 := c];
    }
  }

  lemma {:induction false} FilledDropOne(cells: seq<Cell>)
    requires cells != []
    ensures Filled(Drop(cells, 1)) == Filled(cells) - if cells[0].Full? then 1 else 0
  {
    FilledAppend(cells[1..], [Empty]);
    assert Drop(cells, 1) == cells[1..] + [Empty];
  }

  lemma {:induction false} DropMore(cells: seq<Cell>, d: nat)
    requires d < |cells|
    ensures Drop(Drop(cells, d), 1) == Drop(cells, d + 1) && Drop(cells, d)[0] == cells[d]
  {
  }

  // ---------- scanMsg ----------

  /** The look-ahead: from i on, unread units up to the end of a message or of the acknowledged part. */
  function LooksWhole(cells: seq<Cell>, acked: nat, i: nat): bool
    requires i <= acked <= |cells|
    decreases acked - i
  {
    i == acked || (Unread(cells[i]) && (cells[i].unit.last || LooksWhole(cells, acked, i + 1)))
  }

  /** The first acknowledged cell that can start a message to be delivered. */
  function Skip(cells: seq<Cell>, acked: nat, d: nat): (r: nat)
    requires d <= acked <= |cells|
    ensures d <= r <= acked
    decreases acked - d
  {
    if d == acked then d
    else if Unread(cells[d]) && cells[d].unit.first && LooksWhole(cells, acked, d) then d
    else Skip(cells, acked, d + 1)
  }

  lemma {:induction false} SkipStep(cells: seq<Cell>, acked: nat, d: nat)
    requires d <= acked <= |cells|
    ensures d == acked ==> Skip(cells, acked, d) == d
    ensures d < acked && Unread(cells[d]) && cells[d].unit.first && LooksWhole(cells, acked, d) ==>
              Skip(cells, acked, d) == d
    ensures d < acked && !(Unread(cells[d]) && cells[d].unit.first && LooksWhole(cells, acked, d)) ==>
              Skip(cells, acked, d) == Skip(cells, acked, d + 1)
  {
  }

  lemma {:induction false} DropNone(cells: seq<Cell>)
    ensures Drop(cells, 0) == cells
  {
  }

  datatype Found = Found(p: int, q: int) | Nothing(p: int)

  /** The latest message start after cell i. */
  function NextStart(c: Cell, i: nat, p: int): int
  {
    if !Unread(c) then -1 else if c.unit.first then i else p
  }

  /** The main loop, at cell i with the latest message start p, or -1. */
  function Scan(cells: seq<Cell>, acked: nat, n: int, i: nat, p: int): Found
    requires n < |cells|
    decreases n - i
  {
    if i > n then Nothing(p)
    else
      var p' := NextStart(cells[i], i, p);
      if Unread(cells[i]) && cells[i].unit.last && p' != -1 && (i < acked || !cells[i].unit.inOrder) then Found(p', i)
      else Scan(cells, acked, n, i + 1, p')
  }

  function BytesOf(cells: seq<Cell>, lo: nat, hi: nat): (b: seq<Byte>)
    requires lo <= hi <= |cells| && forall k :: lo <= k < hi ==> cells[k].Full?
    decreases hi - lo
  {
    if lo == hi then [] else cells[lo].unit.payload + BytesOf(cells, lo + 1, hi)
  }

  function Take(b: seq<Byte>, len: nat): seq<Byte>
  {
    if len < |b| then b[..len] else b
  }

  function Mark(cells: seq<Cell>, lo: nat, hi: nat): (r: seq<Cell>)
    requires lo <= hi <= |cells|
    ensures |r| == |cells|
  {
    seq(|cells|, k requires 0 <= k < |cells| =>
      if lo <= k < hi && cells[k].Full? then Full(2, cells[k].unit) else cells[k])
  }

  lemma {:induction false} NothingMarked(cells: seq<Cell>, lo: nat)
    requires lo <= |cells|
    ensures Mark(cells, lo, lo) == cells && Drop(cells, 0) == cells
  {
  }

  lemma {:induction false} MarkMore(cells: seq<Cell>, lo: nat, i: nat)
    requires lo <= i < |cells| && cells[i].Full?
    ensures Mark(cells, lo, i)[i] == cells[i]
    ensures Mark(cells, lo, i + 1) == Mark(cells, lo, i)[i := Full(2, cells[i].unit)]
  {
  }

  // ---------- what a message is ----------

  /** Unread cells p to q hold one message from its start to its end. */
  ghost predicate Whole(cells: seq<Cell>, p: int, q: int)
  {
    && 0 <= p <= q < |cells|
    && (forall k :: p <= k <= q ==> Unread(cells[k]))
    && cells[p].unit.first && cells[q].unit.last
    && (forall k :: p < k <= q ==> !cells[k].unit.first)
    && (forall k :: p <= k < q ==> !cells[k].unit.last)
  }

  /** Acknowledged messages may be delivered; past the acknowledgement point only those that do not want order. */
  ghost predicate Deliverable(cells: seq<Cell>, acked: nat, p: int, q: int)
  {
    Whole(cells, p, q) && (q < acked || !cells[q].unit.inOrder)
  }

  /** Boundary bits as addBuffer sets them: a message starts exactly where another one ended. */
  ghost predicate Stamped(cells: seq<Cell>)
  {
    forall i :: 0 <= i < |cells| - 1 ==> Joins(cells, i)
  }

  ghost predicate Joins(cells: seq<Cell>, i: nat)
    requires i + 1 < |cells|
  {
    cells[i].Full? && cells[i + 1].Full? ==> (cells[i].unit.last <==> cells[i + 1].unit.first)
  }

  ghost predicate BufOk(b: Buf)
  {
    && b.acked < |b.cells|
    && -1 <= b.maxPos && b.acked + b.maxPos < |b.cells|
    && (b.acked > 0 ==> b.maxPos >= 0)
    && (forall k :: 0 <= k < |b.cells| && b.cells[k].Full? ==> k <= b.acked + b.maxPos && k < |b.cells| - 1)
    && Stamped(b.cells)
  }

  // ---------- scanning is exact ----------

  ghost predicate AllUnread(cells: seq<Cell>, lo: int, hi: int)
    requires 0 <= lo && hi <= |cells|
  {
    forall k :: lo <= k < hi ==> Unread(cells[k])
  }

  /** What the loop knows at cell i: p is the start of the run of unread cells of one message that reaches i, if any. */
  ghost predicate Open(cells: seq<Cell>, i: nat, p: int)
    requires i <= |cells|
  {
    if p < 0 then
      p == -1 && forall s :: 0 <= s < i && AllUnread(cells, s, i) ==> !cells[s].unit.first
    else
      p < i && AllUnread(cells, p, i) && cells[p].unit.first && forall k :: p < k < i ==> !cells[k].unit.first
  }

  lemma {:induction false} OpenStep(cells: seq<Cell>, i: nat, p: int)
    requires i < |cells| && Open(cells, i, p)
    ensures Open(cells, i + 1, NextStart(cells[i], i, p))
  {
    if NextStart(cells[i], i, p) == -1 {
      forall s | 0 <= s < i + 1 && AllUnread(cells, s, i + 1) ensures !cells[s].unit.first {
        if s < i { assert AllUnread(cells, s, i); }
      }
    }
  }

  /** A message ending at i starts where the loop says, and nowhere else. */
  lemma {:induction false} StartIsUnique(cells: seq<Cell>, i: nat, p: int, a: int)
    requires i < |cells| && Open(cells, i + 1, p) && Stamped(cells) && Unread(cells[i]) && cells[i].unit.last
    ensures Whole(cells, a, i) <==> a == p != -1
  {
    if a == p && p >= 0 {
      forall k | p <= k < i ensures !cells[k].unit.last {
        assert Joins(cells, k) && Unread(cells[k]) && Unread(cells[k + 1]);
      }
    }
    if Whole(cells, a, i) && p == -1 {
      assert AllUnread(cells, a, i + 1);
    }
  }

  /** The loop finds the first message that may be delivered, and fails only if there is none. */
  lemma {:induction false} ScanExact(cells: seq<Cell>, acked: nat, n: int, i: nat, p: int)
    requires n < |cells| && i <= n + 1 && Open(cells, i, p) && Stamped(cells)
    ensures var f := Scan(cells, acked, n, i, p);
            && (f.Found? ==> i <= f.q <= n && Deliverable(cells, acked, f.p, f.q))
            && (forall a, b :: i <= b <= n && Deliverable(cells, acked, a, b) ==> f.Found? && f.q <= b)
    decreases n - i
  {
    if i <= n {
      var p' := NextStart(cells[i], i, p);
      OpenStep(cells, i, p);
      if Unread(cells[i]) && cells[i].unit.last {
        StartIsUnique(cells, i, p', p');
        forall a | Deliverable(cells, acked, a, i) ensures Scan(cells, acked, n, i, p) == Found(p', i) {
          StartIsUnique(cells, i, p', a);
        }
      }
      if !(Unread(cells[i]) && cells[i].unit.last && p' != -1 && (i < acked || !cells[i].unit.inOrder)) {
        ScanExact(cells, acked, n, i + 1, p');
      }
    }
  }

  lemma {:induction false} LooksWholeWalk(cells: seq<Cell>, acked: nat, i: nat, e: int)
    requires i <= acked <= |cells| && i <= e && forall k :: i <= k <= e && k < acked ==> Unread(cells[k])
    requires e < acked ==> Unread(cells[e]) && cells[e].unit.last
    ensures LooksWhole(cells, acked, i)
    decreases acked - i
  {
    if i < acked && !(cells[i].unit.last) {
      LooksWholeWalk(cells, acked, i + 1, e);
    }
  }

  /** Skipping passes over no message. */
  lemma {:induction false} SkipPassesNone(cells: seq<Cell>, acked: nat, d: nat, p: int, q: int)
    requires d <= acked <= |cells| && Whole(cells, p, q) && d <= p
    ensures Skip(cells, acked, d) <= p
    decreases acked - d
  {
    if d == p && d < acked {
      LooksWholeWalk(cells, acked, d, q);
    } else if d < acked {
      if Skip(cells, acked, d) != d {
        SkipPassesNone(cells, acked, d + 1, p, q);
      }
    }
  }

  lemma {:induction false} SkipStops(cells: seq<Cell>, acked: nat, d: nat)
    requires d <= acked <= |cells|
    ensures var r := Skip(cells, acked, d);
            r < acked ==> Unread(cells[r]) && cells[r].unit.first && LooksWhole(cells, acked, r)
    decreases acked - d
  {
    if d < acked && Skip(cells, acked, d) != d {
      SkipStops(cells, acked, d + 1);
    }
  }

  lemma {:induction false} LooksWholeShift(cells: seq<Cell>, acked: nat, i: nat, d: nat)
    requires d <= i <= acked <= |cells|
    ensures LooksWhole(Drop(cells, d), acked - d, i - d) == LooksWhole(cells, acked, i)
    decreases acked - i
  {
    if i < acked {
      LooksWholeShift(cells, acked, i + 1, d);
    }
  }

  /** The message the look-ahead saw: it ends inside the acknowledged part, or fills all of it. */
  lemma {:induction false} LooksWholeIs(cells: seq<Cell>, acked: nat, i: nat) returns (e: int)
    requires i <= acked <= |cells| && LooksWhole(cells, acked, i)
    ensures i <= e <= acked && forall k :: i <= k < e ==> Unread(cells[k]) && !cells[k].unit.last
    ensures e < acked ==> Unread(cells[e]) && cells[e].unit.last
    decreases acked - i
  {
    if i == acked || cells[i].unit.last {
      e := i;
    } else {
      e := LooksWholeIs(cells, acked, i + 1);
    }
  }

  /** After skipping, an acknowledged message that is found starts at the very first cell. */
  lemma {:induction false} FrontFirst(cells: seq<Cell>, acked: nat, p: int, q: int)
    requires acked <= |cells| && Stamped(cells)
    requires acked > 0 ==> Unread(cells[0]) && cells[0].unit.first && LooksWhole(cells, acked, 0)
    requires Deliverable(cells, acked, p, q) && q < acked
    requires forall a, b :: Deliverable(cells, acked, a, b) ==> q <= b
    ensures p == 0
  {
    var e := LooksWholeIs(cells, acked, 0);
    if e < acked {
      forall k | 0 < k <= e ensures !cells[k].unit.first {
        assert Joins(cells, k - 1) && Unread(cells[k - 1]) && Unread(cells[k]);
      }
      assert Deliverable(cells, acked, 0, e);
    }
  }

  lemma {:induction false} WholeShift(cells: seq<Cell>, d: nat, p: int, q: int)
    requires d <= |cells| && 0 <= p <= q < |cells| - d
    ensures Whole(Drop(cells, d), p, q) <==> Whole(cells, p + d, q + d)
  {
    var r := Drop(cells, d);
    if Whole(r, p, q) {
      WholeBack(cells, d, p, q);
    } else if Whole(cells, p + d, q + d) {
      WholeForth(cells, d, p, q);
    }
  }

  lemma {:induction false} WholeBack(cells: seq<Cell>, d: nat, p: int, q: int)
    requires d <= |cells| && 0 <= p <= q < |cells| - d && Whole(Drop(cells, d), p, q)
    ensures Whole(cells, p + d, q + d)
  {
    var r := Drop(cells, d);
    forall k | p + d <= k <= q + d ensures cells[k] == r[k - d] {
    }
    hide Drop;
  }

  lemma {:induction false} WholeForth(cells: seq<Cell>, d: nat, p: int, q: int)
    requires d <= |cells| && 0 <= p <= q < |cells| - d && Whole(cells, p + d, q + d)
    ensures Whole(Drop(cells, d), p, q)
  {
    var r := Drop(cells, d);
    forall k | p <= k <= q ensures r[k] == cells[k + d] {
    }
    hide Drop;
  }

  // ---------- the operations ----------

  function AddData(b: Buf, offset: nat, unit: UnitData): Buf
    requires b.acked + offset < |b.cells|
  {
    var k := b.acked + offset;
    Buf(if b.cells[k] == Empty then b.cells[k := Full(1, unit)] else b.cells, b.acked,
        if offset > b.maxPos then offset else b.maxPos)
  }

  function AckData(b: Buf, len: nat): Buf
  {
    b.(acked := b.acked + len, maxPos := if b.maxPos - len < 0 then 0 else b.maxPos - len)
  }

  function Skipped(b: Buf): Buf
    requires b.acked <= |b.cells|
  {
    var d := Skip(b.cells, b.acked, 0);
    b.(cells := Drop(b.cells, d), acked := b.acked - d)
  }

  predicate LooksEmpty(b: Buf)
  {
    b.acked == 0 && b.maxPos <= 0
  }

  function ScanMsg(b: Buf): (r: (Buf, Found))
    requires b.acked < |b.cells| && b.acked + b.maxPos < |b.cells|
  {
    if LooksEmpty(b) then (b, Nothing(-1))
    else
      var c := Skipped(b);
      (c, Scan(c.cells, c.acked, c.maxPos + c.acked, 0, -1))
  }

  function Taken(c: Buf, p: nat, q: nat): Buf
    requires q < |c.cells| && p <= q
  {
    if q < c.acked then c.(cells := Drop(c.cells, q + 1), acked := c.acked - (q + 1))
    else c.(cells := Mark(c.cells, p, q + 1))
  }

  function ReadMsg(b: Buf, len: nat): (r: (Buf, seq<Byte>))
    requires BufOk(b)
  {
    var (c, f) := ScanMsg(b);
    if f.Nothing? then (c, [])
    else
      ScanMsgExact(b);
      (Taken(c, f.p, f.q), Take(BytesOf(c.cells, f.p, f.q + 1), len))
  }

  lemma {:induction false} SkippedOk(b: Buf)
    requires BufOk(b)
    ensures BufOk(Skipped(b))
  {
    DropStamped(b.cells, Skip(b.cells, b.acked, 0));
  }

  lemma {:induction false} DropStamped(cells: seq<Cell>, d: nat)
    requires d <= |cells| && Stamped(cells)
    ensures Stamped(Drop(cells, d))
  {
    forall i | 0 <= i < |cells| - 1 ensures Joins(Drop(cells, d), i) {
      if i + d < |cells| - 1 { assert Joins(cells, i + d); }
    }
  }

  lemma {:induction false} MarkStamped(cells: seq<Cell>, lo: nat, hi: nat)
    requires lo <= hi <= |cells| && Stamped(cells)
    ensures Stamped(Mark(cells, lo, hi))
  {
    forall i | 0 <= i < |cells| - 1 ensures Joins(Mark(cells, lo, hi), i) {
      assert Joins(cells, i);
    }
  }

  ghost predicate FrontOk(c: Buf)
    requires c.acked <= |c.cells|
  {
    c.acked > 0 ==> Unread(c.cells[0]) && c.cells[0].unit.first && LooksWhole(c.cells, c.acked, 0)
  }

  lemma {:induction false} SkipFacts(b: Buf)
    requires BufOk(b)
    ensures BufOk(Skipped(b)) && FrontOk(Skipped(b))
    ensures forall p, q :: Whole(b.cells, p, q) ==> Skip(b.cells, b.acked, 0) <= p
  {
    SkippedOk(b);
    var d := Skip(b.cells, b.acked, 0);
    SkipStops(b.cells, b.acked, 0);
    LooksWholeShift(b.cells, b.acked, d, d);
    forall p, q | Whole(b.cells, p, q) ensures d <= p {
      SkipPassesNone(b.cells, b.acked, 0, p, q);
    }
  }

  lemma {:induction false} DeliverableShift(b: Buf, d: nat, p: int, q: int)
    requires BufOk(b) && d <= b.acked
    requires d <= p <= q < |b.cells|
    ensures Deliverable(b.cells, b.acked, p, q) <==> Deliverable(Drop(b.cells, d), b.acked - d, p - d, q - d)
  {
    WholeShift(b.cells, d, p - d, q - d);
  }

  lemma {:induction false} ScanFacts(c: Buf)
    requires BufOk(c) && FrontOk(c)
    ensures var f := Scan(c.cells, c.acked, c.maxPos + c.acked, 0, -1);
            && (f.Found? ==> 0 <= f.p <= f.q <= c.maxPos + c.acked && Deliverable(c.cells, c.acked, f.p, f.q))
            && (f.Found? && f.q < c.acked ==> f.p == 0)
            && (forall p, q :: Deliverable(c.cells, c.acked, p, q) ==> f.Found? && f.q <= q)
  {
    var f := Scan(c.cells, c.acked, c.maxPos + c.acked, 0, -1);
    ScanExact(c.cells, c.acked, c.maxPos + c.acked, 0, -1);
    forall p, q | Deliverable(c.cells, c.acked, p, q) ensures f.Found? && f.q <= q {
      assert c.cells[q].Full?;
    }
    if f.Found? && f.q < c.acked {
      FrontFirst(c.cells, c.acked, f.p, f.q);
    }
  }

  ghost predicate ScanIsExact(b: Buf, c: Buf, d: nat, f: Found)
    requires b.acked <= |b.cells|
  {
    && BufOk(c) && d <= b.acked && c.acked == b.acked - d && c.maxPos == b.maxPos && c.cells == Drop(b.cells, d)
    && (forall p, q :: Whole(b.cells, p, q) ==> d <= p)
    && (f.Found? ==>
          && 0 <= f.p <= f.q && Deliverable(c.cells, c.acked, f.p, f.q)
          && Deliverable(b.cells, b.acked, f.p + d, f.q + d)
          && (f.q < c.acked ==> f.p == 0))
    && (forall p, q :: Deliverable(b.cells, b.acked, p, q) && (b.acked > 0 || b.maxPos > 0) ==>
          f.Found? && f.q + d <= q)
    && (f.Found? <==> (b.acked > 0 || b.maxPos > 0) && exists p, q :: Deliverable(b.cells, b.acked, p, q))
  }

  /** scanMsg finds a message exactly if there is one to deliver and something is acknowledged or m_iMaxPos is positive;
      it finds the first one, and what it frees on its way is part of no message. */
  lemma {:induction false} ScanMsgExact(b: Buf)
    requires BufOk(b)
    ensures var (c, f) := ScanMsg(b); b.acked >= c.acked && ScanIsExact(b, c, b.acked - c.acked, f)
  {
    if LooksEmpty(b) {
      NothingMarked(b.cells, 0);
    } else {
      SkipFacts(b);
      var c := Skipped(b);
      ScanFacts(c);
      ScanTranslates(b, c, Skip(b.cells, b.acked, 0), ScanMsg(b).1);
    }
  }

  /** Some slot other than the first holds a unit. */
  ghost predicate Beyond(cells: seq<Cell>)
  {
    exists k :: 0 < k < |cells| && cells[k].Full?
  }

  /** m_iMaxPos, when positive, leads to a slot that holds a unit. */
  ghost predicate Furthest(b: Buf)
  {
    b.maxPos > 0 ==> b.acked + b.maxPos < |b.cells| && b.cells[b.acked + b.maxPos].Full?
  }

  /** In the terms of the slots: a message that may be delivered is found unless nothing is acknowledged and no slot but
      the first holds a unit. */
  lemma {:induction false} FoundExactly(b: Buf)
    requires BufOk(b) && Furthest(b)
    ensures ScanMsg(b).1.Found? <==>
            (exists p, q :: Deliverable(b.cells, b.acked, p, q)) && (b.acked > 0 || Beyond(b.cells))
  {
    ScanMsgExact(b);
    hide ScanMsg, Deliverable, Stamped;
    if b.maxPos > 0 {
      assert b.cells[b.acked + b.maxPos].Full?;
    }
  }

  /** What scanning the cells behind the skipped ones says about the whole buffer. */
  lemma {:induction false} ScanTranslates(b: Buf, c: Buf, d: nat, f: Found)
    requires BufOk(b) && BufOk(c) && !LooksEmpty(b)
    requires d <= b.acked && c.acked == b.acked - d && c.maxPos == b.maxPos && c.cells == Drop(b.cells, d)
    requires forall p, q :: Whole(b.cells, p, q) ==> d <= p
    requires f.Found? ==> 0 <= f.p <= f.q && Deliverable(c.cells, c.acked, f.p, f.q) && (f.q < c.acked ==> f.p == 0)
    requires forall p, q :: Deliverable(c.cells, c.acked, p, q) ==> f.Found? && f.q <= q
    ensures ScanIsExact(b, c, d, f)
  {
    hide Stamped, Drop, Whole;
    forall p, q | Deliverable(b.cells, b.acked, p, q) ensures f.Found? && f.q + d <= q {
      WholeIn(b.cells, p, q);
      DeliverableShift(b, d, p, q);
    }
    if f.Found? {
      FoundIn(b, c, d, f);
      DeliverableShift(b, d, f.p + d, f.q + d);
    }
  }

  lemma {:induction false} WholeIn(cells: seq<Cell>, p: int, q: int)
    requires Whole(cells, p, q)
    ensures 0 <= p <= q < |cells|
  {
  }

  /** A cell found behind d skipped ones is a cell of the buffer. */
  lemma {:induction false} FoundIn(b: Buf, c: Buf, d: nat, f: Found)
    requires BufOk(b) && d <= b.acked && c.cells == Drop(b.cells, d)
    requires f.Found? && Deliverable(c.cells, c.acked, f.p, f.q)
    ensures f.q + d < |b.cells|
  {
    assert c.cells[f.q].Full?;
  }

  /** The part of this that readMsg builds on. */
  lemma {:induction false} ScanMsgUse(b: Buf)
    requires BufOk(b)
    ensures var (c, f) := ScanMsg(b);
            f.Found? ==>
              && 0 <= f.p <= f.q && f.q + 1 < |c.cells| && (forall k :: f.p <= k < f.q + 1 ==> c.cells[k].Full?)
              && (f.q < c.acked ==> f.p == 0)
  {
    ScanMsgExact(b);
    hide ScanMsg, Stamped, Drop;
  }
}
