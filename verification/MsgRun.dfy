/** Message mode over every run: data packets arrive in any order and any number of times, the acknowledgement point
    advances, and the application asks for messages. */
module MsgRun {
  import opened Bytes
  import opened Numbers
  import opened MsgModel

  /** A message handed to the application: its first and last packet, the room it was given, its bytes. */
  datatype Msg = Msg(lo: int, hi: int, len: nat, data: seq<Byte>)

  /** base: the number of the packet that belongs in the first unread slot; fault: some step met a buffer out of
      shape. */
  datatype Mailbox = Mailbox(base: int, buf: Buf, got: seq<Msg>, fault: bool)

  datatype Step = Arrive(n: int) | Acknowledge(len: nat) | Receive(len: nat)

  ghost predicate Init(m: Mailbox)
  {
    m.buf.cells != [] && m.buf == Buf(Empties(|m.buf.cells|), 0, -1) && m.got == [] && !m.fault
  }

  predicate Enabled(m: Mailbox, step: Step)
  {
    step.Acknowledge? ==> m.buf.acked + step.len < |m.buf.cells|
  }

  ghost function Do(sent: int -> UnitData, m: Mailbox, step: Step): Mailbox
    requires Enabled(m, step)
  {
    match step
    case Arrive(n) =>
      var offset := n - (m.base + m.buf.acked);
      if offset < 0 || offset >= |m.buf.cells| - m.buf.acked - 1 then m
      else m.(buf := AddData(m.buf, offset, sent(n)))
    case Acknowledge(len) => m.(buf := AckData(m.buf, len))
    case Receive(len) =>
      if !BufOk(m.buf) then m.(fault := true)
      else
        var (b, data) := ReadMsg(m.buf, len);
        var (c, f) := ScanMsg(m.buf);
        var from := Skipping(m, c).base;
        m.(base := m.base + (m.buf.acked - b.acked), buf := b,
           got := if f.Found? then m.got + [Msg(from + f.p, from + f.q, len, data)] else m.got)
  }

  /** scanMsg alone: the window moves past what can be delivered no more. */
  function Skipping(m: Mailbox, c: Buf): Mailbox
  {
    m.(base := m.base + (m.buf.acked - c.acked), buf := c)
  }

  /** Message p to q goes to the application. */
  function Delivering(m: Mailbox, p: nat, q: nat, len: nat): Mailbox
    requires p <= q < |m.buf.cells| && forall k :: p <= k < q + 1 ==> m.buf.cells[k].Full?
  {
    var b := Taken(m.buf, p, q);
    m.(base := m.base + (m.buf.acked - b.acked), buf := b,
       got := m.got + [Msg(m.base + p, m.base + q, len, Take(BytesOf(m.buf.cells, p, q + 1), len))])
  }

  /** A message starts exactly where another one ends. */
  ghost predicate StampedStream(sent: int -> UnitData)
  {
    forall i, j :: j == i + 1 ==> (sent(i).last <==> sent(j).first)
  }

  function SentBytes(sent: int -> UnitData, lo: int, hi: int): seq<Byte>
    decreases hi - lo
  {
    if lo >= hi then [] else sent(lo).payload + SentBytes(sent, lo + 1, hi)
  }

  ghost predicate IsMessage(sent: int -> UnitData, lo: int, hi: int)
  {
    && lo <= hi && sent(lo).first && sent(hi).last
    && (forall n :: lo < n <= hi ==> !sent(n).first)
    && (forall n :: lo <= n < hi ==> !sent(n).last)
  }

  // ---------- the invariant ----------

  ghost predicate CellsOk(sent: int -> UnitData, base: int, cells: seq<Cell>)
  {
    forall k :: 0 <= k < |cells| && cells[k].Full? ==> cells[k].unit == sent(base + k)
  }

  /** Packet n can never be delivered (again). */
  ghost predicate Spent(base: int, cells: seq<Cell>, n: int)
  {
    n < base || (n < base + |cells| && cells[n - base].Full? && !Unread(cells[n - base]))
  }

  ghost predicate AllSpent(base: int, cells: seq<Cell>, x: Msg)
  {
    forall n :: x.lo <= n <= x.hi ==> Spent(base, cells, n)
  }

  ghost predicate GotOk(sent: int -> UnitData, base: int, cells: seq<Cell>, x: Msg)
  {
    && IsMessage(sent, x.lo, x.hi) && x.data == Take(SentBytes(sent, x.lo, x.hi + 1), x.len)
    && AllSpent(base, cells, x)
    && (sent(x.hi).inOrder ==> x.hi < base)
  }

  /** No two deliveries share a packet, and an in-order message is delivered before all later ones. */
  ghost predicate Apart(sent: int -> UnitData, x: Msg, later: Msg)
  {
    if sent(x.hi).inOrder then x.hi < later.lo else x.hi < later.lo || later.hi < x.lo
  }

  ghost predicate Inv(sent: int -> UnitData, m: Mailbox)
  {
    && BufOk(m.buf) && !m.fault
    && CellsOk(sent, m.base, m.buf.cells)
    && (forall i :: 0 <= i < |m.got| ==> GotOk(sent, m.base, m.buf.cells, m.got[i]))
    && (forall i, j :: 0 <= i < j < |m.got| ==> Apart(sent, m.got[i], m.got[j]))
  }

  lemma {:induction false} ArriveKeeps(sent: int -> UnitData, m: Mailbox, n: int)
    requires StampedStream(sent) && Inv(sent, m)
    ensures Inv(sent, Do(sent, m, Arrive(n)))
  {
    hide IsMessage, SentBytes, Take, Apart;
    var offset, m' := n - (m.base + m.buf.acked), Do(sent, m, Arrive(n));
    if m' != m {
      var k := m.buf.acked + offset;
      var cells := m'.buf.cells;
      forall i | 0 <= i < |cells| - 1 ensures Joins(cells, i) {
        if cells[i].Full? && cells[i + 1].Full? {
          assert cells[i].unit == sent(m.base + i) && cells[i + 1].unit == sent(m.base + (i + 1));
        }
      }
      forall i | 0 <= i < |m.got| ensures GotOk(sent, m'.base, m'.buf.cells, m'.got[i]) {
        assert GotOk(sent, m.base, m.buf.cells, m.got[i]);
        forall x | m.got[i].lo <= x <= m.got[i].hi ensures Spent(m.base, m'.buf.cells, x) {
          assert Spent(m.base, m.buf.cells, x);
        }
      }
    }
  }

  lemma {:induction false} AcknowledgeKeeps(sent: int -> UnitData, m: Mailbox, len: nat)
    requires Inv(sent, m) && Enabled(m, Acknowledge(len))
    ensures Inv(sent, Do(sent, m, Acknowledge(len)))
  {
  }

  /** Moving the window forward. */
  lemma {:induction false} DropKeeps(sent: int -> UnitData, base: int, cells: seq<Cell>, d: nat, x: Msg)
    requires d <= |cells|
    ensures CellsOk(sent, base, cells) ==> CellsOk(sent, base + d, Drop(cells, d))
    ensures GotOk(sent, base, cells, x) ==> GotOk(sent, base + d, Drop(cells, d), x)
  {
    if CellsOk(sent, base, cells) {
      forall k | 0 <= k < |cells| && Drop(cells, d)[k].Full? ensures Drop(cells, d)[k].unit == sent(base + d + k) {
        assert Drop(cells, d)[k] == cells[k + d];
      }
    }
    if GotOk(sent, base, cells, x) {
      var base', cells' := base + d, Drop(cells, d);
      forall n | x.lo <= n <= x.hi ensures Spent(base', cells', n) {
        assert Spent(base, cells, n);
      }
    }
  }

  lemma {:induction false} BytesAreSent(sent: int -> UnitData, base: int, cells: seq<Cell>, p: nat, q: nat)
    requires CellsOk(sent, base, cells) && p <= q <= |cells| && forall k :: p <= k < q ==> cells[k].Full?
    ensures BytesOf(cells, p, q) == SentBytes(sent, base + p, base + q)
    decreases q - p
  {
    if p < q {
      BytesAreSent(sent, base, cells, p + 1, q);
    }
  }

  lemma {:induction false} WholeIsMessage(sent: int -> UnitData, base: int, cells: seq<Cell>, p: int, q: int)
    requires CellsOk(sent, base, cells) && Whole(cells, p, q)
    ensures IsMessage(sent, base + p, base + q)
  {
    forall n | base + p <= n <= base + q
      ensures (base + p < n ==> !sent(n).first) && (n < base + q ==> !sent(n).last) {
      assert Unread(cells[n - base]) && cells[n - base].unit == sent(n);
    }
    assert cells[p].unit == sent(base + p) && cells[q].unit == sent(base + q);
  }

  /** A whole unread message and an earlier delivery have no packet in common. */
  lemma {:induction false} UnreadIsApart(sent: int -> UnitData, base: int, cells: seq<Cell>, p: int, q: int, x: Msg)
    requires CellsOk(sent, base, cells) && Whole(cells, p, q) && GotOk(sent, base, cells, x)
    ensures if sent(x.hi).inOrder then x.hi < base + p else x.hi < base + p || base + q < x.lo
  {
    if x.hi >= base + p && base + q >= x.lo {
      var n := if x.lo > base + p then x.lo else base + p;
      UnreadNotSpent(base, cells, p, q, n);
      assert false;
    }
  }

  lemma {:induction false} UnreadNotSpent(base: int, cells: seq<Cell>, p: int, q: int, n: int)
    requires Whole(cells, p, q) && base + p <= n <= base + q
    ensures !Spent(base, cells, n)
  {
  }

  /** What is left of a buffer once message p to q has been taken from it. */
  lemma {:induction false} TakenKeeps(sent: int -> UnitData, base: int, c: Buf, p: nat, q: nat, x: Msg)
    requires BufOk(c) && CellsOk(sent, base, c.cells) && Whole(c.cells, p, q)
    ensures var b := Taken(c, p, q); var base' := base + (c.acked - b.acked);
            && BufOk(b) && CellsOk(sent, base', b.cells)
            && (GotOk(sent, base, c.cells, x) ==> GotOk(sent, base', b.cells, x))
            && (q < c.acked ==> base' == base + q + 1)
            && (q >= c.acked ==> base' == base)
            && (x.lo == base + p && x.hi == base + q ==> AllSpent(base', b.cells, x))
  {
    if q < c.acked {
      DropKeeps(sent, base, c.cells, q + 1, x);
      hide Stamped, IsMessage, Spent, CellsOk, Mark;
      TakenBuf(c, p, q);
    } else {
      MarkKeeps(sent, base, c.cells, p, q, x);
      hide Stamped, IsMessage, Spent, CellsOk, Drop, Mark;
      TakenBuf(c, p, q);
    }
  }

  lemma {:induction false} TakenBuf(c: Buf, p: nat, q: nat)
    requires BufOk(c) && Whole(c.cells, p, q)
    ensures BufOk(Taken(c, p, q))
  {
    if q < c.acked {
      DropStamped(c.cells, q + 1);
    } else {
      MarkStamped(c.cells, p, q + 1);
    }
    hide Stamped;
  }

  /** Marking a message as read where it lies. */
  lemma {:induction false} MarkKeeps(sent: int -> UnitData, base: int, cells: seq<Cell>, p: nat, q: nat, x: Msg)
    requires CellsOk(sent, base, cells) && Whole(cells, p, q)
    ensures CellsOk(sent, base, Mark(cells, p, q + 1))
    ensures GotOk(sent, base, cells, x) ==> GotOk(sent, base, Mark(cells, p, q + 1), x)
    ensures x.lo == base + p && x.hi == base + q ==> AllSpent(base, Mark(cells, p, q + 1), x)
  {
    var cells' := Mark(cells, p, q + 1);
    if GotOk(sent, base, cells, x) {
      forall n | x.lo <= n <= x.hi ensures Spent(base, cells', n) {
        assert Spent(base, cells, n);
      }
    }
  }

  lemma {:induction false} SkippingKeeps(sent: int -> UnitData, m: Mailbox, c: Buf)
    requires Inv(sent, m) && BufOk(c) && c.acked <= m.buf.acked && c.cells == Drop(m.buf.cells, m.buf.acked - c.acked)
    ensures Inv(sent, Skipping(m, c))
  {
    hide GotOk, Apart, CellsOk, Drop;
    var d := m.buf.acked - c.acked;
    forall i | 0 <= i < |m.got| ensures GotOk(sent, m.base + d, c.cells, m.got[i]) {
      DropKeeps(sent, m.base, m.buf.cells, d, m.got[i]);
    }
    DropKeeps(sent, m.base, m.buf.cells, d, Msg(0, 0, 0, []));
  }

  lemma {:induction false} DeliverableFull(b: Buf, p: nat, q: nat)
    requires BufOk(b) && Deliverable(b.cells, b.acked, p, q)
    ensures b.acked <= |b.cells| && p <= q < |b.cells| && forall k :: p <= k < q + 1 ==> b.cells[k].Full?
  {
  }

  lemma {:induction false} DeliveringKeeps(sent: int -> UnitData, m: Mailbox, p: nat, q: nat, len: nat)
    requires Inv(sent, m) && Deliverable(m.buf.cells, m.buf.acked, p, q)
    ensures p <= q < |m.buf.cells| && forall k :: p <= k < q + 1 ==> m.buf.cells[k].Full?
    ensures Inv(sent, Delivering(m, p, q, len))
  {
    hide Stamped, Whole, Apart, CellsOk, Drop, Mark, Taken, BufOk, BytesOf, GotOk, Take;
    DeliverableFull(m.buf, p, q);
    var x := Msg(m.base + p, m.base + q, len, Take(BytesOf(m.buf.cells, p, q + 1), len));
    NewOk(sent, m, p, q, x);
    forall i | 0 <= i < |m.got|
      ensures var b := Taken(m.buf, p, q); GotOk(sent, m.base + (m.buf.acked - b.acked), b.cells, m.got[i]) {
      TakenKeeps(sent, m.base, m.buf, p, q, m.got[i]);
    }
    forall i | 0 <= i < |m.got| ensures Apart(sent, m.got[i], x) {
      NewApart(sent, m, p, q, x, m.got[i]);
    }
  }

  lemma {:induction false} NewOk(sent: int -> UnitData, m: Mailbox, p: nat, q: nat, x: Msg)
    requires Inv(sent, m) && Deliverable(m.buf.cells, m.buf.acked, p, q)
    requires x == Msg(m.base + p, m.base + q, x.len, Take(BytesOf(m.buf.cells, p, q + 1), x.len))
    ensures var b := Taken(m.buf, p, q); var base' := m.base + (m.buf.acked - b.acked);
            BufOk(b) && CellsOk(sent, base', b.cells) && GotOk(sent, base', b.cells, x)
  {
    assert m.buf.cells[q].unit == sent(m.base + q);
    BytesAreSent(sent, m.base, m.buf.cells, p, q + 1);
    WholeIsMessage(sent, m.base, m.buf.cells, p, q);
    TakenKeeps(sent, m.base, m.buf, p, q, x);
    var b := Taken(m.buf, p, q);
    assert x.lo == m.base + p && x.hi == m.base + q && x.data == Take(SentBytes(sent, x.lo, x.hi + 1), x.len);
    assert sent(x.hi).inOrder ==> x.hi < m.base + (m.buf.acked - b.acked);
    hide Stamped, Whole, Taken, CellsOk, Inv, AllSpent, IsMessage, BufOk, Take, SentBytes, BytesOf;
  }

  lemma {:induction false} NewApart(sent: int -> UnitData, m: Mailbox, p: nat, q: nat, x: Msg, y: Msg)
    requires CellsOk(sent, m.base, m.buf.cells) && Whole(m.buf.cells, p, q) && GotOk(sent, m.base, m.buf.cells, y)
    requires x.lo == m.base + p && x.hi == m.base + q
    ensures Apart(sent, y, x)
  {
    UnreadIsApart(sent, m.base, m.buf.cells, p, q, y);
  }

  lemma {:induction false} ScanKeeps(sent: int -> UnitData, m: Mailbox)
    requires Inv(sent, m)
    ensures var (c, f) := ScanMsg(m.buf);
            && Inv(sent, Skipping(m, c))
            && (f.Found? ==> 0 <= f.p <= f.q && Deliverable(c.cells, c.acked, f.p, f.q))
  {
    hide Stamped, CellsOk, GotOk, Apart, Drop, ScanMsg, Deliverable, Whole;
    ScanMsgExact(m.buf);
    SkippingKeeps(sent, m, ScanMsg(m.buf).0);
  }

  /** A call of readMsg is a skip followed, if a message was found, by its delivery. */
  lemma {:induction false} ReceiveIs(sent: int -> UnitData, m: Mailbox, len: nat)
    requires BufOk(m.buf)
    ensures var (c, f) := ScanMsg(m.buf);
            match f
            case Nothing(_) => Do(sent, m, Receive(len)) == Skipping(m, c)
            case Found(p, q) =>
              && 0 <= p <= q < |c.cells| && (forall k :: p <= k < q + 1 ==> c.cells[k].Full?)
              && Do(sent, m, Receive(len)) == Delivering(Skipping(m, c), p, q, len)
  {
    ScanMsgUse(m.buf);
    hide ScanMsg, Whole, Stamped, Take, BytesOf, Taken, Drop;
  }

  lemma {:induction false} ReceiveKeeps(sent: int -> UnitData, m: Mailbox, len: nat)
    requires Inv(sent, m)
    ensures Inv(sent, Do(sent, m, Receive(len)))
  {
    assert BufOk(m.buf);
    hide Inv, ScanMsg, BufOk, Deliverable, Do, Delivering;
    var (c, f) := ScanMsg(m.buf);
    ScanKeeps(sent, m);
    ReceiveIs(sent, m, len);
    if f.Found? {
      DeliveringKeeps(sent, Skipping(m, c), f.p, f.q, len);
    }
  }

  ghost predicate IsRun(sent: int -> UnitData, trace: seq<Mailbox>, steps: seq<Step>)
  {
    && |trace| == |steps| + 1
    && Init(trace[0])
    && forall i, j :: 0 <= i < |steps| && j == i + 1 ==>
         Enabled(trace[i], steps[i]) && trace[j] == Do(sent, trace[i], steps[i])
  }

  lemma {:induction false} RunInv(sent: int -> UnitData, trace: seq<Mailbox>, steps: seq<Step>, i: nat)
    requires StampedStream(sent) && IsRun(sent, trace, steps) && i < |trace|
    ensures Inv(sent, trace[i])
  {
    if i > 0 {
      RunInv(sent, trace, steps, i - 1);
      match steps[i - 1]
      case Arrive(n) => ArriveKeeps(sent, trace[i - 1], n);
      case Acknowledge(len) => AcknowledgeKeeps(sent, trace[i - 1], len);
      case Receive(len) => ReceiveKeeps(sent, trace[i - 1], len);
    }
  }

  /** In every run no step faults, every delivery is the bytes of one whole message of the sender (cut to the room
      given), no packet is delivered twice, and messages that want order come in their order. */
  lemma {:induction false} MessagesAreWholeAndOnce(sent: int -> UnitData, trace: seq<Mailbox>, steps: seq<Step>, t: nat)
    requires StampedStream(sent) && IsRun(sent, trace, steps) && t < |trace|
    ensures !trace[t].fault
    ensures var got := trace[t].got;
            && (forall i :: 0 <= i < |got| ==>
                  && IsMessage(sent, got[i].lo, got[i].hi)
                  && var whole := Flatten(seq(got[i].hi - got[i].lo + 1, k => sent(got[i].lo + k).payload));
                     got[i].data == whole[..Min(got[i].len, |whole|)])
            && (forall i, j :: 0 <= i < j < |got| ==>
                  && (got[i].hi < got[j].lo || got[j].hi < got[i].lo)
                  && (sent(got[i].hi).inOrder ==> got[i].hi < got[j].lo))
  {
    RunInv(sent, trace, steps, t);
    var got := trace[t].got;
    forall i, j | 0 <= i < j < |got| ensures Apart(sent, got[i], got[j]) {
    }
    forall i | 0 <= i < |got| ensures GotOk(sent, trace[t].base, trace[t].buf.cells, got[i]) {
    }
    forall i | 0 <= i < |got| {
      SentBytesIs(sent, got[i].lo, got[i].hi + 1);
    }
  }

  /** The bytes of a stretch of packets are their payloads joined. */
  lemma {:induction false} SentBytesIs(sent: int -> UnitData, lo: int, hi: int)
    requires lo <= hi
    ensures SentBytes(sent, lo, hi) == Flatten(seq(hi - lo, k => sent(lo + k).payload))
    decreases hi - lo
  {
    if lo < hi {
      SentBytesIs(sent, lo + 1, hi);
      var all := seq(hi - lo, k => sent(lo + k).payload);
      assert all[0] == sent(lo).payload && all[1..] == seq(hi - lo - 1, k => sent(lo + 1 + k).payload);
    }
  }

  // ---------- when a read delivers ----------

  lemma {:induction false} StepAt(sent: int -> UnitData, trace: seq<Mailbox>, steps: seq<Step>, i: nat)
    requires IsRun(sent, trace, steps) && i < |steps|
    ensures Enabled(trace[i], steps[i]) && trace[i + 1] == Do(sent, trace[i], steps[i])
  {
    hide Do, Enabled;
  }

  lemma {:induction false} RunFurthest(sent: int -> UnitData, trace: seq<Mailbox>, steps: seq<Step>, i: nat)
    requires StampedStream(sent) && IsRun(sent, trace, steps) && i < |trace|
    ensures Furthest(trace[i].buf)
  {
    if i > 0 {
      RunFurthest(sent, trace, steps, i - 1);
      RunInv(sent, trace, steps, i - 1);
      StepAt(sent, trace, steps, i - 1);
      hide IsRun, Inv, Do, Furthest;
      StepFurthest(sent, trace[i - 1], steps[i - 1]);
    }
  }

  lemma {:induction false} StepFurthest(sent: int -> UnitData, m: Mailbox, step: Step)
    requires Inv(sent, m) && Furthest(m.buf) && Enabled(m, step)
    ensures Furthest(Do(sent, m, step).buf)
  {
    if step.Receive? {
      ReceiveFurthest(sent, m, step.len);
    }
  }

  lemma {:induction false} ReceiveFurthest(sent: int -> UnitData, m: Mailbox, len: nat)
    requires BufOk(m.buf) && Furthest(m.buf)
    ensures Furthest(Do(sent, m, Receive(len)).buf)
  {
    hide ScanMsg, Do, Furthest, Drop, Taken, Deliverable, Whole, Stamped;
    var (c, f) := ScanMsg(m.buf);
    ScanMsgExact(m.buf);
    ReceiveIs(sent, m, len);
    SkipFurthest(m.buf, c);
    if f.Found? {
      ScanMsgUse(m.buf);
      TakeFurthest(c, f.p, f.q);
    }
  }

  lemma {:induction false} SkipFurthest(b: Buf, c: Buf)
    requires BufOk(b) && Furthest(b) && c.acked <= b.acked && c.maxPos == b.maxPos
    requires c.cells == Drop(b.cells, b.acked - c.acked)
    ensures Furthest(c)
  {
  }

  lemma {:induction false} TakeFurthest(c: Buf, p: nat, q: nat)
    requires BufOk(c) && Furthest(c) && p <= q < |c.cells|
    ensures Furthest(Taken(c, p, q))
  {
  }

  /** A read delivers a message exactly if there is one that may be delivered and, when nothing is acknowledged, it is
      not alone in the first slot. It never moves the acknowledgement point, and it frees an acknowledged message. */
  lemma {:induction false} ReceiveDelivers(sent: int -> UnitData, trace: seq<Mailbox>, steps: seq<Step>, t: nat,
                                           len: nat)
    requires StampedStream(sent) && IsRun(sent, trace, steps) && t < |trace|
    ensures var m, m' := trace[t], Do(sent, trace[t], Receive(len));
            var some := exists p, q :: Deliverable(m.buf.cells, m.buf.acked, p, q);
            && m'.base + m'.buf.acked == m.base + m.buf.acked
            && (if some && (m.buf.acked > 0 || Beyond(m.buf.cells)) then
                  && |m'.got| == |m.got| + 1 && m'.got[..|m.got|] == m.got && m'.got[|m.got|].len == len
                  && (m'.got[|m.got|].hi < m.base + m.buf.acked ==> m'.base == m'.got[|m.got|].hi + 1)
                else m'.got == m.got)
  {
    var m := trace[t];
    RunInv(sent, trace, steps, t);
    RunFurthest(sent, trace, steps, t);
    FoundExactly(m.buf);
    ScanMsgExact(m.buf);
    ReceiveIs(sent, m, len);
    hide Inv, IsRun, ScanMsg, BufOk, Deliverable, Furthest, Beyond, Whole, Do;
  }

  /** So a whole message past the acknowledgement point that wants no order is delivered, or an earlier one is, unless
      it is the only unit in the buffer. */
  lemma {:induction false} OutOfOrderServed(sent: int -> UnitData, trace: seq<Mailbox>, steps: seq<Step>, t: nat,
                                            p: int, q: int, len: nat)
    requires StampedStream(sent) && IsRun(sent, trace, steps) && t < |trace|
    requires Whole(trace[t].buf.cells, p, q) && !trace[t].buf.cells[q].unit.inOrder
    requires q > 0 || trace[t].buf.acked > 0 || Beyond(trace[t].buf.cells)
    ensures |Do(sent, trace[t], Receive(len)).got| == |trace[t].got| + 1
  {
    var b := trace[t].buf;
    assert Deliverable(b.cells, b.acked, p, q);
    assert q > 0 ==> b.cells[q].Full?;
    RunInv(sent, trace, steps, t);
    hide Do, Inv, IsRun;
    ReceiveDelivers(sent, trace, steps, t, len);
  }

  // ---------- nothing acknowledged is lost ----------

  /** Packet n is part of a delivery. */
  ghost predicate Handed(got: seq<Msg>, n: int)
  {
    exists i :: 0 <= i < |got| && got[i].lo <= n <= got[i].hi
  }

  /** Every packet from number `from` up to the acknowledgement point is delivered or unread in its slot; only
      delivered ones are marked as read. */
  ghost predicate NoneLost(from: int, m: Mailbox)
  {
    && from <= m.base && m.buf.acked <= |m.buf.cells|
    && (forall n :: from <= n < m.base ==> Handed(m.got, n))
    && (forall k :: 0 <= k < |m.buf.cells| && m.buf.cells[k].Full? && !Unread(m.buf.cells[k]) ==>
          Handed(m.got, m.base + k))
    && (forall k :: 0 <= k < m.buf.acked ==> m.buf.cells[k].Full?)
  }

  /** The acknowledgement point moves over filled slots only, as sendCtrl moves it. */
  ghost predicate Careful(m: Mailbox, step: Step)
  {
    step.Acknowledge? ==>
      forall k :: 0 <= k < m.buf.acked + step.len ==> k < |m.buf.cells| && m.buf.cells[k].Full?
  }

  lemma {:induction false} HandedMore(got: seq<Msg>, x: Msg, n: int)
    ensures Handed(got + [x], n) <==> Handed(got, n) || x.lo <= n <= x.hi
  {
    if Handed(got, n) {
      var i :| 0 <= i < |got| && got[i].lo <= n <= got[i].hi;
      assert (got + [x])[i] == got[i];
    }
    if x.lo <= n <= x.hi {
      assert (got + [x])[|got|] == x;
    }
  }

  /** A look-ahead that fails meets a unit that is not unread before the message ends. */
  lemma {:induction false} BrokenAt(cells: seq<Cell>, acked: nat, j: nat) returns (k: nat)
    requires j <= acked <= |cells| && !LooksWhole(cells, acked, j)
    ensures j <= k < acked && !Unread(cells[k]) && forall i :: j <= i < k ==> Unread(cells[i]) && !cells[i].unit.last
    decreases acked - j
  {
    if !Unread(cells[j]) {
      k := j;
    } else {
      k := BrokenAt(cells, acked, j + 1);
    }
  }

  /** A delivery that holds packet n reaches back over every packet before n that ends no message. */
  lemma {:induction false} ReachesBack(sent: int -> UnitData, x: Msg, n: int, low: int)
    requires StampedStream(sent) && IsMessage(sent, x.lo, x.hi) && low <= n && x.lo <= n <= x.hi
    requires forall i :: low <= i < n ==> !sent(i).last
    ensures x.lo <= low
  {
    var i, j := x.lo - 1, x.lo;
    assert sent(i).last <==> sent(j).first;
  }

  /** A packet that starts no message is part of the delivery its predecessor is part of. */
  lemma {:induction false} FollowsHanded(sent: int -> UnitData, m: Mailbox, n: int)
    requires StampedStream(sent) && Inv(sent, m) && Handed(m.got, n - 1) && !sent(n).first
    ensures Handed(m.got, n)
  {
    var i :| 0 <= i < |m.got| && m.got[i].lo <= n - 1 <= m.got[i].hi;
    assert GotOk(sent, m.base, m.buf.cells, m.got[i]);
    var before := n - 1;
    assert sent(before).last <==> sent(n).first;
    assert m.got[i].lo <= n <= m.got[i].hi;
  }

  /** What the first loop of scanMsg frees was delivered before. */
  lemma {:induction false} SkipsHanded(sent: int -> UnitData, from: int, m: Mailbox, j: nat)
    requires StampedStream(sent) && sent(from).first && Inv(sent, m) && NoneLost(from, m)
    requires j < Skip(m.buf.cells, m.buf.acked, 0)
    ensures Handed(m.got, m.base + j)
  {
    PassedOver(m.buf.cells, m.buf.acked, 0, j);
    if Unread(m.buf.cells[j]) && !m.buf.cells[j].unit.first {
      if j > 0 {
        SkipsHanded(sent, from, m, j - 1);
      }
      hide Skip, Inv;
      InnerHanded(sent, from, m, j);
    } else if Unread(m.buf.cells[j]) {
      hide Skip, Inv;
      BrokenHanded(sent, from, m, j);
    }
  }

  lemma {:induction false} InnerHanded(sent: int -> UnitData, from: int, m: Mailbox, j: nat)
    requires StampedStream(sent) && sent(from).first && Inv(sent, m) && NoneLost(from, m) && j < m.buf.acked
    requires Unread(m.buf.cells[j]) && !m.buf.cells[j].unit.first && (j > 0 ==> Handed(m.got, m.base + j - 1))
    ensures Handed(m.got, m.base + j)
  {
    assert m.buf.cells[j].unit == sent(m.base + j);
    hide Stamped, Apart, BufOk;
    assert j == 0 ==> from < m.base;
    FollowsHanded(sent, m, m.base + j);
  }

  lemma {:induction false} BrokenHanded(sent: int -> UnitData, from: int, m: Mailbox, j: nat)
    requires StampedStream(sent) && Inv(sent, m) && NoneLost(from, m) && j < m.buf.acked
    requires !LooksWhole(m.buf.cells, m.buf.acked, j)
    ensures Handed(m.got, m.base + j)
  {
    hide Stamped, Apart, BufOk, LooksWhole, Take, SentBytes, AllSpent;
    var cells, n := m.buf.cells, m.base + j;
    var k := BrokenAt(cells, m.buf.acked, j);
    assert Handed(m.got, m.base + k);
    var i :| 0 <= i < |m.got| && m.got[i].lo <= m.base + k <= m.got[i].hi;
    assert GotOk(sent, m.base, cells, m.got[i]);
    forall h | n <= h < m.base + k ensures !sent(h).last {
      assert cells[h - m.base].unit == sent(m.base + (h - m.base));
    }
    ReachesBack(sent, m.got[i], m.base + k, n);
  }

  /** A cell that is passed over starts no message that looks whole. */
  lemma {:induction false} PassedOver(cells: seq<Cell>, acked: nat, d: nat, j: nat)
    requires d <= acked <= |cells| && d <= j < Skip(cells, acked, d)
    ensures !(Unread(cells[j]) && cells[j].unit.first && LooksWhole(cells, acked, j))
    decreases acked - d
  {
    if d < j {
      PassedOver(cells, acked, d + 1, j);
    }
  }

  /** The window moves past d cells that are all delivered. */
  lemma {:induction false} MovingLosesNone(from: int, m: Mailbox, m': Mailbox, d: nat)
    requires NoneLost(from, m) && d <= m.buf.acked
    requires forall n :: m.base <= n < m.base + d ==> Handed(m.got, n)
    requires m'.base == m.base + d && m'.got == m.got && m'.buf.acked == m.buf.acked - d
    requires m'.buf.cells == Drop(m.buf.cells, d)
    ensures NoneLost(from, m')
  {
    var cells, cells', got := m.buf.cells, m'.buf.cells, m.got;
    forall n | from <= n < m'.base ensures Handed(got, n) {
    }
    forall k | 0 <= k < |cells'| && cells'[k].Full? && !Unread(cells'[k]) ensures Handed(got, m'.base + k) {
      DropAt(cells, d, k);
      hide Drop;
      assert Handed(got, m.base + (k + d));
    }
    forall k | 0 <= k < m'.buf.acked ensures cells'[k].Full? {
      DropAt(cells, d, k);
    }
  }

  lemma {:induction false} DropAt(cells: seq<Cell>, d: nat, k: nat)
    requires d <= |cells| && k < |cells|
    ensures Drop(cells, d)[k] == if k + d < |cells| then cells[k + d] else Empty
  {
  }

  lemma {:induction false} SkippingLosesNone(sent: int -> UnitData, from: int, m: Mailbox)
    requires StampedStream(sent) && sent(from).first && Inv(sent, m) && NoneLost(from, m)
    ensures NoneLost(from, Skipping(m, ScanMsg(m.buf).0))
  {
    if !LooksEmpty(m.buf) {
      var d := Skip(m.buf.cells, m.buf.acked, 0);
      forall n | m.base <= n < m.base + d ensures Handed(m.got, n) {
        SkipsHanded(sent, from, m, n - m.base);
      }
      MovingLosesNone(from, m, Skipping(m, Skipped(m.buf)), d);
      hide NoneLost, Inv;
    }
  }

  lemma {:induction false} DeliveringLosesNone(from: int, m: Mailbox, p: nat, q: nat, len: nat)
    requires BufOk(m.buf) && NoneLost(from, m) && p <= q < |m.buf.cells| && (q < m.buf.acked ==> p == 0)
    requires forall k :: p <= k < q + 1 ==> m.buf.cells[k].Full?
    ensures NoneLost(from, Delivering(m, p, q, len))
  {
    var m', c := Delivering(m, p, q, len), m.buf.cells;
    var x := m'.got[|m.got|];
    assert m'.got == m.got + [x] && x.lo == m.base + p && x.hi == m.base + q;
    forall n | from <= n < m'.base ensures Handed(m'.got, n) {
      HandedMore(m.got, x, n);
    }
    forall k | 0 <= k < |m'.buf.cells| && m'.buf.cells[k].Full? && !Unread(m'.buf.cells[k])
      ensures Handed(m'.got, m'.base + k) {
      var j := k + (m'.base - m.base);
      HandedMore(m.got, x, m.base + j);
      TakenAt(m.buf, p, q, k);
    }
    forall k | 0 <= k < m'.buf.acked ensures m'.buf.cells[k].Full? {
      TakenAt(m.buf, p, q, k);
    }
  }

  /** The cells after a delivery. */
  lemma {:induction false} TakenAt(c: Buf, p: nat, q: nat, k: nat)
    requires p <= q < |c.cells| && k < |c.cells| && c.acked <= |c.cells|
    ensures var j := k + (c.acked - Taken(c, p, q).acked);
            var cell := Taken(c, p, q).cells[k];
            && (cell.Full? <==> j < |c.cells| && c.cells[j].Full?)
            && (cell.Full? && !Unread(cell) ==> !Unread(c.cells[j]) || p <= j <= q)
  {
    if q < c.acked {
      DropAt(c.cells, q + 1, k);
    }
  }

  lemma {:induction false} StepLosesNone(sent: int -> UnitData, from: int, m: Mailbox, step: Step)
    requires StampedStream(sent) && sent(from).first && Inv(sent, m) && NoneLost(from, m)
    requires Enabled(m, step) && Careful(m, step)
    ensures NoneLost(from, Do(sent, m, step))
  {
    if step.Receive? {
      var (c, f) := ScanMsg(m.buf);
      SkippingLosesNone(sent, from, m);
      ScanMsgUse(m.buf);
      ScanKeeps(sent, m);
      ReceiveIs(sent, m, step.len);
      if f.Found? {
        DeliveringLosesNone(from, Skipping(m, c), f.p, f.q, step.len);
      }
    }
  }

  lemma {:induction false} RunLosesNone(sent: int -> UnitData, trace: seq<Mailbox>, steps: seq<Step>, t: nat)
    requires StampedStream(sent) && IsRun(sent, trace, steps) && t < |trace| && sent(trace[0].base).first
    requires forall i :: 0 <= i < |steps| ==> Careful(trace[i], steps[i])
    ensures NoneLost(trace[0].base, trace[t])
  {
    if t > 0 {
      RunLosesNone(sent, trace, steps, t - 1);
      RunInv(sent, trace, steps, t - 1);
      StepLosesNone(sent, trace[0].base, trace[t - 1], steps[t - 1]);
    }
  }

  /** Two messages with a packet in common are the same. */
  lemma {:induction false} SameMessage(sent: int -> UnitData, a: int, b: int, c: int, d: int, n: int)
    requires IsMessage(sent, a, b) && IsMessage(sent, c, d) && a <= n <= b && c <= n <= d
    ensures a == c && b == d
  {
    assert a < c ==> !sent(c).first;
    assert c < a ==> !sent(a).first;
    assert b < d ==> !sent(b).last;
    assert d < b ==> !sent(d).last;
  }

  ghost predicate Delivered(got: seq<Msg>, lo: int, hi: int)
  {
    exists i :: 0 <= i < |got| && got[i].lo == lo && got[i].hi == hi
  }

  /** No acknowledged message is lost: at every moment it is delivered, or whole and unread in the buffer. */
  lemma {:induction false} NothingIsLost(sent: int -> UnitData, trace: seq<Mailbox>, steps: seq<Step>, t: nat, lo: int,
                                         hi: int)
    requires StampedStream(sent) && IsRun(sent, trace, steps) && t < |trace| && sent(trace[0].base).first
    requires forall i :: 0 <= i < |steps| ==> Careful(trace[i], steps[i])
    requires IsMessage(sent, lo, hi) && trace[0].base <= lo && hi < trace[t].base + trace[t].buf.acked
    ensures Delivered(trace[t].got, lo, hi) || Whole(trace[t].buf.cells, lo - trace[t].base, hi - trace[t].base)
  {
    RunInv(sent, trace, steps, t);
    RunLosesNone(sent, trace, steps, t);
    KeptOrHanded(sent, trace[0].base, trace[t], lo, hi);
  }

  lemma {:induction false} KeptOrHanded(sent: int -> UnitData, from: int, m: Mailbox, lo: int, hi: int)
    requires Inv(sent, m) && NoneLost(from, m) && IsMessage(sent, lo, hi) && from <= lo && hi < m.base + m.buf.acked
    ensures Delivered(m.got, lo, hi) || Whole(m.buf.cells, lo - m.base, hi - m.base)
  {
    if n :| lo <= n <= hi && Handed(m.got, n) {
      var i :| 0 <= i < |m.got| && m.got[i].lo <= n <= m.got[i].hi;
      assert GotOk(sent, m.base, m.buf.cells, m.got[i]);
      SameMessage(sent, lo, hi, m.got[i].lo, m.got[i].hi, n);
    } else {
      assert !Handed(m.got, lo);
      forall k | lo - m.base <= k <= hi - m.base
        ensures Unread(m.buf.cells[k]) && m.buf.cells[k].unit == sent(m.base + k) {
        assert m.buf.cells[k].Full? && !Handed(m.got, m.base + k);
      }
    }
  }

  /** So long as some acknowledged message is not delivered, the application gets a message when it asks. */
  lemma {:induction false} AskingServes(sent: int -> UnitData, trace: seq<Mailbox>, steps: seq<Step>, t: nat, lo: int,
                                        hi: int, len: nat)
    requires StampedStream(sent) && IsRun(sent, trace, steps) && t < |trace| && sent(trace[0].base).first
    requires forall i :: 0 <= i < |steps| ==> Careful(trace[i], steps[i])
    requires IsMessage(sent, lo, hi) && trace[0].base <= lo && hi < trace[t].base + trace[t].buf.acked
    requires !Delivered(trace[t].got, lo, hi)
    ensures |Do(sent, trace[t], Receive(len)).got| == |trace[t].got| + 1
  {
    var m := trace[t];
    NothingIsLost(sent, trace, steps, t, lo, hi);
    RunInv(sent, trace, steps, t);
    assert BufOk(m.buf);
    hide Inv, IsRun, IsMessage, Delivered;
    FoundIfAcked(m.buf, lo - m.base, hi - m.base);
    hide ScanMsg, BufOk, Whole, Do, NoneLost, Careful;
    ReceiveIs(sent, m, len);
  }

  lemma {:induction false} FoundIfAcked(b: Buf, p: int, q: int)
    requires BufOk(b) && Whole(b.cells, p, q) && q < b.acked
    ensures ScanMsg(b).1.Found?
  {
    ScanMsgExact(b);
    assert Deliverable(b.cells, b.acked, p, q);
    hide ScanMsg, Whole, BufOk;
  }

  // ---------- the message that is missed ----------

  /** A message of one packet that may be read out of order, alone in the buffer and not yet acknowledged, may be
      delivered but is not: scanMsg takes the buffer for empty. */
  lemma {:induction false} MissedMessage(sent: int -> UnitData, m: Mailbox, len: nat)
    requires Init(m) && |m.buf.cells| >= 2
    requires sent(m.base).first && sent(m.base).last && !sent(m.base).inOrder
    ensures var trace := [m, Do(sent, m, Arrive(m.base)), Do(sent, Do(sent, m, Arrive(m.base)), Receive(len))];
            && IsRun(sent, trace, [Arrive(m.base), Receive(len)])
            && Deliverable(trace[1].buf.cells, trace[1].buf.acked, 0, 0)
            && trace[2].got == [] && trace[2].buf == trace[1].buf && !trace[2].fault
  {
    var m1 := Do(sent, m, Arrive(m.base));
    var cells := m1.buf.cells;
    assert cells == Empties(|cells|)[0 := Full(1, sent(m.base))];
    forall i | 0 <= i < |cells| - 1 ensures Joins(cells, i) {
    }
    assert BufOk(m1.buf);
    var m2 := Do(sent, m1, Receive(len));
    var trace, steps := [m, m1, m2], [Arrive(m.base), Receive(len)];
    forall i, j | 0 <= i < |steps| && j == i + 1
      ensures Enabled(trace[i], steps[i]) && trace[j] == Do(sent, trace[i], steps[i]) {
    }
  }
}
