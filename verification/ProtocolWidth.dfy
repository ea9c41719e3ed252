/** How far apart the sequence numbers of a run get: how old a packet may be for the wrapped comparisons, and how much
    of the number circle the two parties use at any moment. */
module ProtocolWidth {
  import opened Bytes
  import opened AckHistory
  import opened Numbers
  import opened SeqNo
  import opened Protocol
  import opened ProtocolRun
  import opened ProtocolSafety

  /** A range close enough to the sender's cursors for the wrapped comparisons. */
  ghost predicate Reportable(s: Sender, x: Range)
  {
    && Near(x.lo, x.hi) && Near(x.hi, s.currSeq) && Near(x.lo, s.currSeq)
    && Near(x.lo, s.lastAck) && Near(x.hi, s.lastAck)
  }

  /** The packet received, or the number picked before, is not so old that its wrapped number is misread. */
  ghost predicate Fresh(st: State, step: Step)
  {
    match step
    case SendRetransmission => st.pending.Some? ==> Near(st.pending.value, st.s.lastDataAck)
    case RecvLiteAck(ack) => Near(ack, st.s.lastAck)
    case RecvAck(_, ack, _, _) => Near(ack, st.s.currSeq + 1) && Near(ack, st.s.lastAck) && Near(ack, st.s.lastDataAck)
    case RecvNak(ranges) => forall x :: x in ranges ==> Reportable(st.s, x)
    case RecvData(n, _) => Near(n, st.r.lastAck)
    case _ => true
  }

  /** All numbers of a loss list lie closer together than it has slots. */
  ghost predicate LossFits(loss: set<int>, slots: int)
  {
    forall m, n {:trigger Distance(m, n)} :: m in loss && n in loss ==> Distance(m, n) < slots
  }

  function Distance(m: int, n: int): int
  {
    n - m
  }

  function RightEdge(s: Sender): int
  {
    s.flowWindow + s.lastAck
  }

  /** Neither what the sender has sent nor what the window admits goes more than `most` beyond the freed part. */
  ghost predicate Narrow(st: State, most: int)
  {
    && RightEdge(st.s) <= st.s.lastDataAck + most
    && st.s.currSeq + 1 <= st.s.lastDataAck + most
    && forall k, a, w :: Ack(k, a, w) in st.net ==> w <= most
  }

  /** What `most` must cover: the least window ever advertised, and the greatest. */
  predicate Covers(most: int, size: nat)
  {
    2 <= most && size - 1 <= most
  }

  /** The window a receiver with nothing unread advertises. */
  function FullWindow(size: nat): int
  {
    Max(2, size - 1)
  }

  /** The wider of the initial flow window and the widest one that is ever advertised. */
  function Widest(window: int, size: nat): int
  {
    Max(window, FullWindow(size))
  }

  lemma {:induction false} NarrowAck(st: State, most: int, k: int, ack: int, window: int, due: bool)
    requires Inv(st) && Narrow(st, most) && Enabled(st, RecvAck(k, ack, window, due))
    ensures Narrow(Do(st, RecvAck(k, ack, window, due)), most)
  {
    hide ReceiverOk, NotchOk, DeliveryOk, InputOk, Span, SeqCmp, Wrap, Low;
    assert PacketOk(st, Ack(k, ack, window));
    LowIs(st.isn, st.input, st.r);
    var (s, p) := ConfirmAck(st.s, k, due);
    AckKeepsSender(st.isn, st.input, s, ack, window);
  }

  lemma {:induction false} NarrowEmit(st: State, most: int, now: int, expired: bool)
    requires Inv(st) && Narrow(st, most) && Covers(most, st.r.size)
    ensures Narrow(Do(st, EmitAck(now, expired)), most)
  {
    LowIs(st.isn, st.input, st.r);
    var st' := Do(st, EmitAck(now, expired));
    forall k, a, w | Ack(k, a, w) in st'.net ensures w <= most {
      if Ack(k, a, w) !in st.net {
        assert SendAck(st.r, now, expired).1 == Some(Ack(k, a, w));
      }
    }
  }

  lemma {:induction false} NarrowStep(st: State, most: int, step: Step)
    requires Inv(st) && Narrow(st, most) && Covers(most, st.r.size) && Enabled(st, step)
    ensures Narrow(Do(st, step), most)
  {
    match step
    case RecvAck(k, ack, window, due) => NarrowAck(st, most, k, ack, window, due);
    case EmitAck(now, expired) => NarrowEmit(st, most, now, expired);
    case RecvLiteAck(ack) => NarrowLiteAck(st, most, ack);
    case RecvNak(ranges) => NarrowNak(st, most, ranges);
    case RecvData(n, p) => DoData(st, n, p);
    case _ =>
      hide Inv, OnNak, OnAck, OnData, SendAck, OnLiteAck, Span, Low, SeqCmp, Wrap, Chunks;
  }

  lemma {:induction false} NarrowLiteAck(st: State, most: int, ack: int)
    requires Inv(st) && Narrow(st, most) && Enabled(st, RecvLiteAck(ack))
    ensures Narrow(Do(st, RecvLiteAck(ack)), most)
  {
    hide ReceiverPart, InputOk, Span, Low;
  }

  lemma {:induction false} NarrowNak(st: State, most: int, ranges: seq<Range>)
    requires Inv(st) && Narrow(st, most) && Enabled(st, RecvNak(ranges))
    ensures Narrow(Do(st, RecvNak(ranges)), most)
  {
    hide OnNak, ReceiverPart, InputOk, Span, Low;
    assert PacketOk(st, Nak(ranges));
    NakIsHonest(st.s, ranges);
  }

  lemma {:induction false} SizeStays(st: State, step: Step)
    requires Enabled(st, step)
    ensures Do(st, step).r.size == st.r.size
  {
  }

  lemma {:induction false} RunNarrow(trace: seq<State>, steps: seq<Step>, most: int, i: nat)
    requires IsRun(trace, steps) && i < |trace|
    requires Covers(most, trace[0].r.size) && trace[0].s.flowWindow <= most
    ensures Narrow(trace[i], most) && trace[i].r.size == trace[0].r.size
  {
    if i > 0 {
      RunNarrow(trace, steps, most, i - 1);
      RunInv(trace, steps, i - 1);
      NarrowStep(trace[i - 1], most, steps[i - 1]);
      SizeStays(trace[i - 1], steps[i - 1]);
    }
  }

  /** The sender's losses lie among the numbers sent and not freed; the receiver's, in its buffer. */
  lemma {:induction false} LossWidths(st: State, most: int)
    requires Inv(st) && Narrow(st, most)
    ensures forall slots :: most <= slots ==> LossFits(st.s.loss, slots)
    ensures forall slots :: st.r.size - 2 <= slots ==> LossFits(st.r.loss, slots)
  {
  }

  // ---------- the distance to the last confirmed number ----------

  /** The most numbers a sender may have under way for the wrapped comparisons to be right. */
  const Most := SEQ_NO_TH - 2

  /** The greatest distance at which an ACK can still be taken for news. */
  const Furthest := SEQ_NO_TH + 2

  /** ACKs in flight are not further past the last confirmed number than that, and the records are in order. */
  ghost predicate Lag(st: State)
  {
    && st.s.lastDataAck <= st.r.lastAckAck + Furthest
    && (forall k, a, w :: Ack(k, a, w) in st.net ==> a <= st.r.lastAckAck + Furthest)
    && RecordsOk(st.r)
  }

  ghost predicate RecordsOk(r: Receiver)
  {
    && (forall i :: 0 <= i < |r.history| ==> r.lastAckAck <= r.history[i].ack <= r.lastAckAck + Furthest)
    && (forall i, j :: 0 <= i < j < |r.history| ==> r.history[i].ack <= r.history[j].ack)
  }

  /** So what is missing, or was acknowledged last, is less than a full circle past what was confirmed last. */
  lemma {:induction false} LagBounds(st: State)
    requires Inv(st) && Narrow(st, Most) && Lag(st)
    ensures st.r.lastAckAck <= st.r.lastAck <= Low(st.r) <= st.s.currSeq + 1 <= st.r.lastAckAck + MODULUS - 2
  {
    LowIs(st.isn, st.input, st.r);
  }

  lemma {:induction false} LagAck2(st: State, k: int, now: int)
    requires Inv(st) && Lag(st) && Enabled(st, RecvAck2(k, now))
    ensures Lag(Do(st, RecvAck2(k, now)))
    ensures Do(st, RecvAck2(k, now)).r.lastAckAck >= st.r.lastAckAck
  {
    var i, h := Find(st.r.history, k), st.r.history;
    if i < |h| {
      CmpAhead(st.r.lastAckAck, h[i].ack - st.r.lastAckAck);
    }
    hide SeqCmp, Wrap, Inv, PacketOk, Narrow;
  }

  lemma {:induction false} LagAck(st: State, k: int, ack: int, window: int, due: bool)
    requires Inv(st) && Lag(st) && Enabled(st, RecvAck(k, ack, window, due))
    ensures Lag(Do(st, RecvAck(k, ack, window, due)))
  {
    hide Inv, RecordsOk, PacketOk;
  }

  /** A stored record is the last one; those before it were there before. */
  lemma {:induction false} StoreRecord(r: Receiver, x: AckRecord)
    requires RecordsOk(r) && r.historySize >= 2
    requires r.lastAckAck <= x.ack <= r.lastAckAck + Furthest
    requires forall i :: 0 <= i < |r.history| ==> r.history[i].ack <= x.ack
    ensures RecordsOk(r.(history := Store(r.history, r.historySize, x)))
  {
    var t := Store(r.history, r.historySize, x);
    var d := |r.history| + 1 - |t|;
    assert d == 0 || d == 1;
    forall i | 0 <= i < |t| ensures t[i] == if i == |t| - 1 then x else r.history[i + d] {
    }
  }

  /** A full ACK leaves only if it is near enough, and its record is in order. */
  lemma {:induction false} RecordsSent(r: Receiver, now: int, expired: bool)
    requires r.historySize >= 2 && RecordsOk(r) && forall n :: r.lastAck <= n < Low(r) ==> n in r.ahead
    requires r.lastAckAck <= r.lastAck <= Low(r) < r.lastAckAck + MODULUS
    requires forall i :: 0 <= i < |r.history| ==> r.history[i].ack <= r.lastAck
    ensures var (t, p) := SendAck(r, now, expired);
            && RecordsOk(t) && t.lastAckAck == r.lastAckAck
            && (p.Some? ==> p.value.Ack? && p.value.ack <= r.lastAckAck + Furthest)
  {
    hide RecordsOk, Low, Stored, Store, AheadFrom, SeqCmp, Wrap;
    var (t, p) := SendAck(r, now, expired);
    RecordsApart(r, r.(unread := t.unread, ahead := t.ahead, lastAck := t.lastAck));
    if p.Some? {
      CmpAhead(r.lastAckAck, Low(r) - r.lastAckAck);
      var x := AckRecord(r.ackSeqNo + 1, Low(r), now);
      StoreRecord(r, x);
      assert t.history == Store(r.history, r.historySize, x);
      RecordsApart(r.(history := t.history), t);
    }
  }

  lemma {:induction false} RecordsApart(r: Receiver, t: Receiver)
    requires RecordsOk(r) && t.history == r.history && t.lastAckAck == r.lastAckAck
    ensures RecordsOk(t)
  {
  }

  lemma {:induction false} LagEmit(st: State, now: int, expired: bool)
    requires Inv(st) && Narrow(st, Most) && Lag(st)
    ensures Lag(Do(st, EmitAck(now, expired)))
  {
    LowIs(st.isn, st.input, st.r);
    LagBounds(st);
    forall i | 0 <= i < |st.r.history| ensures st.r.history[i].ack <= st.r.lastAck {
      assert st.r.history[i] in st.r.history;
    }
    hide Inv, Low, PacketOk, Narrow, SendAck;
    RecordsSent(st.r, now, expired);
    LagSent(st, Do(st, EmitAck(now, expired)), SendAck(st.r, now, expired).1);
  }

  /** The net gains at most one ACK, near enough. */
  lemma {:induction false} LagSent(st: State, st': State, p: Option<Packet>)
    requires Lag(st) && st'.s == st.s && st'.net == Put(st.net, p) && st'.r.lastAckAck == st.r.lastAckAck
    requires p.Some? && p.value.Ack? ==> p.value.ack <= st.r.lastAckAck + Furthest
    requires RecordsOk(st'.r)
    ensures Lag(st')
  {
  }

  lemma {:induction false} SenderFacts(st: State)
    requires Inv(st)
    ensures var s := st.s;
            s.lastDataAck <= s.lastAck && !s.broken && forall n :: n in s.loss ==> s.lastDataAck <= n <= s.currSeq
  {
  }

  /** The other steps bring no ACK, free nothing and leave the records alone. */
  lemma {:induction false} LagOther(st: State, step: Step)
    requires Inv(st) && Enabled(st, step) && !step.RecvAck? && !step.EmitAck? && !step.RecvAck2?
    ensures var st' := Do(st, step);
            && st'.s.lastDataAck == st.s.lastDataAck
            && st'.r.lastAckAck == st.r.lastAckAck && st'.r.history == st.r.history
            && forall p :: p in st'.net && p !in st.net ==> !p.Ack?
  {
    hide Span, SeqCmp, Wrap, Low, Chunks, OnNak, SendAck, OnAck, ReceiverPart, InputOk, SenderOk;
    if step.RecvNak? {
      SenderFacts(st);
      assert PacketOk(st, Nak(step.ranges));
      NakIsHonest(st.s, step.ranges);
    }
  }

  lemma {:induction false} LagStep(st: State, step: Step)
    requires Inv(st) && Narrow(st, Most) && Lag(st) && Enabled(st, step)
    ensures Lag(Do(st, step))
  {
    match step
    case RecvAck(k, ack, window, due) => LagAck(st, k, ack, window, due);
    case EmitAck(now, expired) => LagEmit(st, now, expired);
    case RecvAck2(k, now) => LagAck2(st, k, now);
    case _ =>
      hide Do, Inv, Narrow, Enabled;
      LagOther(st, step);
  }
}
