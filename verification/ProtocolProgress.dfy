/** The protocol does not get stuck while the receiver's last confirmed ACK is not too old: even if everything in flight
    is lost, some continuation delivers every byte that was given to send. */
module ProtocolProgress {
  import opened Bytes
  import opened AckHistory
  import opened Numbers
  import opened SeqNo
  import opened Protocol
  import opened ProtocolRun
  import opened ProtocolSafety
  import opened ProtocolWidth

  // ---------- the flow window cannot stay shut ----------

  ghost predicate Open(s: Sender)
  {
    RightEdge(s) >= s.lastAck + 1
  }

  /** If the receiver knows that its last ACK arrived, and so will not repeat it, the sender may send. */
  ghost predicate WindowOk(st: State)
  {
    && (st.r.lastAckAck == st.s.lastAck ==> Open(st.s))
    && (forall k :: Ack2(k) in st.net && k in st.ackOf && st.ackOf[k] == st.s.lastAck ==> Open(st.s))
  }

  ghost predicate Good(st: State)
  {
    Inv(st) && WindowOk(st) && st.r.size >= 2 && Covers(Most, st.r.size) && Narrow(st, Most) && Lag(st)
  }

  lemma {:induction false} InitGood(st: State)
    requires Init(st) && 1 <= st.s.flowWindow <= Most && 2 <= st.r.size <= Most + 1
    ensures Good(st)
  {
    hide Inv;
    InitInv(st);
  }

  /** A step that neither moves the sender's left edge nor its right edge, and confirms nothing. */
  lemma {:induction false} WindowStays(st: State, st': State)
    requires Inv(st) && WindowOk(st)
    requires st'.s.lastAck == st.s.lastAck && RightEdge(st'.s) == RightEdge(st.s)
    requires st'.r.lastAckAck == st.r.lastAckAck
    requires forall k :: Ack2(k) in st'.net ==> Ack2(k) in st.net
    requires forall k :: k in st.ackOf ==> k in st'.ackOf && st'.ackOf[k] == st.ackOf[k]
    ensures WindowOk(st')
  {
    forall k | Ack2(k) in st'.net && k in st'.ackOf && st'.ackOf[k] == st'.s.lastAck ensures Open(st'.s) {
      assert PacketOk(st, Ack2(k));
    }
  }

  lemma {:induction false} LiteAckWindow(st: State, ack: int)
    requires Inv(st) && WindowOk(st) && Enabled(st, RecvLiteAck(ack))
    ensures WindowOk(Do(st, RecvLiteAck(ack)))
  {
    var st' := Do(st, RecvLiteAck(ack));
    if ack > st.s.lastAck {
      forall k | Ack2(k) in st'.net && k in st'.ackOf ensures st'.ackOf[k] != st'.s.lastAck {
        assert PacketOk(st, Ack2(k));
      }
    }
  }

  lemma {:induction false} AckWindow(st: State, k: int, ack: int, window: int, due: bool)
    requires Inv(st) && WindowOk(st) && Enabled(st, RecvAck(k, ack, window, due))
    ensures WindowOk(Do(st, RecvAck(k, ack, window, due)))
  {
    assert PacketOk(st, Ack(k, ack, window));
    LowIs(st.isn, st.input, st.r);
    var st' := Do(st, RecvAck(k, ack, window, due));
    if ack >= st.s.lastAck {
      assert Open(st'.s);
    } else {
      forall j | Ack2(j) in st'.net && j in st'.ackOf && st'.ackOf[j] == st'.s.lastAck ensures Open(st'.s) {
        assert j == k || Ack2(j) in st.net;
      }
    }
  }

  lemma {:induction false} Ack2Window(st: State, k: int, now: int)
    requires Inv(st) && WindowOk(st) && Enabled(st, RecvAck2(k, now))
    ensures WindowOk(Do(st, RecvAck2(k, now)))
  {
    assert PacketOk(st, Ack2(k));
    var st', i := Do(st, RecvAck2(k, now)), Find(st.r.history, k);
    if i < |st.r.history| {
      assert st.r.history[i] in st.r.history;
    }
  }

  lemma {:induction false} EmitAckWindow(st: State, now: int, expired: bool)
    requires Inv(st) && WindowOk(st)
    ensures WindowOk(Do(st, EmitAck(now, expired)))
  {
    LowIs(st.isn, st.input, st.r);
    SendAckBooks(st, now, expired);
    SendAckHistory(st, now, expired, Do(st, EmitAck(now, expired)));
    WindowStays(st, Do(st, EmitAck(now, expired)));
  }

  lemma {:induction false} WindowKeeps(st: State, step: Step)
    requires Inv(st) && WindowOk(st) && Enabled(st, step)
    ensures WindowOk(Do(st, step))
  {
    match step
    case RecvLiteAck(ack) => LiteAckWindow(st, ack);
    case RecvAck(k, ack, window, due) => AckWindow(st, k, ack, window, due);
    case RecvAck2(k, now) => Ack2Window(st, k, now);
    case EmitAck(now, expired) => EmitAckWindow(st, now, expired);
    case RecvNak(ranges) =>
      assert PacketOk(st, Nak(ranges));
      NakIsHonest(st.s, ranges);
      WindowStays(st, Do(st, step));
    case _ => WindowStays(st, Do(st, step));
  }

  lemma {:induction false} GoodStep(st: State, step: Step)
    requires Good(st) && Enabled(st, step)
    ensures Good(Do(st, step))
  {
    StepKeeps(st, step);
    WindowKeeps(st, step);
    NarrowStep(st, Most, step);
    LagStep(st, step);
    SizeStays(st, step);
  }

  // ---------- continuations ----------

  /** Steps that can be taken one after the other, none of them on anything too old. */
  ghost predicate Runs(st: State, steps: seq<Step>)
    decreases |steps|
  {
    steps != [] ==> Enabled(st, steps[0]) && Fresh(st, steps[0]) && Runs(Do(st, steps[0]), steps[1..])
  }

  ghost function After(st: State, steps: seq<Step>): State
    requires Runs(st, steps)
    decreases |steps|
  {
    if steps == [] then st else After(Do(st, steps[0]), steps[1..])
  }

  lemma {:induction false} RunsOn(st: State, steps: seq<Step>, step: Step)
    requires Runs(st, steps) && Enabled(After(st, steps), step) && Fresh(After(st, steps), step)
    ensures Runs(st, steps + [step]) && After(st, steps + [step]) == Do(After(st, steps), step)
    decreases |steps|
  {
    var all := steps + [step];
    if steps == [] {
      assert all == [step] && all[1..] == [];
    } else {
      RunsOn(Do(st, steps[0]), steps[1..], step);
      assert all[0] == steps[0] && all[1..] == steps[1..] + [step];
    }
  }

  /** Some steps lead from a to b, none of them giving the sender more data. */
  ghost predicate Leads(a: State, b: State)
  {
    && Good(b) && b.isn == a.isn && b.input == a.input && b.app == a.app
    && exists steps :: Runs(a, steps) && After(a, steps) == b
  }

  lemma {:induction false} LeadsSelf(a: State)
    requires Good(a)
    ensures Leads(a, a)
  {
    assert Runs(a, []) && After(a, []) == a;
  }

  lemma {:induction false} SameInput(st: State, step: Step)
    requires Enabled(st, step) && !step.Send?
    ensures var st' := Do(st, step); st'.isn == st.isn && st'.input == st.input && st'.app == st.app
  {
  }

  lemma {:induction false} LeadsStep(a: State, b: State, step: Step)
    requires Leads(a, b) && Enabled(b, step) && Fresh(b, step) && !step.Send?
    ensures Leads(a, Do(b, step))
  {
    hide Do, Good, Fresh, Enabled;
    var steps :| Runs(a, steps) && After(a, steps) == b;
    RunsOn(a, steps, step);
    GoodStep(b, step);
    SameInput(b, step);
    assert Runs(a, steps + [step]);
  }

  // ---------- the stages ----------

  /** The block of a lost number is still there, and it is the right one. */
  lemma {:induction false} Again(isn: int, input: seq<Payload>, s: Sender, n: int)
    requires SenderOk(isn, input, s) && n in s.loss
    ensures isn <= n < isn + |input| && n - s.lastDataAck < |s.blocks|
    ensures ReadLost(s, n) == Some(Data(n, input[n - isn]))
    ensures ReadLost(PickLost(s, n), n) == Some(Data(n, input[n - isn]))
  {
  }

  /** Every number of the set has been sent (again), with its block. */
  ghost predicate InFlight(isn: int, input: seq<Payload>, numbers: set<int>, net: set<Packet>)
  {
    forall n :: n in numbers ==> isn <= n < isn + |input| && Data(n, input[n - isn]) in net
  }

  lemma {:induction false} OneMore(isn: int, input: seq<Payload>, numbers: set<int>, n: int, net: set<Packet>)
    requires InFlight(isn, input, numbers - {n}, net)
    requires isn <= n < isn + |input| && Data(n, input[n - isn]) in net
    ensures InFlight(isn, input, numbers, net)
  {
    forall m | m in numbers ensures isn <= m < isn + |input| && Data(m, input[m - isn]) in net {
      if m != n { assert m in numbers - {n}; }
    }
  }

  lemma {:induction false} NoneInFlight(isn: int, input: seq<Payload>, net: set<Packet>)
    ensures InFlight(isn, input, {}, net)
  {
  }

  /** The number picked before is not too old. */
  ghost predicate PickedLately(st: State)
  {
    Fresh(st, SendRetransmission)
  }

  /** The sender sends again everything in its loss list, and the number already picked. */
  lemma {:induction false} Drain(a: State, st: State) returns (b: State)
    requires Leads(a, st) && PickedLately(st)
    ensures Leads(a, b) && b == st.(s := st.s.(loss := {}), pending := None, net := b.net) && st.net <= b.net
    ensures InFlight(st.isn, st.input, st.s.loss, b.net)
    decreases st.s.loss, st.pending.Some?
  {
    hide Runs, After, InFlight, ReceiverPart, WindowOk;
    if st.pending.Some? {
      LeadsStep(a, st, SendRetransmission);
      var sent := Do(st, SendRetransmission);
      assert sent == st.(pending := None, net := sent.net) && st.net <= sent.net;
      hide Do, Leads;
      b := Drain(a, sent);
    } else if st.s.loss == {} {
      b := st;
      NoneInFlight(st.isn, st.input, b.net);
    } else {
      var n := MinOf(st.s.loss);
      Again(st.isn, st.input, st.s, n);
      LeadsStep(a, st, PickRetransmission);
      var picked := Do(st, PickRetransmission);
      LeadsStep(a, picked, SendRetransmission);
      var sent := Do(picked, SendRetransmission);
      assert sent == st.(s := st.s.(loss := st.s.loss - {n}), net := st.net + {Data(n, st.input[n - st.isn])});
      hide Do, Leads, Runs, InFlight, Good;
      b := Drain(a, sent);
      OneMore(st.isn, st.input, st.s.loss, n, b.net);
    }
  }

  /** Reading with enough room empties the readable part of the buffer. */
  lemma {:induction false} ReadAll(units: seq<Payload>, notch: nat, len: nat)
    requires if units == [] then notch == 0 else notch < |units[0]|
    requires forall i :: 0 <= i < |units| ==> |units[i]| > 0
    requires len >= |Readable(units, notch)|
    ensures ReadUnits(units, notch, len).1 == []
  {
    ReadIsPrefix(units, notch, len);
    ReadLeaves(units, notch, len);
    var (data, left, k) := ReadUnits(units, notch, len);
    HeadFits(left);
  }

  lemma {:induction false} HeadFits(units: seq<Payload>)
    ensures units != [] ==> |Flatten(units)| >= |units[0]|
  {
  }

  /** The receiver takes this ACK number for news. */
  predicate Newer(r: Receiver, n: int)
  {
    SeqCmp(Wrap(n), Wrap(r.lastAckAck)) > 0
  }

  /** Acknowledging drops no payload past the number acknowledged. */
  lemma {:induction false} AckStores(r: Receiver, now: int, expired: bool)
    requires r.historySize >= 2 && forall n :: r.lastAck <= n < Low(r) ==> n in r.ahead
    ensures forall n :: n >= Low(r) ==> (n in SendAck(r, now, expired).0.ahead <==> n in r.ahead)
  {
    hide Store, Stored, SeqCmp, Wrap, Low;
  }

  /** The acknowledgement point moves up to the least missing number. */
  lemma {:induction false} AckAdvances(r: Receiver)
    requires r.historySize >= 2 && forall n :: r.lastAck <= n < Low(r) ==> n in r.ahead
    requires r.lastAckAck <= r.lastAck <= Low(r) < r.lastAckAck + MODULUS
    ensures SendAck(r, 0, true).0.lastAck == Low(r)
  {
    hide Low, Stored, AheadFrom, Store, SeqCmp, Wrap;
    WrapInjective(Low(r), r.lastAckAck);
  }

  /** The receiver acknowledges all it can. */
  lemma {:induction false} Acknowledge(a: State, st: State) returns (b: State)
    requires Leads(a, st)
    ensures Leads(a, b) && b.s == st.s && b.pending == st.pending && st.net <= b.net
    ensures b.r.lastAck == Low(b.r) == Low(st.r) && b.r.currSeq == st.r.currSeq && b.r.lastAckAck == st.r.lastAckAck
    ensures forall n :: n >= Low(st.r) ==> (n in b.r.ahead <==> n in st.r.ahead)
    ensures Newer(st.r, Low(st.r)) ==> exists k, w :: Ack(k, Low(st.r), w) in b.net && Known(b.r, k)
  {
    hide Do, Low, AheadFrom, Stored, Store, SeqCmp, Wrap, SendAck, Advance, Known;
    hide SenderOk, ReceiverPart, InputOk, WindowOk, Narrow, Lag, Covers;
    LagBounds(st);
    DoEmit(st, 0, true);
    SendAckBooks(st, 0, true);
    LeadsStep(a, st, EmitAck(0, true));
    b := Do(st, EmitAck(0, true));
    AckStores(st.r, 0, true);
    AckAdvances(st.r);
    AckLeaves(st);
  }

  /** The receiver still has a record of this ACK. */
  ghost predicate Known(r: Receiver, k: int)
  {
    Find(r.history, k) < |r.history|
  }

  /** A number near the last confirmed one is recognised as the same or as news. */
  lemma {:induction false} NewsAt(n: int, confirmed: int)
    requires 0 <= n - confirmed < SEQ_NO_TH
    ensures Wrap(n) == Wrap(confirmed) <==> n == confirmed
    ensures SeqCmp(Wrap(n), Wrap(confirmed)) > 0 <==> n > confirmed
  {
    WrapInjective(n, confirmed);
    CmpAhead(confirmed, n - confirmed);
  }

  /** A record just stored is found. */
  lemma {:induction false} StoredIsKnown(w: seq<AckRecord>, size: nat, x: AckRecord)
    requires size >= 2
    ensures Find(Store(w, size, x), x.ackNo) < |Store(w, size, x)|
  {
    var t := Store(w, size, x);
    assert t[|t| - 1] == x;
  }

  /** An ACK whose number is news to the receiver leaves once it is due, and is remembered. */
  lemma {:induction false} AckLeaves(st: State)
    requires Inv(st)
    ensures SeqCmp(Wrap(Low(st.r)), Wrap(st.r.lastAckAck)) > 0 ==>
              exists k, w ::
                Ack(k, Low(st.r), w) in Do(st, EmitAck(0, true)).net && Known(Do(st, EmitAck(0, true)).r, k)
  {
    if SeqCmp(Wrap(Low(st.r)), Wrap(st.r.lastAckAck)) > 0 {
      LowIs(st.isn, st.input, st.r);
      var t := if Low(st.r) > st.r.lastAck then Advance(st.r, Low(st.r)) else st.r;
      StoredIsKnown(t.history, t.historySize, AckRecord(t.ackSeqNo + 1, t.lastAck, 0));
      assert Wrap(Low(st.r)) != Wrap(st.r.lastAckAck);
      hide Inv, AheadFrom, Stored, Store, Find, SeqCmp, Wrap;
      var (r, p) := SendAck(st.r, 0, true);
      assert p.Some? && Ack(p.value.ackNo, Low(st.r), p.value.window) in Do(st, EmitAck(0, true)).net;
      assert Known(r, p.value.ackNo) && Do(st, EmitAck(0, true)).r == r;
    }
  }

  /** The application reads all it can. */
  lemma {:induction false} ReadOut(a: State, st: State) returns (b: State)
    requires Leads(a, st)
    ensures Leads(a, b) && b == st.(r := b.r, delivered := b.delivered)
    ensures b.r == st.r.(unread := [], notch := b.r.notch)
    ensures 0 <= st.r.lastAck - st.isn <= |st.input| && b.delivered == Flatten(st.input[..st.r.lastAck - st.isn])
  {
    var units := st.r.unread;
    forall i | 0 <= i < |units| ensures |units[i]| > 0 {
      assert units[i] in st.input;
    }
    hide Flatten, ReadUnits;
    var len := |Readable(units, st.r.notch)|;
    ReadAll(units, st.r.notch, len);
    LeadsStep(a, st, Read(len));
    b := Do(st, Read(len));
    assert DeliveryOk(b.isn, b.input, b.r, b.delivered);
    ReadableNone();
    assert b.delivered + [] == b.delivered;
  }

  /** The receiver acknowledges and hands over all it can. */
  lemma {:induction false} Settle(a: State, st: State) returns (b: State)
    requires Leads(a, st)
    ensures Leads(a, b) && b.s == st.s && b.pending == st.pending && st.net <= b.net
    ensures b.r.lastAck == Low(b.r) == Low(st.r) && b.r.currSeq == st.r.currSeq && b.r.unread == []
    ensures b.r.lastAckAck == st.r.lastAckAck
    ensures forall n :: n >= Low(st.r) ==> (n in b.r.ahead <==> n in st.r.ahead)
    ensures 0 <= Low(st.r) - st.isn <= |st.input| && b.delivered == Flatten(st.input[..Low(st.r) - st.isn])
    ensures Newer(st.r, Low(st.r)) ==> exists k, w :: Ack(k, Low(st.r), w) in b.net && Known(b.r, k)
  {
    var acked := Acknowledge(a, st);
    b := ReadOut(a, acked);
    assert b.isn == a.isn == st.isn && b.input == a.input == st.input;
  }

  /** What sending the data up to some number changes: nothing that was acknowledged or confirmed. */
  ghost predicate OnlySends(st: State, b: State)
  {
    && b.isn == st.isn && b.input == st.input && PickedLately(b) && b.r.lastAckAck == st.r.lastAckAck
    && b.s.lastAck == st.s.lastAck && b.s.flowWindow == st.s.flowWindow && st.s.currSeq <= b.s.currSeq
  }

  /** The lowest missing number that was sent arrives; the others stay missing. */
  lemma {:induction false} FillOne(a: State, st: State) returns (b: State)
    requires Leads(a, st) && PickedLately(st) && Low(st.r) <= st.s.currSeq
    ensures Leads(a, b) && OnlySends(st, b) && b.s.currSeq == st.s.currSeq && Low(b.r) > Low(st.r) == b.r.lastAck
    ensures forall m :: m > Low(st.r) ==> (m in b.r.ahead <==> m in st.r.ahead)
  {
    var n := Low(st.r);
    var ready := Settle(a, st);
    Limits(a, ready);
    hide Leads, Do, Low, InFlight, Fresh;
    var expired := Expire(a, ready, n);
    var sent := Drain(a, expired);
    Picked(expired, n, sent.net);
    Limits(a, sent);
    b := Arrive(a, sent, n);
  }

  lemma {:induction false} Limits(a: State, st: State)
    requires Leads(a, st)
    ensures st.isn == a.isn && st.input == a.input
    ensures st.isn <= st.s.lastAck <= Low(st.r) <= st.s.currSeq + 1 <= st.isn + |st.input|
  {
    LowIs(st.isn, st.input, st.r);
  }

  lemma {:induction false} Picked(st: State, n: int, net: set<Packet>)
    requires InFlight(st.isn, st.input, st.s.loss, net) && n in st.s.loss
    ensures st.isn <= n < st.isn + |st.input| && Data(n, st.input[n - st.isn]) in net
  {
  }

  /** A timeout puts every unacknowledged number into the loss list. */
  lemma {:induction false} Expire(a: State, st: State, n: int) returns (b: State)
    requires Leads(a, st) && st.s.lastAck <= n <= st.s.currSeq
    ensures Leads(a, b) && b == st.(s := st.s.(loss := b.s.loss)) && n in b.s.loss
  {
    LeadsStep(a, st, Timeout);
    b := Do(st, Timeout);
  }

  lemma {:induction false} NextStored(r: Receiver, n: int, p: Payload)
    requires n == r.lastAck && n !in r.ahead && Available(r) > 0
    ensures var t := OnData(r, n, p).0;
            && t.ahead == r.ahead[n := p] && t.lastAck == r.lastAck && t.lastAckAck == r.lastAckAck
  {
  }

  lemma {:induction false} Missing(isn: int, input: seq<Payload>, r: Receiver)
    requires ReceiverOk(isn, input, r)
    ensures Low(r) !in r.ahead
  {
  }

  /** A packet that is next for the receiver arrives. */
  lemma {:induction false} Arrive(a: State, st: State, n: int) returns (b: State)
    requires Leads(a, st) && n == Low(st.r) == st.r.lastAck && st.r.unread == []
    requires st.isn <= n < st.isn + |st.input| && Data(n, st.input[n - st.isn]) in st.net
    ensures Leads(a, b) && b.s == st.s && b.pending == st.pending && b.r.lastAckAck == st.r.lastAckAck
    ensures Low(b.r) > n == b.r.lastAck && forall m :: m != n ==> (m in b.r.ahead <==> m in st.r.ahead)
  {
    hide Do, Low, OnData, InFlight, WindowOk, Narrow, Lag, Covers;
    var p := st.input[n - st.isn];
    LowIs(st.isn, st.input, st.r);
    LeadsStep(a, st, RecvData(n, p));
    b := Do(st, RecvData(n, p));
    DoData(st, n, p);
    NextStored(st.r, n, p);
    DataMovesForward(st.isn, st.input, st.r, n, p);
    LowIs(b.isn, b.input, b.r);
    Missing(b.isn, b.input, b.r);
  }

  /** Missing numbers arrive until the least one is n. */
  lemma {:induction false} FillTo(a: State, st: State, n: int) returns (b: State)
    requires Leads(a, st) && PickedLately(st) && Low(st.r) <= n <= st.s.currSeq + 1 && n !in st.r.ahead
    ensures Leads(a, b) && OnlySends(st, b) && b.s.currSeq == st.s.currSeq && Low(b.r) == n
    decreases n - Low(st.r)
  {
    if Low(st.r) == n {
      b := st;
    } else {
      var next := FillOne(a, st);
      LowIs(next.isn, next.input, next.r);
      hide Leads, Low, PickedLately;
      b := FillTo(a, next, n);
    }
  }

  /** How far the sender may go without a further ACK, or has gone. */
  function Reach(s: Sender): int
  {
    Max(RightEdge(s), s.currSeq + 1)
  }

  /** Numbers are sent and arrive, without a further ACK, until the least missing one is n. */
  lemma {:induction false} SendTo(a: State, st: State, n: int) returns (b: State)
    requires Leads(a, st) && PickedLately(st) && Low(st.r) <= n <= Reach(st.s) && n !in st.r.ahead
    requires n <= st.isn + |st.input|
    ensures Leads(a, b) && OnlySends(st, b) && Low(b.r) == n && b.s.currSeq == Max(st.s.currSeq, n - 1)
    decreases n - st.s.currSeq
  {
    if n <= st.s.currSeq + 1 {
      b := FillTo(a, st, n);
    } else {
      NoneAbove(st);
      var filled := FillTo(a, st, st.s.currSeq + 1);
      var idle := Drain(a, filled);
      var next := SendNext(a, idle);
      NoneAbove(next);
      hide Leads, Low, PickedLately;
      b := SendTo(a, next, n);
    }
  }

  lemma {:induction false} NoneAbove(st: State)
    requires Good(st)
    ensures Low(st.r) <= st.s.currSeq + 1 && forall n :: n > st.s.currSeq ==> n !in st.r.ahead
  {
    LowIs(st.isn, st.input, st.r);
  }

  /** Nothing is to be sent again. */
  predicate Idle(st: State)
  {
    st.pending == None && st.s.loss == {}
  }

  /** An open window lets the next packet out. */
  lemma {:induction false} SendNext(a: State, st: State) returns (b: State)
    requires Leads(a, st) && Idle(st) && st.s.currSeq + 1 < st.isn + |st.input|
    requires RightEdge(st.s) >= st.s.currSeq + 2
    ensures Leads(a, b) && Idle(b) && b.r == st.r && st.net <= b.net
    ensures b.s == st.s.(currSeq := st.s.currSeq + 1, curr := b.s.curr)
    ensures Data(b.s.currSeq, st.input[b.s.currSeq - st.isn]) in b.net
  {
    LeadsStep(a, st, SendFresh(st.s.flowWindow));
    b := Do(st, SendFresh(st.s.flowWindow));
  }

  /** The ACK of the least missing number is sent and arrives, and so does the ACK2 that answers it. */
  lemma {:induction false} Exchange(a: State, st: State) returns (b: State)
    requires Leads(a, st) && PickedLately(st) && Newer(st.r, Low(st.r))
    ensures Leads(a, b) && Idle(b) && b.isn == st.isn && b.input == st.input && b.s.currSeq == st.s.currSeq
    ensures b.s.lastAck == b.r.lastAckAck == Low(b.r) == Low(st.r) && b.s.flowWindow >= 2
  {
    var settled := Settle(a, st);
    var k, w :| Ack(k, Low(st.r), w) in settled.net && Known(settled.r, k);
    var ready := Drain(a, settled);
    var open := AckArrives(a, ready, k, w);
    assert Newer(open.r, open.ackOf[k]);
    b := Ack2Arrives(a, open, k);
  }

  /** What a full ACK does to an idle sender. */
  lemma {:induction false} AckTaken(isn: int, input: seq<Payload>, s: Sender, ack: int, w: int)
    requires SenderOk(isn, input, s) && s.loss == {} && s.lastAck <= ack <= s.currSeq + 1
    ensures var t := OnAck(s, ack, w);
            && t == s.(blocks := t.blocks, curr := t.curr, lastAck := ack, lastDataAck := ack, flowWindow := w)
    ensures !(s.lastDataAck < ack <= s.currSeq + 1 && !(ack - s.lastDataAck <= s.curr <= |s.blocks|))
  {
  }

  /** A full ACK of the least missing number arrives. */
  lemma {:induction false} AckArrives(a: State, st: State, k: int, w: int) returns (b: State)
    requires Leads(a, st) && Idle(st) && Ack(k, Low(st.r), w) in st.net
    ensures Leads(a, b) && b == st.(s := b.s, net := b.net) && b.s.currSeq == st.s.currSeq
    ensures b.s.lastAck == b.s.lastDataAck == Low(st.r) && b.s.flowWindow == w >= 2 && Idle(b)
    ensures Ack2(k) in b.net && k in b.ackOf && b.ackOf[k] == Low(st.r)
  {
    var ack := Low(st.r);
    assert PacketOk(st, Ack(k, ack, w));
    LowIs(st.isn, st.input, st.r);
    AckTaken(st.isn, st.input, ConfirmAck(st.s, k, true).0, ack, w);
    hide OnAck, Low, ReceiverOk, InputOk, WindowOk, Lag;
    LeadsStep(a, st, RecvAck(k, ack, w, true));
    b := Do(st, RecvAck(k, ack, w, true));
  }

  lemma {:induction false} Ack2Arrives(a: State, st: State, k: int) returns (b: State)
    requires Leads(a, st) && Ack2(k) in st.net && Known(st.r, k) && k in st.ackOf
    requires Newer(st.r, st.ackOf[k])
    ensures Leads(a, b) && b == st.(r := b.r) && b.r.lastAckAck == st.ackOf[k] && Low(b.r) == Low(st.r)
  {
    var i := Find(st.r.history, k);
    assert st.r.history[i] in st.r.history;
    var now := st.r.history[i].time + 1;
    LeadsStep(a, st, RecvAck2(k, now));
    b := Do(st, RecvAck2(k, now));
    hide Leads, SeqCmp, Wrap;
  }

  /** A number the receiver can come to acknowledge without a further ACK reaching the sender, and which is news. */
  ghost predicate News(st: State, n: int)
  {
    Low(st.r) <= n <= Reach(st.s) && n !in st.r.ahead && Newer(st.r, n)
  }

  /** Everything is delivered from here if all of it can be sent without a further ACK. */
  lemma {:induction false} Finish(a: State, st: State) returns (b: State)
    requires Leads(a, st) && PickedLately(st) && st.isn + |st.input| <= Reach(st.s)
    ensures Leads(a, b) && b.delivered == a.app
  {
    NoneAbove(st);
    Limits(a, st);
    LowIs(st.isn, st.input, st.r);
    var sent := SendTo(a, st, st.isn + |st.input|);
    b := Settle(a, sent);
    assert sent.input[..|sent.input|] == sent.input;
  }

  /** After an exchange there is always something further that will be news. */
  lemma {:induction false} NextNews(st: State)
    requires Good(st) && st.s.lastAck == st.r.lastAckAck == Low(st.r) && st.s.flowWindow >= 2
    ensures News(st, if st.s.currSeq + 1 > Low(st.r) then st.s.currSeq + 1 else Low(st.r) + 1)
  {
    var m := if st.s.currSeq + 1 > Low(st.r) then st.s.currSeq + 1 else Low(st.r) + 1;
    LowIs(st.isn, st.input, st.r);
    NewsAt(m, st.r.lastAckAck);
  }

  lemma {:induction false} DeliverAll(a: State, st: State, n: int) returns (b: State)
    requires Leads(a, st) && PickedLately(st) && News(st, n) && n <= st.isn + |st.input|
    ensures Leads(a, b) && b.delivered == a.app
    decreases st.isn + |st.input| - n
  {
    hide Low, Do, Runs, After, Inv, SeqCmp, Wrap;
    var sent := SendTo(a, st, n);
    assert Newer(sent.r, Low(sent.r));
    var next := Exchange(a, sent);
    if next.isn + |next.input| <= Reach(next.s) {
      b := Finish(a, next);
    } else {
      NextNews(next);
      hide Leads, News;
      b := DeliverAll(a, next, if next.s.currSeq + 1 > n then next.s.currSeq + 1 else n + 1);
    }
  }

  /** Either all can be sent without a further ACK, or some ACK that can come about is news. */
  ghost predicate CanGoOn(st: State)
  {
    st.isn + |st.input| <= Reach(st.s) || exists n :: News(st, n)
  }

  lemma {:induction false} GoOn(st: State) returns (b: State)
    requires Good(st) && PickedLately(st) && CanGoOn(st)
    ensures Leads(st, b) && b.delivered == st.app
  {
    LeadsSelf(st);
    if st.isn + |st.input| <= Reach(st.s) {
      b := Finish(st, st);
    } else {
      var n :| News(st, n);
      b := DeliverAll(st, st, n);
    }
  }
}
