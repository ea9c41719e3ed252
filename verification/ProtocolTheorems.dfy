/** What holds in every reachable state of every run, in the terms of the two programs that use a connection. */
module ProtocolTheorems {
  import opened Bytes
  import opened Numbers
  import opened SeqNo
  import opened Protocol
  import opened ProtocolRun
  import opened ProtocolSafety
  import opened ProtocolWidth
  import opened ProtocolProgress
  import opened ProtocolDeadlock

  /** Whatever the network does, the bytes handed over and the bytes ready to be read are together exactly the
      sender's bytes of the packets below the acknowledgement point; so delivery is a prefix of what was sent. */
  lemma {:induction false} DeliveryIsExact(trace: seq<State>, steps: seq<Step>, i: nat)
    requires IsRun(trace, steps) && i < |trace|
    ensures var st := trace[i];
            && 0 <= st.r.lastAck - st.isn <= |st.input|
            && st.delivered + Readable(st.r.unread, st.r.notch) == Flatten(st.input[..st.r.lastAck - st.isn])
            && st.delivered <= st.app
  {
    RunInv(trace, steps, i);
    var st := trace[i];
    var k := st.r.lastAck - st.isn;
    assert st.input == st.input[..k] + st.input[k..];
    FlattenAppend(st.input[..k], st.input[k..]);
  }

  /** Bytes once delivered stay delivered: each state's delivery extends the earlier ones. */
  lemma {:induction false} DeliveryOnlyGrows(trace: seq<State>, steps: seq<Step>, i: nat, j: nat)
    requires IsRun(trace, steps) && i <= j < |trace|
    ensures trace[i].delivered <= trace[j].delivered && trace[i].input <= trace[j].input && trace[i].isn == trace[j].isn
    decreases j
  {
    hide Do, Enabled, Init;
    if i < j {
      DeliveryOnlyGrows(trace, steps, i, j - 1);
      HistoryGrows(trace[j - 1], steps[j - 1]);
    }
  }

  lemma {:induction false} HistoryGrows(st: State, step: Step)
    requires Enabled(st, step)
    ensures var st' := Do(st, step);
            st.delivered <= st'.delivered && st.input <= st'.input && st.isn == st'.isn
  {
  }

  /** No step touches a missing block or slot, honest peers never break the connection, and the receive buffer,
      with one slot always empty, is never overfull. */
  lemma {:induction false} NothingGoesWrong(trace: seq<State>, steps: seq<Step>, i: nat)
    requires IsRun(trace, steps) && i < |trace|
    ensures var st := trace[i];
            && !st.fault && !st.s.broken
            && |st.r.unread| + (st.r.currSeq + 1 - st.r.lastAck) <= st.r.size - 1
            && st.s.curr == st.s.currSeq + 1 - st.s.lastDataAck <= |st.s.blocks|
  {
    RunInv(trace, steps, i);
  }

  /** The receiver's loss list is exactly the set of empty slots between the acknowledgement point and the
      greatest number seen; hence Low is the least number it does not have. */
  lemma {:induction false} LossListIsExact(trace: seq<State>, steps: seq<Step>, i: nat)
    requires IsRun(trace, steps) && i < |trace|
    ensures var r := trace[i].r;
            && (forall n :: n in r.loss <==> r.lastAck <= n <= r.currSeq && n !in r.ahead)
            && r.lastAck <= Low(r) <= r.currSeq + 1
            && Low(r) !in r.ahead && (forall n :: r.lastAck <= n < Low(r) ==> n in r.ahead)
  {
    RunInv(trace, steps, i);
    LowIs(trace[i].isn, trace[i].input, trace[i].r);
  }

  ghost predicate Lacks(r: Receiver, n: int)
  {
    n >= r.lastAck && n !in r.ahead
  }

  /** The sender never frees what the receiver lacks: it is still buffered, with the bytes it was given. */
  lemma {:induction false} NeverFreedEarly(trace: seq<State>, steps: seq<Step>, i: nat, n: int)
    requires IsRun(trace, steps) && i < |trace|
    ensures var st := trace[i];
            n <= st.s.currSeq && Lacks(st.r, n) ==>
              && st.isn <= st.s.lastDataAck <= st.s.lastAck <= n && n - st.isn < |st.input|
              && n - st.s.lastDataAck < |st.s.blocks|
              && st.s.blocks[n - st.s.lastDataAck] == st.input[n - st.isn]
  {
    RunInv(trace, steps, i);
    var st := trace[i];
    if n <= st.s.currSeq && Lacks(st.r, n) {
      LowIs(st.isn, st.input, st.r);
      assert n >= Low(st.r);
    }
  }

  /** The order of the cursors, and the bounds on what is in flight. */
  lemma {:induction false} CursorsAreOrdered(trace: seq<State>, steps: seq<Step>, i: nat)
    requires IsRun(trace, steps) && i < |trace|
    ensures var st := trace[i];
            && st.isn <= st.s.lastDataAck <= st.s.lastAck <= Low(st.r) <= st.r.currSeq + 1 <= st.s.currSeq + 1
            && (forall n :: n in st.s.loss ==> st.s.lastDataAck <= n <= st.s.currSeq)
            && (forall a :: LiteAck(a) in st.net ==> a <= Low(st.r))
            && (forall k, a, w :: Ack(k, a, w) in st.net ==> a <= Low(st.r) && w >= 2)
            && st.r.lastAckAck <= st.s.lastAck
  {
    RunInv(trace, steps, i);
    var st := trace[i];
    LowIs(st.isn, st.input, st.r);
    forall a | LiteAck(a) in st.net ensures a <= Low(st.r) {
      assert PacketOk(st, LiteAck(a));
    }
    forall k, a, w | Ack(k, a, w) in st.net ensures a <= Low(st.r) && w >= 2 {
      assert PacketOk(st, Ack(k, a, w));
    }
  }

  /** All transmissions of a number, at any two moments of a run, carry the same bytes: those first sent as it. */
  lemma {:induction false} RetransmissionsAgree(trace: seq<State>, steps: seq<Step>, i: nat, j: nat, n: int, p: Payload,
                                                q: Payload)
    requires IsRun(trace, steps) && i <= j < |trace|
    requires Data(n, p) in trace[i].net && Data(n, q) in trace[j].net
    ensures p == q
  {
    RunInv(trace, steps, i);
    RunInv(trace, steps, j);
    DeliveryOnlyGrows(trace, steps, i, j);
    assert PacketOk(trace[i], Data(n, p)) && PacketOk(trace[j], Data(n, q));
  }

  /** No deadlock: whatever happened, and even if all packets in flight are lost, the two sides can go on so that every
      byte given to send is delivered, exactly if everything can be sent without a further ACK or some ACK that can
      still come about is news to the receiver's wrapped comparison. */
  lemma {:induction false} NoDeadlock(trace: seq<State>, steps: seq<Step>, i: nat)
    requires IsRun(trace, steps) && i < |trace| && PickedLately(trace[i])
    requires 1 <= trace[0].s.flowWindow <= Most && 2 <= trace[0].r.size <= Most + 1
    ensures var st := trace[i].(net := {});
            && ((exists more :: Runs(st, more) && After(st, more).delivered == st.app) <==> CanGoOn(st))
            && (st.s.currSeq + 1 - st.r.lastAckAck < SEQ_NO_TH ==> CanGoOn(st))
  {
    RunGood(trace, steps, i);
    var st := trace[i].(net := {});
    assert HistoryOk(st);
    DeliversIff(st);
    if st.s.currSeq + 1 - st.r.lastAckAck < SEQ_NO_TH {
      AnsweredGoesOn(st);
    }
  }

  /** The number an ACK carries is never a full circle past the last confirmed one, though ACK2 packets may be lost
      for ever; so equal wrapped numbers are equal. */
  lemma {:induction false} NeverAFullCircle(trace: seq<State>, steps: seq<Step>, i: nat)
    requires IsRun(trace, steps) && i < |trace|
    requires 1 <= trace[0].s.flowWindow <= Most && 2 <= trace[0].r.size <= Most + 1
    ensures var r := trace[i].r;
            r.lastAckAck <= r.lastAck <= Low(r) <= r.lastAckAck + MODULUS - 2
  {
    RunGood(trace, steps, i);
    LagBounds(trace[i]);
  }

  lemma {:induction false} RunGood(trace: seq<State>, steps: seq<Step>, i: nat)
    requires IsRun(trace, steps) && i < |trace|
    requires 1 <= trace[0].s.flowWindow <= Most && 2 <= trace[0].r.size <= Most + 1
    ensures Good(trace[i])
  {
    if i == 0 {
      InitGood(trace[0]);
    } else {
      RunGood(trace, steps, i - 1);
      GoodStep(trace[i - 1], steps[i - 1]);
    }
  }

  /** The lower bounds are needed: with an initial flow window below one packet, or a receive buffer of a single
      slot, nothing is ever delivered. */
  lemma {:induction false} ShutForever(trace: seq<State>, steps: seq<Step>, i: nat)
    requires IsRun(trace, steps) && i < |trace|
    requires trace[0].s.flowWindow < 1 || trace[0].r.size < 2
    ensures trace[i].delivered == []
  {
    RunShut(trace, steps, i);
    DeliveryIsExact(trace, steps, i);
    RunInv(trace, steps, i);
    assert trace[i].input[..0] == [];
  }

  ghost predicate Shut(st: State)
  {
    && st.r.currSeq == st.isn - 1
    && (st.r.size < 2 ||
        (st.s.currSeq == st.isn - 1 && st.s.flowWindow < 1 && st.ackOf == map[] && st.r.lastAckAck == st.isn))
  }

  lemma {:induction false} ShutStays(st: State, step: Step)
    requires Inv(st) && Shut(st) && Enabled(st, step)
    ensures Shut(Do(st, step))
  {
    hide Span, SeqCmp, Wrap, Chunks, OnNak, Stored, AheadFrom, InputOk, NotchOk, DeliveryOk;
    LowIs(st.isn, st.input, st.r);
    match step
    case RecvData(n, p) => assert PacketOk(st, Data(n, p));
    case RecvAck(k, ack, window, _) => assert PacketOk(st, Ack(k, ack, window));
    case RecvLiteAck(ack) => assert PacketOk(st, LiteAck(ack));
    case RecvAck2(k, _) => assert PacketOk(st, Ack2(k));
    case RecvNak(ranges) =>
      assert PacketOk(st, Nak(ranges));
      NakIsHonest(st.s, ranges);
    case EmitAck(now, expired) => SendAckBooks(st, now, expired);
    case _ =>
  }

  lemma {:induction false} RunShut(trace: seq<State>, steps: seq<Step>, i: nat)
    requires IsRun(trace, steps) && i < |trace|
    requires trace[0].s.flowWindow < 1 || trace[0].r.size < 2
    ensures Shut(trace[i])
  {
    if i > 0 {
      RunShut(trace, steps, i - 1);
      RunInv(trace, steps, i - 1);
      ShutStays(trace[i - 1], steps[i - 1]);
    }
  }
}
