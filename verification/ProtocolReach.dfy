/** Runs that go to the limits: the widest windows, and the point past which no ACK is news. */
module ProtocolReach {
  import opened Bytes
  import opened Numbers
  import opened SeqNo
  import opened AckHistory
  import opened Protocol
  import opened ProtocolRun
  import opened ProtocolSafety
  import opened ProtocolWidth
  import opened ProtocolProgress
  import opened ProtocolDeadlock

  /** A start whose windows are not too wide for the wrapped comparisons. */
  ghost predicate Start(st: State)
  {
    Init(st) && 1 <= st.s.flowWindow <= Most && 1 <= st.r.size <= Most + 1
  }

  /** Some run of fresh steps leads from a to b. */
  ghost predicate Reachable(a: State, b: State)
  {
    exists steps :: Runs(a, steps) && After(a, steps) == b
  }

  /** The state after all the data has been given to send, in packets of one byte. */
  ghost function Loaded(st: State, data: seq<Byte>): State
    requires data != []
  {
    Do(st, Send(data, 1))
  }

  lemma {:induction false} LoadedGood(st: State, data: seq<Byte>)
    requires Start(st) && st.r.size >= 2 && data != []
    ensures var a := Loaded(st, data);
            && Leads(a, a) && Even(a) && |a.input| == |data| && a.app == data
            && a == st.(s := a.s, input := a.input, app := data) && a.s == st.s.(blocks := a.input)
  {
    hide Good, Leads, Chunks, Runs, After;
    InitGood(st);
    GoodStep(st, Send(data, 1));
    ChunkCount(data, 1);
    LeadsSelf(Loaded(st, data));
  }

  lemma {:induction false} LoadedReaches(st: State, data: seq<Byte>, b: State)
    requires Start(st) && data != [] && Leads(Loaded(st, data), b)
    ensures Reachable(st, b)
  {
    hide Good, Do;
    var a := Loaded(st, data);
    var steps :| Runs(a, steps) && After(a, steps) == b;
    var all := [Send(data, 1)] + steps;
    assert all[0] == Send(data, 1) && all[1..] == steps;
    assert Runs(st, all) && After(st, all) == b;
  }

  // ---------- rounds ----------

  /** Everything sent has been received, read and acknowledged; what the receiver knows of that is left open. */
  ghost predicate Even(st: State)
  {
    && Idle(st) && st.r.unread == [] && st.s.flowWindow >= 1
    && Low(st.r) == st.r.lastAck == st.s.lastAck == st.s.lastDataAck == st.s.currSeq + 1
  }

  lemma {:induction false} SentAgain(r: Receiver)
    requires r.lastAck == Low(r) && r.unread == [] && Newer(r, Low(r)) && r.historySize >= 2
    ensures var (t, p) := SendAck(r, 0, true);
            && t == r.(ackSeqNo := t.ackSeqNo, history := t.history) && Low(t) == Low(r)
            && p == Some(Ack(t.ackSeqNo, Low(r), FullWindow(r.size)))
  {
    hide Store, Stored, AheadFrom;
  }

  /** The ACK last sent is due again, and now tells the whole buffer. */
  lemma {:induction false} Repeat(a: State, st: State) returns (b: State, k: int)
    requires Leads(a, st) && st.r.lastAck == Low(st.r) && st.r.unread == [] && Newer(st.r, Low(st.r))
    ensures Leads(a, b) && b.s == st.s && b.pending == st.pending && b.r == st.r.(ackSeqNo := k, history := b.r.history)
    ensures Ack(k, Low(st.r), FullWindow(st.r.size)) in b.net && Low(b.r) == Low(st.r)
  {
    hide SendAck, Do, SeqCmp, Wrap, SenderOk, ReceiverPart, InputOk, WindowOk, Narrow, Lag;
    DoEmit(st, 0, true);
    SentAgain(st.r);
    LeadsStep(a, st, EmitAck(0, true));
    b := Do(st, EmitAck(0, true));
    k := b.r.ackSeqNo;
    hide Leads, Store;
  }

  /** One packet is sent and received, its ACK leaves, and it is read. */
  lemma {:induction false} Pass(a: State, st: State) returns (b: State)
    requires Leads(a, st) && Even(st) && st.s.currSeq + 1 < st.isn + |st.input|
    ensures Leads(a, b) && Idle(b) && b.s.currSeq == st.s.currSeq + 1 && b.r.unread == []
    ensures Low(b.r) == b.r.lastAck == b.s.currSeq + 1
    ensures b.r.lastAckAck == st.r.lastAckAck && b.r.size == st.r.size && b.isn == st.isn && b.input == st.input
  {
    var sent := SendNext(a, st);
    var got := Arrive(a, sent, Low(st.r));
    NoneAbove(got);
    Limits(a, got);
    hide Do, Low, Inv, PickedLately, Known;
    b := Settle(a, got);
    SameSize(a, st);
    SameSize(a, b);
    Limits(a, b);
  }

  lemma {:induction false} SameSize(a: State, b: State)
    requires Leads(a, b)
    ensures b.r.size == a.r.size
  {
    var steps :| Runs(a, steps) && After(a, steps) == b;
    SizeAlong(a, steps);
  }

  lemma {:induction false} SizeAlong(a: State, steps: seq<Step>)
    requires Runs(a, steps)
    ensures After(a, steps).r.size == a.r.size
    decreases |steps|
  {
    if steps != [] {
      SizeStays(a, steps[0]);
      SizeAlong(Do(a, steps[0]), steps[1..]);
    }
  }

  /** One packet is sent, received, read and acknowledged. */
  lemma {:induction false} Round(a: State, st: State) returns (b: State)
    requires Leads(a, st) && Even(st) && st.s.currSeq + 1 < st.isn + |st.input| && Newer(st.r, st.s.currSeq + 2)
    ensures Leads(a, b) && Even(b) && b.s.currSeq == st.s.currSeq + 1 && b.s.flowWindow == FullWindow(st.r.size)
    ensures b.r.lastAckAck == st.r.lastAckAck && b.r.size == st.r.size && b.isn == st.isn && b.input == st.input
  {
    var passed := Pass(a, st);
    assert Newer(passed.r, Low(passed.r));
    var repeated, k := Repeat(a, passed);
    b := AckArrives(a, repeated, k, FullWindow(st.r.size));
    Limits(a, b);
    Limits(a, passed);
  }

  // ---------- past the last ACK that is news ----------

  /** Packets up to n are sent, received, read and acknowledged by one ACK. */
  lemma {:induction false} Hop(a: State, st: State, n: int) returns (b: State)
    requires Leads(a, st) && Even(st) && Newer(st.r, n)
    requires Low(st.r) < n <= Reach(st.s) && n <= st.isn + |st.input|
    ensures Leads(a, b) && Even(b) && Low(b.r) == n && b.r.lastAckAck == st.r.lastAckAck
    ensures b.isn == st.isn && b.input == st.input
  {
    NoneAbove(st);
    var sent := SendTo(a, st, n);
    assert Newer(sent.r, Low(sent.r));
    var settled := Settle(a, sent);
    var k, w :| Ack(k, n, w) in settled.net && Known(settled.r, k);
    var idle := Drain(a, settled);
    b := AckArrives(a, idle, k, w);
    Limits(a, b);
  }

  /** Without any ACK2 the two sides go on until no further number within the window is news, and one more. */
  lemma {:induction false} GoTooFar(a: State, st: State) returns (b: State)
    requires Leads(a, st) && Even(st) && |st.input| > 2 * SEQ_NO_TH
    requires 0 <= Low(st.r) - st.r.lastAckAck <= Furthest && st.r.lastAckAck == st.isn
    ensures Leads(a, b) && b.r.lastAckAck == st.isn && Low(b.r) > st.isn
    ensures Stuck(b.(net := {}), b.(net := {})) && !CanGoOn(b.(net := {})) && Inv(b.(net := {}))
    ensures forall now, expired :: Enabled(b, EmitAck(now, expired)) && SendAck(b.r, now, expired).1 == None
    decreases st.isn + Furthest - Low(st.r)
  {
    NarrowReach(a, st);
    if n :| Low(st.r) < n <= Reach(st.s) && Newer(st.r, n) {
      CmpAhead(st.r.lastAckAck, n - st.r.lastAckAck);
      var next := Hop(a, st, n);
      hide Leads, Even, Newer, Stuck, CanGoOn, Inv;
      b := GoTooFar(a, next);
    } else {
      b := OneTooFar(a, st);
    }
  }

  lemma {:induction false} NarrowReach(a: State, st: State)
    requires Leads(a, st) && Even(st)
    ensures Low(st.r) < Reach(st.s) <= Low(st.r) + Most
  {
  }

  /** Every start has a run that ends in a deadlock: if every ACK2 so far and all that is in flight is lost, nothing can
      make the rest of the data arrive. The ACK due then carries a number never confirmed, yet it is not sent. */
  lemma {:induction false} DeadlockIsReached(st: State, data: seq<Byte>) returns (b: State)
    requires Start(st) && st.r.size >= 2 && |data| > 2 * SEQ_NO_TH
    ensures Reachable(st, b) && b.app == data && Good(b)
    ensures b.r.lastAckAck == st.isn < Low(b.r)
    ensures forall now, expired :: Enabled(b, EmitAck(now, expired)) && SendAck(b.r, now, expired).1 == None
    ensures !CanGoOn(b.(net := {}))
    ensures forall more :: Runs(b.(net := {}), more) ==> After(b.(net := {}), more).delivered != data
  {
    LoadedGood(st, data);
    var a := Loaded(st, data);
    b := GoTooFar(a, a);
    LoadedReaches(st, data, b);
    NeverDelivers(b.(net := {}));
  }

  /** One more packet, when no number beyond the present one is news. */
  lemma {:induction false} OneTooFar(a: State, st: State) returns (b: State)
    requires Leads(a, st) && Even(st) && Reach(st.s) < st.isn + |st.input|
    requires forall n :: Low(st.r) < n <= Reach(st.s) ==> !Newer(st.r, n)
    ensures Leads(a, b) && b.r.lastAckAck == st.r.lastAckAck && Low(b.r) > Low(st.r)
    ensures forall now, expired :: Enabled(b, EmitAck(now, expired)) && SendAck(b.r, now, expired).1 == None
    ensures Inv(b.(net := {})) && !CanGoOn(b.(net := {})) && Stuck(b.(net := {}), b.(net := {}))
  {
    hide SeqCmp, Wrap;
    var sent := SendNext(a, st);
    b := Arrive(a, sent, Low(st.r));
    assert Reach(b.s) == Reach(st.s);
    var cut := b.(net := {});
    assert HistoryOk(cut);
    forall n | Low(b.r) <= n <= Reach(b.s) ensures !Newer(b.r, n) {
      assert !Newer(st.r, n);
    }
    StuckHere(cut);
    Silent(b);
  }

  lemma {:induction false} Silent(st: State)
    requires Inv(st) && forall n :: Low(st.r) <= n <= Reach(st.s) ==> !Newer(st.r, n)
    ensures forall now, expired :: Enabled(st, EmitAck(now, expired)) && SendAck(st.r, now, expired).1 == None
  {
    LowIs(st.isn, st.input, st.r);
    forall now: int, expired: bool ensures SendAck(st.r, now, expired).1 == None {
      NoneSent(st, now, expired, Reach(st.s));
    }
  }
}
