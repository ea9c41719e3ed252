/** How far apart sequence numbers get in a run: what the wrapped arithmetic and the slots of the two loss lists need,
    and when they have it. */
module WindowTheorems {
  import opened Bytes
  import opened Numbers
  import opened SeqNo
  import opened Protocol
  import opened ProtocolRun
  import opened ProtocolSafety
  import opened ProtocolWidth
  import opened ProtocolProgress
  import opened ProtocolReach
  import opened SenderHalves
  import opened ReceiverHalves

  // ---------- in every run ----------

  lemma {:induction false} NarrowAlong(st: State, steps: seq<Step>, most: int)
    requires Inv(st) && Narrow(st, most) && Covers(most, st.r.size) && Runs(st, steps)
    ensures Inv(After(st, steps)) && Narrow(After(st, steps), most) && After(st, steps).r.size == st.r.size
    decreases |steps|
  {
    if steps != [] {
      StepKeeps(st, steps[0]);
      NarrowStep(st, most, steps[0]);
      SizeStays(st, steps[0]);
      NarrowAlong(Do(st, steps[0]), steps[1..], most);
    }
  }

  lemma {:induction false} ReachedNarrow(st: State, b: State)
    requires Init(st) && Reachable(st, b)
    ensures Inv(b) && Narrow(b, Widest(st.s.flowWindow, st.r.size)) && b.r.size == st.r.size
  {
    InitInv(st);
    var steps :| Runs(st, steps) && After(st, steps) == b;
    NarrowAlong(st, steps, Widest(st.s.flowWindow, st.r.size));
  }

  /** In every run the sender's numbers stay within the wider of the initial flow window and the receive buffer; so the
      wrapped comparisons of both halves are always wide enough, whatever ACKs and ACK2s are lost. */
  lemma {:induction false} AlwaysBounded(trace: seq<State>, steps: seq<Step>, i: nat)
    requires IsRun(trace, steps) && i < |trace|
    requires trace[0].s.flowWindow <= Most && trace[0].r.size <= Most + 1
    ensures Bounded(trace[i].s) && RcvBounded(trace[i].r)
  {
    RunNarrow(trace, steps, Most, i);
    RunInv(trace, steps, i);
    var st := trace[i];
    forall p | p in st.s.blocks ensures p != [] {
      assert p in st.input;
    }
    NotchFits(st.r);
  }

  lemma {:induction false} NotchFits(r: Receiver)
    requires NotchOk(r)
    ensures r.unread != [] ==> r.notch <= |r.unread[0]|
  {
  }

  /** In every run the distance from m_pFirstBlock to m_pCurrBlock is what the wrapped cursors say it is. */
  lemma {:induction false} RingDistance(trace: seq<State>, steps: seq<Step>, i: nat)
    requires IsRun(trace, steps) && i < |trace|
    requires trace[0].s.flowWindow <= Most && trace[0].r.size <= Most + 1
    ensures var s := trace[i].s; SeqOff(Wrap(s.lastDataAck), IncSeq(Wrap(s.currSeq))) == s.curr
  {
    AlwaysBounded(trace, steps, i);
    IncRefines(trace[i].s.currSeq);
    OffRefines(trace[i].s.lastDataAck, trace[i].s.currSeq + 1);
  }

  // ---------- runs that need all of the width ----------

  /** Packets leave one after the other as long as the window admits them. */
  lemma {:induction false} SendMany(a: State, st: State, k: nat) returns (b: State)
    requires Leads(a, st) && Idle(st) && st.s.currSeq + 1 + k <= st.isn + |st.input|
    requires RightEdge(st.s) >= st.s.currSeq + 1 + k
    ensures Leads(a, b) && Idle(b) && b.r == st.r && b.isn == st.isn && b.input == st.input
    ensures b.s == st.s.(currSeq := st.s.currSeq + k, curr := b.s.curr)
    ensures k > 0 ==> Data(b.s.currSeq, st.input[b.s.currSeq - st.isn]) in b.net
    decreases k
  {
    if k == 0 {
      b := st;
    } else {
      var before := SendMany(a, st, k - 1);
      b := SendNext(a, before);
    }
  }

  /** One packet makes its way, and the whole receive buffer is advertised. */
  lemma {:induction false} Warm(st: State, data: seq<Byte>) returns (b: State)
    requires Start(st) && st.r.size >= 2 && |data| == FullWindow(st.r.size) + 1
    ensures Leads(Loaded(st, data), b) && Idle(b) && Settled(b) && b.r.size == st.r.size
    ensures b.s.flowWindow == FullWindow(st.r.size) && b.s.currSeq + 1 + b.s.flowWindow == b.isn + |b.input|
  {
    hide Leads, Loaded, Do, Good, Even, Settled, Low, Inv, SeqCmp, Wrap;
    LoadedGood(st, data);
    var a := Loaded(st, data);
    NewsAt(st.isn + 1, st.isn);
    assert Newer(a.r, a.s.currSeq + 2);
    b := Round(a, a);
    Limits(a, b);
    EvenReceiver(a, b);
  }

  /** All that was sent has arrived, and is read and acknowledged. */
  ghost predicate Settled(st: State)
  {
    && st.s.lastAck == st.s.lastDataAck == st.s.currSeq + 1 == st.r.lastAck == st.r.currSeq + 1
    && st.r.loss == {} && st.r.unread == []
  }

  lemma {:induction false} EvenReceiver(a: State, st: State)
    requires Leads(a, st) && Even(st)
    ensures Settled(st) && Idle(st)
  {
    LowIs(st.isn, st.input, st.r);
  }

  /** Then the sender uses the whole window. */
  lemma {:induction false} FillWindow(st: State, data: seq<Byte>) returns (b: State)
    requires Start(st) && st.r.size >= 2 && |data| == FullWindow(st.r.size) + 1
    ensures Leads(Loaded(st, data), b) && Idle(b) && b.r.size == st.r.size
    ensures b.s.lastAck == b.s.lastDataAck == b.r.lastAck == b.r.currSeq + 1 && b.r.loss == {} && b.r.unread == []
    ensures b.s.currSeq + 1 - b.s.lastDataAck == FullWindow(st.r.size)
    ensures b.isn <= b.s.currSeq < b.isn + |b.input| && Data(b.s.currSeq, b.input[b.s.currSeq - b.isn]) in b.net
  {
    hide Leads, Loaded, Start;
    var warm := Warm(st, data);
    b := SendMany(Loaded(st, data), warm, FullWindow(st.r.size));
    LowestFirst(Loaded(st, data), warm);
  }

  lemma {:induction false} LowestFirst(a: State, st: State)
    requires Leads(a, st)
    ensures st.isn <= st.s.currSeq + 1
  {
  }

  /** Then a timeout takes all of that for lost. */
  lemma {:induction false} AllLost(st: State, data: seq<Byte>) returns (b: State)
    requires Start(st) && st.r.size >= 2 && |data| == FullWindow(st.r.size) + 1
    ensures Reachable(st, b) && b.s.currSeq + 1 - b.s.lastDataAck == FullWindow(st.r.size)
    ensures b.s.lastDataAck in b.s.loss && b.s.currSeq in b.s.loss
  {
    var full := FillWindow(st, data);
    var a := Loaded(st, data);
    assert Inv(full);
    LeadsStep(a, full, Timeout);
    b := Do(full, Timeout);
    LoadedReaches(st, data, b);
  }

  /** Or the last of it is the only one to arrive. */
  lemma {:induction false} AllMissing(st: State, data: seq<Byte>) returns (b: State)
    requires Start(st) && st.r.size >= 3 && |data| == FullWindow(st.r.size) + 1
    ensures Reachable(st, b) && b.r.lastAck in b.r.loss && b.r.lastAck + st.r.size - 3 in b.r.loss
  {
    var full := FillWindow(st, data);
    var a := Loaded(st, data);
    var n, p := full.s.currSeq, full.input[full.s.currSeq - full.isn];
    LeadsStep(a, full, RecvData(n, p));
    DoData(full, n, p);
    hide Leads, Loaded, Do, Good, Start;
    b := Do(full, RecvData(n, p));
    LoadedReaches(st, data, b);
  }

  // ---------- the loss lists ----------

  function Zeros(n: nat): (r: seq<Byte>)
    ensures |r| == n
  {
    seq(n, i => 0)
  }

  /** The sender's loss list, made twice as wide as the initial flow window, is wide enough in every run exactly if the
      peer's receive buffer is not wider than that. */
  lemma {:induction false} SenderListFits(st: State)
    requires Start(st)
    ensures (forall b :: Reachable(st, b) ==> LossFits(b.s.loss, 2 * st.s.flowWindow)) <==>
            st.r.size - 1 <= 2 * st.s.flowWindow
  {
    if st.r.size - 1 <= 2 * st.s.flowWindow {
      forall b | Reachable(st, b) ensures LossFits(b.s.loss, 2 * st.s.flowWindow) {
        ReachedNarrow(st, b);
        LossWidths(b, Widest(st.s.flowWindow, st.r.size));
      }
    } else {
      var b := AllLost(st, Zeros(FullWindow(st.r.size) + 1));
      assert Distance(b.s.lastDataAck, b.s.currSeq) >= 2 * st.s.flowWindow;
    }
  }

  /** The receiver's loss list is wide enough in every run exactly if it has at least two slots less than its buffer. */
  lemma {:induction false} ReceiverListFits(st: State, slots: int)
    requires Start(st) && slots >= 1
    ensures (forall b :: Reachable(st, b) ==> LossFits(b.r.loss, slots)) <==> st.r.size - 2 <= slots
  {
    if st.r.size - 2 <= slots {
      forall b | Reachable(st, b) ensures LossFits(b.r.loss, slots) {
        ReachedNarrow(st, b);
        LossWidths(b, Widest(st.s.flowWindow, st.r.size));
      }
    } else {
      var b := AllMissing(st, Zeros(FullWindow(st.r.size) + 1));
      assert Distance(b.r.lastAck, b.r.lastAck + st.r.size - 3) >= slots;
    }
  }

  /** A real input: the flight flag set to 64 after the receive buffer was left at its 8192 slots. The peer's loss list
      gets 128 slots and the own one 64, and runs with all data lost, or all but the last packet, overrun them. */
  lemma {:induction false} LoweredFlightFlag(st: State)
    requires Init(st) && st.s.flowWindow == 64 && st.r.size == 8192
    ensures exists b :: Reachable(st, b) && !LossFits(b.s.loss, 2 * 64)
    ensures exists b :: Reachable(st, b) && !LossFits(b.r.loss, 64)
  {
    SenderListFits(st);
    ReceiverListFits(st, 64);
  }

  /** Left at their defaults, 25600 and 8192, both lists are always wide enough. */
  lemma {:induction false} DefaultsFit(st: State, b: State)
    requires Init(st) && st.s.flowWindow == 25600 && st.r.size == 8192 && Reachable(st, b)
    ensures LossFits(b.s.loss, 2 * 25600) && LossFits(b.r.loss, 25600)
  {
    SenderListFits(st);
    ReceiverListFits(st, 25600);
  }
}
