/** Both halves of a stream-mode connection over a network that carries wrapped numbers. Packets may be lost, repeated
    and reordered; each method takes what the network hands over and gives what leaves. The ghost state is the protocol
    run these calls amount to, so that everything proved of runs holds of the two programs. */
module Connections {
  import opened Bytes
  import opened Numbers
  import opened SeqNo
  import opened AckHistory
  import opened Protocol
  import opened ProtocolRun
  import opened ProtocolSafety
  import opened ProtocolWidth
  import opened RcvBuffers
  import opened LossReport
  import opened SenderHalves
  import opened ReceiverHalves

  /** A packet as it is on the wire. */
  datatype Wire =
    | WireData(seqNo: Seq31, payload: Payload)
    | WireAck(ackNo: int, ack: Seq31, window: int)
    | WireLiteAck(ack: Seq31)
    | WireAck2(ackNo: int)
    | WireNak(words: seq<Word>)

  /** What a packet on the wire stands for. */
  ghost predicate Carries(w: Wire, p: Packet)
  {
    match w
    case WireData(n, payload) => p.Data? && n == Wrap(p.seqNo) && payload == p.payload
    case WireAck(k, a, window) => p.Ack? && k == p.ackNo && a == Wrap(p.ack) && window == p.window
    case WireLiteAck(a) => p.LiteAck? && a == Wrap(p.ack)
    case WireAck2(k) => p.Ack2? && k == p.ackNo
    case WireNak(words) => p.Nak? && Encodes(words, p.ranges)
  }

  /** What leaves, on the wire and in the protocol. */
  ghost predicate Leaves(w: Option<Wire>, before: set<Packet>, after: set<Packet>)
  {
    match w
    case None => after == before
    case Some(wire) => exists p :: Carries(wire, p) && after == before + {p}
  }

  /** The protocol takes this step. */
  ghost predicate Takes(before: State, step: Step, after: State)
  {
    Enabled(before, step) && after == Do(before, step)
  }

  /** A reachable state that is not wider than `most`. */
  ghost predicate Proper(st: State, most: int)
  {
    Inv(st) && Narrow(st, most) && Covers(most, st.r.size) && most <= Most
  }

  lemma {:induction false} ProperStep(st: State, most: int, step: Step)
    requires Proper(st, most) && Enabled(st, step)
    ensures Proper(Do(st, step), most) && Do(st, step).r.size == st.r.size
  {
    StepKeeps(st, step);
    NarrowStep(st, most, step);
    SizeStays(st, step);
  }

  /** The run before its first step. */
  ghost function Beginning(isn: int, window: int, rcvSize: nat, ackSeqNo: int, windowSize: nat): State
  {
    State(isn, Sender([], 0, isn, isn, isn - 1, {}, window, isn, false),
          Receiver(rcvSize, [], 0, map[], isn, isn, isn - 1, {}, ackSeqNo, [], windowSize),
          None, {}, false, [], [], [], map[])
  }

  lemma {:induction false} BeginsProper(isn: int, window: int, rcvSize: nat, ackSeqNo: int, windowSize: nat)
    requires window <= Most && 1 <= rcvSize <= Most + 1 && windowSize >= 2
    ensures var st := Beginning(isn, window, rcvSize, ackSeqNo, windowSize);
            && Init(st) && Proper(st, Widest(window, rcvSize))
            && st.isn == isn && st.s == Sender([], 0, isn, isn, isn - 1, {}, window, isn, false)
            && st.r == Receiver(rcvSize, [], 0, map[], isn, isn, isn - 1, {}, ackSeqNo, [], windowSize)
  {
    hide Inv, Lag;
    InitInv(Beginning(isn, window, rcvSize, ackSeqNo, windowSize));
  }

  /** In such a state both halves can rely on their widths. */
  lemma {:induction false} Ready(st: State, most: int)
    requires Proper(st, most)
    ensures Bounded(st.s) && RcvBounded(st.r) && (forall n :: st.r.lastAck <= n < Low(st.r) ==> n in st.r.ahead)
    ensures forall slots :: most <= slots ==> LossFits(st.s.loss, slots)
    ensures forall slots :: st.r.size - 2 <= slots ==> LossFits(st.r.loss, slots)
    ensures st.pending.Some? ==> st.pending.value - st.s.lastDataAck < |st.s.blocks|
    ensures st.delivered <= st.app
  {
    forall p | p in st.s.blocks ensures p != [] {
      assert p in st.input;
    }
    LowIs(st.isn, st.input, st.r);
    LossWidths(st, most);
    var k := st.r.lastAck - st.isn;
    assert st.input == st.input[..k] + st.input[k..];
    FlattenAppend(st.input[..k], st.input[k..]);
  }

  // ---------- the steps as updates of the two halves ----------

  lemma {:induction false} DoSend(st: State, data: seq<Byte>, mss: nat)
    requires Enabled(st, Send(data, mss))
    ensures Do(st, Send(data, mss)).s == AddBlocks(st.s, Chunks(data, mss)) && Do(st, Send(data, mss)).r == st.r
    ensures Do(st, Send(data, mss)).app == st.app + data && Do(st, Send(data, mss)).delivered == st.delivered
  {
    hide Chunks;
  }

  lemma {:induction false} DoPick(st: State)
    requires Enabled(st, PickRetransmission)
    ensures Do(st, PickRetransmission) == st.(s := PickLost(st.s, MinOf(st.s.loss)), pending := Some(MinOf(st.s.loss)))
  {
  }

  lemma {:induction false} DoRetransmission(st: State, most: int)
    requires Proper(st, most) && Enabled(st, SendRetransmission)
    ensures st.pending.value - st.s.lastDataAck < |st.s.blocks|
    ensures Do(st, SendRetransmission) == st.(pending := None, net := Put(st.net, ReadLost(st.s, st.pending.value)))
  {
  }

  lemma {:induction false} DoFresh(st: State, cw: int)
    requires Enabled(st, SendFresh(cw))
    ensures var (s, p) := PackNew(st.s, cw); Do(st, SendFresh(cw)) == st.(s := s, net := Put(st.net, p))
  {
  }

  lemma {:induction false} DoAck(st: State, most: int, k: int, ack: int, window: int, due: bool)
    requires Proper(st, most) && Enabled(st, RecvAck(k, ack, window, due))
    ensures var (s, p) := ConfirmAck(st.s, k, due);
            && !(s.lastDataAck < ack <= s.currSeq + 1 && !(ack - s.lastDataAck <= s.curr <= |s.blocks|))
            && Do(st, RecvAck(k, ack, window, due)) == st.(s := OnAck(s, ack, window), net := Put(st.net, p))
  {
    hide OnAck, ReceiverPart, InputOk;
  }

  lemma {:induction false} DoEmitAck(st: State, most: int, now: int, expired: bool)
    requires Proper(st, most)
    ensures st.r.historySize >= 2 && forall n :: st.r.lastAck <= n < Low(st.r) ==> n in st.r.ahead
    ensures var (r, p) := SendAck(st.r, now, expired);
            && Do(st, EmitAck(now, expired)).r == r && Do(st, EmitAck(now, expired)).s == st.s
            && Do(st, EmitAck(now, expired)).net == Put(st.net, p)
  {
    hide SendAck, Low, Put, Do;
    DoEmit(st, now, expired);
  }

  lemma {:induction false} DoRead(st: State, most: int, len: nat)
    requires Proper(st, most)
    ensures var (data, left, notch) := ReadUnits(st.r.unread, st.r.notch, len);
            Do(st, Read(len)) == st.(r := st.r.(unread := left, notch := notch), delivered := st.delivered + data)
  {
    hide ReadUnits;
  }

  lemma {:induction false} DoLiteAck(st: State, ack: int)
    requires Enabled(st, RecvLiteAck(ack))
    ensures Do(st, RecvLiteAck(ack)) == st.(s := OnLiteAck(st.s, ack))
  {
  }

  lemma {:induction false} DoNak(st: State, ranges: seq<Range>)
    requires Enabled(st, RecvNak(ranges))
    ensures Do(st, RecvNak(ranges)) == st.(s := OnNak(st.s, ranges))
  {
  }

  lemma {:induction false} DoTimeout(st: State)
    ensures Do(st, Timeout) == st.(s := OnTimeout(st.s))
  {
  }

  lemma {:induction false} DoEmitLite(st: State)
    ensures Do(st, EmitLiteAck) == st.(net := Put(st.net, SendLiteAck(st.r)))
  {
  }

  lemma {:induction false} DoEmitNak(st: State, ranges: seq<Range>)
    requires Enabled(st, EmitNak(ranges))
    ensures Do(st, EmitNak(ranges)) == st.(net := Put(st.net, Some(Nak(ranges))))
  {
  }

  lemma {:induction false} DoAck2(st: State, k: int, now: int)
    requires Enabled(st, RecvAck2(k, now))
    ensures Do(st, RecvAck2(k, now)) == st.(r := OnAck2(st.r, k, now))
  {
  }

  lemma {:induction false} FreshData(st: State, n: int, p: Payload)
    requires Fresh(st, RecvData(n, p))
    ensures Near(n, st.r.lastAck)
  {
  }

  lemma {:induction false} ReportNotEmpty(r: Receiver, n: int, p: Payload)
    ensures var o := OnData(r, n, p).1; o.Some? ==> o.value.Nak? && o.value.ranges != []
  {
  }

  lemma {:induction false} SomeWords(words: seq<Word>, ranges: seq<Range>)
    requires Encodes(words, ranges) && ranges != []
    ensures words != []
  {
  }

  lemma {:induction false} Left(w: Option<Wire>, p: Option<Packet>, before: set<Packet>)
    requires if p.Some? then w.Some? && Carries(w.value, p.value) else w == None
    ensures Leaves(w, before, Put(before, p))
  {
  }

  class Connection {
    const snd: SenderHalf
    const rcv: ReceiverHalf
    ghost const most: int
    ghost var st: State

    ghost predicate Apart()
    {
      {snd.lossList.data1, snd.lossList.data2, snd.lossList.next} !!
      {rcv.lossList.data1, rcv.lossList.data2, rcv.lossList.next, rcv.lossList.prior,
       rcv.ackWindow.ackSeqNo, rcv.ackWindow.ackNo, rcv.ackWindow.timeStamp}
    }

    ghost predicate Valid()
      reads this, snd, snd.buffer, snd.buffer.repr, snd.lossList, snd.lossList.data1, snd.lossList.data2
      reads snd.lossList.next
      reads rcv, rcv.buffer, rcv.buffer.slots, rcv.buffer.queue, rcv.buffer.units
      reads rcv.lossList, rcv.lossList.data1, rcv.lossList.data2, rcv.lossList.next, rcv.lossList.prior
      reads rcv.ackWindow, rcv.ackWindow.ackSeqNo, rcv.ackWindow.ackNo, rcv.ackWindow.timeStamp
    {
      && Apart() && snd.buffer.mss > 0 && snd.Valid() && rcv.Valid() && snd.Abs() == st.s && rcv.Abs() == st.r
      && Proper(st, most) && most <= snd.lossList.size && st.r.size - 2 <= rcv.lossList.size
    }

    /** A connection with the sizes the handshake gives: the sender's loss list twice as wide as the flow window. */
    constructor (isn: Seq31, sndSize: nat, mss: nat, window: int, rcvSize: nat, flightFlag: int, queue: UnitQueue,
                 windowSize: int, ackSeqNo: int, now: int)
      requires isn >= 1 && sndSize > 0 && mss > 0 && rcvSize > 0 && windowSize >= 2 && flightFlag > 0
      requires 1 <= window <= Most && rcvSize <= Most + 1
      requires rcvSize - 1 <= 2 * window && rcvSize - 2 <= flightFlag
      ensures Valid() && Init(st) && st.isn == isn && st.s.flowWindow == window && st.r.size == rcvSize
      ensures fresh(snd) && fresh(snd.buffer) && fresh(snd.buffer.repr) && fresh(snd.lossList)
      ensures fresh(snd.lossList.data1) && fresh(snd.lossList.data2) && fresh(snd.lossList.next)
      ensures fresh(rcv) && fresh(rcv.buffer) && fresh(rcv.buffer.slots)
      ensures rcv.buffer.queue == queue && rcv.buffer.units == {}
      ensures fresh(rcv.lossList) && fresh(rcv.lossList.data1) && fresh(rcv.lossList.data2)
      ensures fresh(rcv.lossList.next) && fresh(rcv.lossList.prior) && fresh(rcv.ackWindow)
      ensures fresh(rcv.ackWindow.ackSeqNo) && fresh(rcv.ackWindow.ackNo) && fresh(rcv.ackWindow.timeStamp)
    {
      hide SenderHalf.Valid, ReceiverHalf.Valid, SenderHalf.Abs, ReceiverHalf.Abs, Proper, Init, Beginning;
      BeginsProper(isn, window, rcvSize, ackSeqNo, windowSize);
      snd := new SenderHalf(isn, sndSize, mss, 2 * window, window);
      rcv := new ReceiverHalf(isn, rcvSize, queue, flightFlag, windowSize, ackSeqNo, now);
      most := Widest(window, rcvSize);
      st := Beginning(isn, window, rcvSize, ackSeqNo, windowSize);
    }

    /** send: the user's bytes become blocks. */
    method SendBytes(data: seq<Byte>)
      requires Valid() && data != []
      modifies this`st, snd.buffer, snd.buffer.repr
      ensures Valid() && Takes(old(st), Send(data, snd.buffer.mss), st)
      ensures st.app == old(st).app + data && st.delivered == old(st).delivered
      ensures fresh(snd.buffer.repr - old(snd.buffer.repr))
    {
      hide SenderHalf.Valid, ReceiverHalf.Valid, Proper, Bounded, RcvBounded, LossFits, Do, SenderHalf.Abs;
      hide ReceiverHalf.Abs;
      hide Chunks;
      ProperStep(st, most, Send(data, snd.buffer.mss));
      DoSend(st, data, snd.buffer.mss);
      snd.Send(data);
      st := Do(st, Send(data, snd.buffer.mss));
    }

    /** packData, first half: the least lost number, if there is one. */
    method PickLostSeq() returns (seqno: int)
      requires Valid() && st.pending == None
      modifies this`st, snd.lossList, snd.lossList.data1, snd.lossList.data2, snd.lossList.next
      ensures Valid()
      ensures old(st).s.loss == {} ==> seqno == -1 && st == old(st)
      ensures old(st).s.loss != {} ==>
                Takes(old(st), PickRetransmission, st) && st.pending.Some? && seqno == Wrap(st.pending.value)
    {
      hide SenderHalf.Valid, ReceiverHalf.Valid, Proper, Bounded, RcvBounded, LossFits, Do, SenderHalf.Abs;
      hide ReceiverHalf.Abs;
      if st.s.loss != {} {
        ProperStep(st, most, PickRetransmission);
        DoPick(st);
      }
      ghost var n;
      seqno, n := snd.PickLostSeq();
      if st.s.loss != {} {
        st := Do(st, PickRetransmission);
      }
    }

    /** packData, second half: the lost packet, unless it was acknowledged meanwhile. */
    method Retransmit(seqno: Seq31) returns (w: Option<Wire>)
      requires Valid() && st.pending.Some? && seqno == Wrap(st.pending.value) && Fresh(st, SendRetransmission)
      modifies this`st
      ensures Valid() && Takes(old(st), SendRetransmission, st) && Leaves(w, old(st).net, st.net)
    {
      hide SenderHalf.Valid, ReceiverHalf.Valid, Proper, Bounded, RcvBounded, LossFits, Do, ReceiverHalf.Abs;
      hide ReadLost;
      Ready(st, most);
      ProperStep(st, most, SendRetransmission);
      DoRetransmission(st, most);
      var p := snd.PackLost(seqno, st.pending.value);
      w := if p.Some? then Some(WireData(p.value.seqNo, p.value.payload)) else None;
      Left(w, ReadLost(st.s, st.pending.value), st.net);
      st := Do(st, SendRetransmission);
    }

    /** packData without a loss. */
    method SendNext(congestionWindow: int) returns (w: Option<Wire>)
      requires Valid() && Enabled(st, SendFresh(congestionWindow))
      modifies this`st, snd`currSeqNo, snd`currSeqN, snd.buffer`curr, snd.buffer`sent
      ensures Valid() && Takes(old(st), SendFresh(congestionWindow), st) && Leaves(w, old(st).net, st.net)
    {
      hide SenderHalf.Valid, ReceiverHalf.Valid, Proper, Bounded, RcvBounded, LossFits, Do, SenderHalf.Abs;
      hide ReceiverHalf.Abs;
      hide PackNew;
      Ready(st, most);
      ProperStep(st, most, SendFresh(congestionWindow));
      DoFresh(st, congestionWindow);
      var p := snd.PackFresh(congestionWindow);
      w := if p.Some? then Some(WireData(p.value.seqNo, p.value.payload)) else None;
      Left(w, PackNew(st.s, congestionWindow).1, st.net);
      st := Do(st, SendFresh(congestionWindow));
    }

    /** A lite ACK arrives. */
    method TakeLiteAck(ack: Seq31, ghost n: int)
      requires Valid() && ack == Wrap(n) && Enabled(st, RecvLiteAck(n)) && Fresh(st, RecvLiteAck(n))
      modifies this`st, snd`flowWindow, snd`lastAck, snd`lastAckN
      ensures Valid() && Takes(old(st), RecvLiteAck(n), st)
    {
      hide SenderHalf.Valid, ReceiverHalf.Valid, Proper, Bounded, RcvBounded, LossFits, Do, ReceiverHalf.Abs;
      hide OnLiteAck;
      ProperStep(st, most, RecvLiteAck(n));
      DoLiteAck(st, n);
      snd.ProcessLiteAck(ack, n);
      st := Do(st, RecvLiteAck(n));
    }

    /** A full ACK arrives, and is answered or not. */
    method TakeAck(ackNo: int, ack: Seq31, window: int, due: bool, ghost n: int) returns (w: Option<Wire>)
      requires Valid() && ack == Wrap(n)
      requires Enabled(st, RecvAck(ackNo, n, window, due)) && Fresh(st, RecvAck(ackNo, n, window, due))
      modifies this`st, snd, snd.buffer`first, snd.buffer`count, snd.buffer`ring, snd.buffer`sent
      modifies snd.lossList, snd.lossList.data1, snd.lossList.data2, snd.lossList.next
      ensures Valid() && Takes(old(st), RecvAck(ackNo, n, window, due), st) && Leaves(w, old(st).net, st.net)
    {
      hide SenderHalf.Valid, ReceiverHalf.Valid, Proper, Bounded, RcvBounded, LossFits, Do, ReceiverHalf.Abs;
      hide OnAck, ConfirmAck, Put, Leaves, Carries;
      Ready(st, most);
      ProperStep(st, most, RecvAck(ackNo, n, window, due));
      DoAck(st, most, ackNo, n, window, due);
      var reply := snd.ProcessAck(ackNo, ack, window, due, n);
      w := if reply.Some? then Some(WireAck2(reply.value)) else None;
      Left(w, ConfirmAck(st.s, ackNo, due).1, st.net);
      st := Do(st, RecvAck(ackNo, n, window, due));
    }

    /** A loss report arrives. */
    method TakeNak(words: seq<Word>, ghost ranges: seq<Range>)
      requires Valid() && Encodes(words, ranges) && Enabled(st, RecvNak(ranges)) && Fresh(st, RecvNak(ranges))
      modifies this`st, snd`broken, snd.lossList, snd.lossList.data1, snd.lossList.data2, snd.lossList.next
      ensures Valid() && Takes(old(st), RecvNak(ranges), st)
    {
      hide SenderHalf.Valid, ReceiverHalf.Valid, Proper, Bounded, RcvBounded, LossFits, Do, SenderHalf.Abs;
      hide ReceiverHalf.Abs;
      hide OnNak;
      Ready(st, most);
      ProperStep(st, most, RecvNak(ranges));
      DoNak(st, ranges);
      Ready(Do(st, RecvNak(ranges)), most);
      snd.ProcessNak(words, ranges);
      st := Do(st, RecvNak(ranges));
    }

    /** The expiration branch of checkTimers. */
    method Expire()
      requires Valid()
      modifies this`st, snd.lossList, snd.lossList.data1, snd.lossList.data2, snd.lossList.next
      ensures Valid() && Takes(old(st), Timeout, st)
    {
      hide SenderHalf.Valid, ReceiverHalf.Valid, Proper, Bounded, RcvBounded, LossFits, Do, SenderHalf.Abs;
      hide ReceiverHalf.Abs;
      hide OnTimeout;
      Ready(st, most);
      ProperStep(st, most, Timeout);
      DoTimeout(st);
      Ready(Do(st, Timeout), most);
      snd.Expire();
      st := Do(st, Timeout);
    }

    /** A data packet arrives in a unit of the queue; a report leaves if a gap opens. */
    method TakeData(unit: CUnit, seqno: Seq31, now: int, ghost n: int) returns (w: Option<Wire>)
      requires Valid() && unit.flag == 0 && seqno == Wrap(n)
      requires Enabled(st, RecvData(n, unit.data.payload)) && Fresh(st, RecvData(n, unit.data.payload))
      modifies this`st, rcv`currSeqNo, rcv`currSeqN
      modifies rcv.buffer`maxPos, rcv.buffer`cells, rcv.buffer`units, rcv.buffer.slots, rcv.buffer.queue, unit
      modifies rcv.lossList, rcv.lossList.data1, rcv.lossList.data2, rcv.lossList.next, rcv.lossList.prior
      ensures Valid() && Takes(old(st), RecvData(n, old(unit.data.payload)), st) && Leaves(w, old(st).net, st.net)
      ensures rcv.buffer.units - old(rcv.buffer.units) <= {unit}
    {
      hide SenderHalf.Valid, ReceiverHalf.Valid, Proper, Bounded, RcvBounded, LossFits, Do, SenderHalf.Abs;
      hide ReceiverHalf.Abs;
      hide OnData, Decode, Encodes, Put, Leaves, Carries, Fresh, Enabled;
      ghost var p := unit.data.payload;
      FreshData(st, n, p);
      Ready(st, most);
      ProperStep(st, most, RecvData(n, p));
      DoData(st, n, p);
      Ready(Do(st, RecvData(n, p)), most);
      w := Feed(unit, seqno, now, n);
      Left(w, OnData(st.r, n, p).1, st.net);
      st := Do(st, RecvData(n, p));
    }

    /** The receiver's part of that, which leaves the sender alone. */
    method Feed(unit: CUnit, seqno: Seq31, now: int, ghost n: int) returns (w: Option<Wire>)
      requires Apart() && snd.Valid() && rcv.Valid() && unit.flag == 0 && seqno == Wrap(n)
      requires RcvBounded(rcv.Abs()) && Near(n, rcv.Abs().lastAck)
      requires LossFits(rcv.Abs().loss, rcv.lossList.size)
      requires LossFits(OnData(rcv.Abs(), n, unit.data.payload).0.loss, rcv.lossList.size)
      modifies rcv`currSeqNo, rcv`currSeqN
      modifies rcv.buffer`maxPos, rcv.buffer`cells, rcv.buffer`units, rcv.buffer.slots, rcv.buffer.queue, unit
      modifies rcv.lossList, rcv.lossList.data1, rcv.lossList.data2, rcv.lossList.next, rcv.lossList.prior
      ensures snd.Valid() && rcv.Valid() && snd.Abs() == old(snd.Abs())
      ensures rcv.Abs() == OnData(old(rcv.Abs()), n, old(unit.data.payload)).0
      ensures match OnData(old(rcv.Abs()), n, old(unit.data.payload)).1
              case None => w == None
              case Some(sent) => w.Some? && Carries(w.value, sent)
      ensures rcv.buffer.units - old(rcv.buffer.units) <= {unit}
    {
      hide SenderHalf.Valid, ReceiverHalf.Valid, RcvBounded, LossFits, SenderHalf.Abs, OnData, Decode, Encodes;
      rcv.Shape();
      ghost var report := OnData(rcv.Abs(), n, unit.data.payload).1;
      ReportNotEmpty(rcv.Abs(), n, unit.data.payload);
      var _, words := rcv.ProcessData(unit, seqno, now, n);
      w := if words != [] then Some(WireNak(words)) else None;
      if report.Some? {
        SomeWords(words, report.value.ranges);
      }
    }

    /** A lite ACK may leave. */
    method EmitLite() returns (w: Option<Wire>)
      requires Valid()
      modifies this`st
      ensures Valid() && Takes(old(st), EmitLiteAck, st) && Leaves(w, old(st).net, st.net)
    {
      hide SenderHalf.Valid, ReceiverHalf.Valid, Proper, Bounded, RcvBounded, LossFits, Do, SenderHalf.Abs;
      hide ReceiverHalf.Abs;
      hide SendLiteAck, Low;
      Ready(st, most);
      ProperStep(st, most, EmitLiteAck);
      DoEmitLite(st);
      var p := rcv.SendLite();
      w := if p.Some? then Some(WireLiteAck(p.value)) else None;
      Left(w, SendLiteAck(st.r), st.net);
      st := Do(st, EmitLiteAck);
    }

    /** A full ACK may leave. */
    method EmitFull(now: int, expired: bool) returns (w: Option<Wire>)
      requires Valid()
      modifies this`st, rcv`lastAck, rcv`lastAckN, rcv`ackSeqNo, rcv`history
      modifies rcv.buffer`lastAckPos, rcv.buffer`maxPos, rcv.buffer`acked
      modifies rcv.ackWindow`head, rcv.ackWindow`tail
      modifies rcv.ackWindow.ackSeqNo, rcv.ackWindow.ackNo, rcv.ackWindow.timeStamp
      ensures Valid() && Takes(old(st), EmitAck(now, expired), st) && Leaves(w, old(st).net, st.net)
    {
      hide SenderHalf.Valid, ReceiverHalf.Valid, Proper, Bounded, RcvBounded, LossFits, Do, SenderHalf.Abs;
      hide SendAck, Low;
      Ready(st, most);
      ProperStep(st, most, EmitAck(now, expired));
      DoEmitAck(st, most, now, expired);
      var p := rcv.SendFullAck(now, expired);
      w := if p.Some? then Some(WireAck(p.value.ackNo, p.value.ack, p.value.window)) else None;
      Left(w, SendAck(st.r, now, expired).1, st.net);
      st := Do(st, EmitAck(now, expired));
    }

    /** The periodic loss report may leave. */
    method EmitReport(limit: nat, threshold: int, now: int) returns (w: Option<Wire>, ghost ranges: seq<Range>)
      requires Valid()
      modifies this`st, rcv.lossList`timeStamp
      ensures Valid()
      ensures w == None ==> st == old(st)
      ensures w.Some? ==> Takes(old(st), EmitNak(ranges), st) && Leaves(w, old(st).net, st.net)
      ensures w.Some? <==> old(st).r.loss != {} && now - old(rcv.lossList.timeStamp) >= threshold && limit > 1
    {
      hide SenderHalf.Valid, ReceiverHalf.Valid, Proper, Bounded, RcvBounded, LossFits, Do, SenderHalf.Abs;
      hide ReceiverHalf.Abs;
      var report;
      report, ranges := rcv.SendNak(limit, threshold, now);
      w := None;
      if report != [] {
        w := Some(WireNak(report));
        ProperStep(st, most, EmitNak(ranges));
        DoEmitNak(st, ranges);
        Left(w, Some(Nak(ranges)), st.net);
        st := Do(st, EmitNak(ranges));
      }
    }

    /** An ACK2 arrives. */
    method TakeAck2(ackNo: int, now: int)
      requires Valid() && Enabled(st, RecvAck2(ackNo, now))
      modifies this`st, rcv`lastAckAck, rcv`lastAckAckN, rcv`history
      modifies rcv.ackWindow`head, rcv.ackWindow`tail, rcv.ackWindow.ackSeqNo
      ensures Valid() && Takes(old(st), RecvAck2(ackNo, now), st)
    {
      hide SenderHalf.Valid, ReceiverHalf.Valid, Proper, Bounded, RcvBounded, LossFits, Do, SenderHalf.Abs;
      hide ReceiverHalf.Abs;
      hide OnAck2;
      ProperStep(st, most, RecvAck2(ackNo, now));
      DoAck2(st, ackNo, now);
      rcv.ProcessAck2(ackNo, now);
      st := Do(st, RecvAck2(ackNo, now));
    }

    /** recv: all that was ever returned is the start of all that was ever given to send. */
    method Recv(len: nat) returns (data: seq<Byte>)
      requires Valid()
      modifies this`st, rcv.buffer`startPos, rcv.buffer`notch, rcv.buffer`cells, rcv.buffer`acked
      modifies rcv.buffer.slots, rcv.buffer.queue, rcv.buffer.units
      ensures Valid() && Takes(old(st), Read(len), st)
      ensures st.delivered == old(st).delivered + data && st.app == old(st).app && st.delivered <= st.app
    {
      hide SenderHalf.Valid, ReceiverHalf.Valid, Proper, Bounded, RcvBounded, LossFits, Do, SenderHalf.Abs;
      hide ReceiverHalf.Abs;
      hide ReadUnits;
      Ready(st, most);
      ProperStep(st, most, Read(len));
      Ready(Do(st, Read(len)), most);
      DoRead(st, most, len);
      data := rcv.Read(len);
      st := Do(st, Read(len));
    }
  }
}
