/** Both parties and the network between them. The network keeps every packet ever sent: a packet may
    be delivered never, once, or many times, in any order, at any later moment. */
module ProtocolRun {
  import opened Bytes
  import opened AckHistory
  import opened Numbers
  import opened Protocol

  datatype State = State(
    isn: int,
    s: Sender,
    r: Receiver,
    pending: Option<int>,   // a number taken by getLostSeq whose block is not read yet
    net: set<Packet>,
    fault: bool,            // some step touched a block or slot that is not there
    app: seq<Byte>,         // history: all bytes given to send
    input: seq<Payload>,    // history: all blocks made of them, the one numbered isn first
    delivered: seq<Byte>,   // history: all bytes returned by recv
    ackOf: map<int, int>)   // history: the data number carried by each full ACK

  datatype Step =
    | Send(data: seq<Byte>, mss: nat)
    | PickRetransmission
    | SendRetransmission
    | SendFresh(congestionWindow: int)
    | RecvLiteAck(ack: int)
    | RecvAck(ackNo: int, ack: int, window: int, due: bool)
    | RecvNak(ranges: seq<Range>)
    | Timeout
    | RecvData(seqNo: int, payload: Payload)
    | EmitLiteAck
    | EmitAck(now: int, expired: bool)
    | EmitNak(ranges: seq<Range>)
    | RecvAck2(ackNo: int, now: int)
    | Read(len: nat)

  ghost predicate Init(st: State)
  {
    && st.s == Sender([], 0, st.isn, st.isn, st.isn - 1, {}, st.s.flowWindow, st.isn, false)
    && st.r.size >= 1 && st.r.historySize >= 2
    && st.r == Receiver(st.r.size, [], 0, map[], st.isn, st.isn, st.isn - 1, {}, st.r.ackSeqNo, [], st.r.historySize)
    && st.pending == None && st.net == {} && !st.fault
    && st.app == [] && st.input == [] && st.delivered == [] && st.ackOf == map[]
  }

  /** When a step can happen: a packet must have been sent before it is received. */
  ghost predicate Enabled(st: State, step: Step)
  {
    match step
    case Send(data, mss) => data != [] && mss > 0
    case PickRetransmission => st.pending == None && st.s.loss != {}
    case SendRetransmission => st.pending.Some?
    case SendFresh(_) => st.pending == None && st.s.loss == {}
    case RecvLiteAck(ack) => LiteAck(ack) in st.net
    case RecvAck(k, ack, window, _) => Ack(k, ack, window) in st.net
    case RecvNak(ranges) => Nak(ranges) in st.net
    case Timeout => true
    case RecvData(n, p) => Data(n, p) in st.net
    case EmitLiteAck => true
    case EmitAck(_, _) => true
    case EmitNak(ranges) => forall x :: x in ranges ==> x.lo <= x.hi && Span(x.lo, x.hi) <= st.r.loss
    case RecvAck2(k, _) => Ack2(k) in st.net
    case Read(_) => true
  }

  ghost function Put(net: set<Packet>, p: Option<Packet>): set<Packet>
  {
    if p.Some? then net + {p.value} else net
  }

  ghost function Do(st: State, step: Step): State
    requires Enabled(st, step)
  {
    match step
    case Send(data, mss) =>
      var ps := Chunks(data, mss);
      st.(s := AddBlocks(st.s, ps), input := st.input + ps, app := st.app + data)
    case PickRetransmission =>
      var n := MinOf(st.s.loss);
      st.(s := PickLost(st.s, n), pending := Some(n))
    case SendRetransmission =>
      var n := st.pending.value;
      if n - st.s.lastDataAck >= |st.s.blocks| then st.(fault := true)
      else st.(pending := None, net := Put(st.net, ReadLost(st.s, n)))
    case SendFresh(cw) =>
      var (s, p) := PackNew(st.s, cw);
      st.(s := s, net := Put(st.net, p))
    case RecvLiteAck(ack) => st.(s := OnLiteAck(st.s, ack))
    case RecvAck(k, ack, window, due) =>
      var (s, p) := ConfirmAck(st.s, k, due);
      if s.lastDataAck < ack <= s.currSeq + 1 && !(ack - s.lastDataAck <= s.curr <= |s.blocks|) then st.(fault := true)
      else st.(s := OnAck(s, ack, window), net := Put(st.net, p))
    case RecvNak(ranges) => st.(s := OnNak(st.s, ranges))
    case Timeout => st.(s := OnTimeout(st.s))
    case RecvData(n, p) =>
      var (r, report) := OnData(st.r, n, p);
      st.(r := r, net := Put(st.net, report))
    case EmitLiteAck => st.(net := Put(st.net, SendLiteAck(st.r)))
    case EmitAck(now, expired) =>
      if st.r.historySize < 2 || exists n :: st.r.lastAck <= n < Low(st.r) && n !in st.r.ahead then st.(fault := true)
      else
        var (r, p) := SendAck(st.r, now, expired);
        st.(r := r, net := Put(st.net, p),
            ackOf := if p.Some? then st.ackOf[r.ackSeqNo := r.lastAck] else st.ackOf)
    case EmitNak(ranges) => st.(net := st.net + {Nak(ranges)})
    case RecvAck2(k, now) => st.(r := OnAck2(st.r, k, now))
    case Read(len) =>
      if st.r.unread != [] && st.r.notch > |st.r.unread[0]| then st.(fault := true)
      else
        var (data, left, notch) := ReadUnits(st.r.unread, st.r.notch, len);
        st.(r := st.r.(unread := left, notch := notch), delivered := st.delivered + data)
  }

  /** A finite run: states and the steps between them. */
  ghost predicate IsRun(trace: seq<State>, steps: seq<Step>)
  {
    && |trace| == |steps| + 1
    && Init(trace[0])
    && forall i :: 0 <= i < |steps| ==> Enabled(trace[i], steps[i]) && trace[i + 1] == Do(trace[i], steps[i])
  }
}
