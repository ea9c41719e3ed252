/** What every step of the protocol keeps, and what therefore holds in every reachable state. */
module ProtocolSafety {
  import opened Bytes
  import opened AckHistory
  import opened Numbers
  import opened Protocol
  import opened ProtocolRun

  // ---------- the invariant ----------

  /** The send buffer holds exactly the blocks from lastDataAck on: the block numbered n is at distance
      n - lastDataAck, and curr marks the first one never sent. */
  ghost predicate SenderOk(isn: int, input: seq<Payload>, s: Sender)
  {
    && isn <= s.lastDataAck <= s.lastAck <= s.currSeq + 1
    && s.curr == s.currSeq + 1 - s.lastDataAck <= |s.blocks|
    && s.lastDataAck - isn + |s.blocks| == |input|
    && (forall i :: 0 <= i < |s.blocks| ==> s.blocks[i] == input[s.lastDataAck - isn + i])
    && (forall n :: n in s.loss ==> s.lastDataAck <= n <= s.currSeq)
    && !s.broken
  }

  /** The receiver's books: the slots from lastAck on that are empty are exactly the loss list. */
  ghost predicate ReceiverOk(isn: int, input: seq<Payload>, r: Receiver)
  {
    && isn <= r.lastAck - |r.unread|
    && r.lastAck <= r.currSeq + 1 <= isn + |input|
    && (forall n :: n in r.loss ==> r.lastAck <= n < r.currSeq)
    && (forall n :: n in r.ahead <==> r.lastAck <= n <= r.currSeq && n !in r.loss)
    && (forall n :: n in r.ahead ==> r.ahead[n] == input[n - isn])
    && (forall i :: 0 <= i < |r.unread| ==> r.unread[i] == input[r.lastAck - |r.unread| - isn + i])
    && |r.unread| + (r.currSeq + 1 - r.lastAck) <= r.size - 1
    && r.historySize >= 2
    && r.lastAckAck <= r.lastAck
  }

  ghost predicate NotchOk(r: Receiver)
  {
    if r.unread == [] then r.notch == 0 else r.notch < |r.unread[0]|
  }

  /** What the receiver's application has, and can have, is the start of what the sender's gave. */
  ghost predicate DeliveryOk(isn: int, input: seq<Payload>, r: Receiver, delivered: seq<Byte>)
    requires ReceiverOk(isn, input, r)
  {
    delivered + Readable(r.unread, r.notch) == Flatten(input[..r.lastAck - isn])
  }

  /** What a packet in the network may say. */
  ghost predicate PacketOk(st: State, p: Packet)
  {
    match p
    case Data(n, payload) =>
      st.isn <= n <= st.s.currSeq && n - st.isn < |st.input| && payload == st.input[n - st.isn]
    case Ack(k, a, window) => k in st.ackOf && st.ackOf[k] == a && window >= 2
    case LiteAck(a) => a <= Low(st.r)
    case Ack2(k) => k in st.ackOf && st.ackOf[k] <= st.s.lastAck
    case Nak(ranges) => forall x :: x in ranges ==> x.lo <= x.hi <= st.r.currSeq
  }

  /** Every record of the ACK history, and every confirmed number, is a full ACK really sent. */
  ghost predicate HistoryOk(st: State)
  {
    && (forall k :: k in st.ackOf ==> k <= st.r.ackSeqNo && st.ackOf[k] <= st.r.lastAck)
    && (forall x :: x in st.r.history ==> x.ackNo in st.ackOf && st.ackOf[x.ackNo] == x.ack)
  }

  ghost predicate InputOk(st: State)
  {
    && Flatten(st.input) == st.app
    && forall p :: p in st.input ==> p != []
  }

  ghost predicate ReceiverPart(st: State)
  {
    && ReceiverOk(st.isn, st.input, st.r)
    && NotchOk(st.r)
    && DeliveryOk(st.isn, st.input, st.r, st.delivered)
    && HistoryOk(st)
  }

  ghost predicate Inv(st: State)
  {
    && !st.fault
    && InputOk(st)
    && SenderOk(st.isn, st.input, st.s)
    && ReceiverPart(st)
    && st.r.currSeq <= st.s.currSeq
    && st.s.lastAck <= Low(st.r)
    && st.r.lastAckAck <= st.s.lastAck
    && (st.pending.Some? ==> st.pending.value <= st.s.currSeq)
    && forall p :: p in st.net ==> PacketOk(st, p)
  }

  // ---------- the lowest missing number ----------

  lemma {:induction false} LowIs(isn: int, input: seq<Payload>, r: Receiver)
    requires ReceiverOk(isn, input, r)
    ensures r.lastAck <= Low(r) <= r.currSeq + 1
    ensures forall n :: r.lastAck <= n < Low(r) ==> n in r.ahead
    ensures Low(r) <= r.currSeq ==> Low(r) in r.loss
  {
  }

  /** Any lower bound on the losses that does not pass the end is below Low. */
  lemma {:induction false} LowAtLeast(r: Receiver, k: int)
    requires k <= r.currSeq + 1 && forall n :: n in r.loss ==> k <= n
    ensures k <= Low(r)
  {
  }

  // ---------- assembling the invariant after a step ----------

  /** Packets stay acceptable when both parties only move forward. */
  lemma {:induction false} PacketsStay(st: State, st': State)
    requires Inv(st)
    requires st'.isn == st.isn && st.input <= st'.input
    requires st.s.currSeq <= st'.s.currSeq && st.s.lastAck <= st'.s.lastAck
    requires Low(st.r) <= Low(st'.r) && st.r.currSeq <= st'.r.currSeq
    requires forall k :: k in st.ackOf ==> k in st'.ackOf && st'.ackOf[k] == st.ackOf[k]
    ensures forall p :: p in st.net ==> PacketOk(st', p)
  {
    forall p | p in st.net ensures PacketOk(st', p) {
      assert PacketOk(st, p);
    }
  }

  /** A step of the sender that leaves the receiver and the input alone. */
  lemma {:induction false} SenderStep(st: State, st': State, p: Option<Packet>)
    requires Inv(st)
    requires st' == st.(s := st'.s, pending := st'.pending, net := Put(st.net, p))
    requires SenderOk(st.isn, st.input, st'.s)
    requires st.s.currSeq <= st'.s.currSeq && st.s.lastAck <= st'.s.lastAck <= Low(st.r)
    requires st'.pending.Some? ==> st'.pending.value <= st'.s.currSeq
    requires p.Some? ==> PacketOk(st', p.value)
    ensures Inv(st')
  {
    PacketsStay(st, st');
    assert HistoryOk(st');
  }

  /** A step of the receiver. */
  lemma {:induction false} ReceiverStep(st: State, st': State, p: Option<Packet>)
    requires Inv(st)
    requires st' == st.(r := st'.r, net := Put(st.net, p), delivered := st'.delivered, ackOf := st'.ackOf)
    requires ReceiverPart(st')
    requires Low(st.r) <= Low(st'.r) && st.r.currSeq <= st'.r.currSeq <= st.s.currSeq
    requires st'.r.lastAckAck <= st.s.lastAck
    requires forall k :: k in st.ackOf ==> k in st'.ackOf && st'.ackOf[k] == st.ackOf[k]
    requires p.Some? ==> PacketOk(st', p.value)
    ensures Inv(st')
  {
    PacketsStay(st, st');
  }

  // ---------- sender steps ----------

  lemma {:induction false} SendKeeps(st: State, data: seq<Byte>, mss: nat)
    requires Inv(st) && Enabled(st, Send(data, mss))
    ensures Inv(Do(st, Send(data, mss)))
  {
    hide Chunks, Flatten, Low, Readable;
    var st', ps := Do(st, Send(data, mss)), Chunks(data, mss);
    ChunksFlatten(data, mss);
    FlattenAppend(st.input, ps);
    assert SenderOk(st'.isn, st'.input, st'.s);
    MoreInput(st, ps, st');
    PacketsStay(st, st');
  }

  /** More input changes nothing for the receiver. */
  lemma {:induction false} MoreInput(st: State, ps: seq<Payload>, st': State)
    requires ReceiverPart(st)
    requires st' == st.(s := st'.s, input := st.input + ps, app := st'.app)
    ensures ReceiverPart(st')
  {
    hide Flatten, Readable;
    assert ReceiverOk(st'.isn, st'.input, st'.r);
    var k := st.r.lastAck - st.isn;
    assert st'.input[..k] == st.input[..k];
    assert HistoryOk(st');
  }

  lemma {:induction false} PickKeeps(st: State)
    requires Inv(st) && Enabled(st, PickRetransmission)
    ensures Inv(Do(st, PickRetransmission))
  {
    SenderStep(st, Do(st, PickRetransmission), None);
  }

  lemma {:induction false} TimeoutKeeps(st: State)
    requires Inv(st)
    ensures Inv(Do(st, Timeout))
  {
    SenderStep(st, Do(st, Timeout), None);
  }

  lemma {:induction false} SendRetransmissionKeeps(st: State)
    requires Inv(st) && Enabled(st, SendRetransmission)
    ensures Inv(Do(st, SendRetransmission))
  {
    var p := ReadLost(st.s, st.pending.value);
    SenderStep(st, Do(st, SendRetransmission), p);
  }

  lemma {:induction false} SendFreshKeeps(st: State, cw: int)
    requires Inv(st) && Enabled(st, SendFresh(cw))
    ensures Inv(Do(st, SendFresh(cw)))
  {
    var (s, p) := PackNew(st.s, cw);
    SenderStep(st, Do(st, SendFresh(cw)), p);
  }

  lemma {:induction false} LiteAckKeeps(st: State, ack: int)
    requires Inv(st) && Enabled(st, RecvLiteAck(ack))
    ensures Inv(Do(st, RecvLiteAck(ack)))
  {
    assert PacketOk(st, LiteAck(ack));
    LowIs(st.isn, st.input, st.r);
    SenderStep(st, Do(st, RecvLiteAck(ack)), None);
  }

  lemma {:induction false} AckKeepsSender(isn: int, input: seq<Payload>, s: Sender, ack: int, window: int)
    requires SenderOk(isn, input, s) && ack <= s.currSeq + 1
    ensures var t := OnAck(s, ack, window);
            SenderOk(isn, input, t) && s.currSeq == t.currSeq &&
            t.lastAck == if ack >= s.lastAck then ack else s.lastAck
  {
  }

  lemma {:induction false} AckKeeps(st: State, k: int, ack: int, window: int, due: bool)
    requires Inv(st) && Enabled(st, RecvAck(k, ack, window, due))
    ensures Inv(Do(st, RecvAck(k, ack, window, due)))
  {
    assert PacketOk(st, Ack(k, ack, window));
    LowIs(st.isn, st.input, st.r);
    var (s, p) := ConfirmAck(st.s, k, due);
    AckKeepsSender(st.isn, st.input, s, ack, window);
    SenderStep(st, Do(st, RecvAck(k, ack, window, due)), p);
  }

  /** An honest loss report never takes the exit that breaks the connection. */
  lemma {:induction false} NakIsHonest(s: Sender, ranges: seq<Range>)
    requires s.lastDataAck <= s.lastAck && !s.broken
    requires forall n :: n in s.loss ==> s.lastDataAck <= n <= s.currSeq
    requires forall x :: x in ranges ==> x.lo <= x.hi <= s.currSeq
    ensures var t := OnNak(s, ranges);
            t == s.(loss := t.loss) && forall n :: n in t.loss ==> s.lastDataAck <= n <= s.currSeq
    decreases |ranges|
  {
    if ranges != [] {
      var lo := if ranges[0].lo >= s.lastAck then ranges[0].lo else s.lastAck;
      NakIsHonest(s.(loss := s.loss + Span(lo, ranges[0].hi)), ranges[1..]);
    }
  }

  lemma {:induction false} NakKeeps(st: State, ranges: seq<Range>)
    requires Inv(st) && Enabled(st, RecvNak(ranges))
    ensures Inv(Do(st, RecvNak(ranges)))
  {
    hide OnNak, ReceiverPart, InputOk, Low, Span;
    assert PacketOk(st, Nak(ranges));
    NakIsHonest(st.s, ranges);
    SenderStep(st, Do(st, RecvNak(ranges)), None);
  }

  // ---------- receiver steps ----------

  /** A data packet carrying the block with its number keeps the books exact: after a gap it enters the
      skipped numbers into the loss list, in order it enters nothing, late it leaves the loss list. */
  lemma {:induction false} DataKeepsReceiver(isn: int, input: seq<Payload>, r: Receiver, n: int)
    requires ReceiverOk(isn, input, r)
    requires isn <= n < isn + |input|
    ensures ReceiverOk(isn, input, OnData(r, n, input[n - isn]).0)
  {
    hide ReceiverOk, Span;
    var p := input[n - isn];
    var r' := OnData(r, n, p).0;
    if n < r.lastAck || n - r.lastAck >= Available(r) || n in r.ahead {
      assert r' == r;
    } else if n > r.currSeq + 1 {
      GapKeepsReceiver(isn, input, r, n, r');
    } else if n > r.currSeq {
      NextKeepsReceiver(isn, input, r, r');
    } else {
      FillKeepsReceiver(isn, input, r, n, r');
    }
  }

  lemma {:induction false} GapKeepsReceiver(isn: int, input: seq<Payload>, r: Receiver, n: int, r': Receiver)
    requires ReceiverOk(isn, input, r) && isn <= n < isn + |input|
    requires r.currSeq + 1 < n && n - r.lastAck < Available(r)
    requires r' == r.(ahead := r.ahead[n := input[n - isn]], loss := r.loss + Span(r.currSeq + 1, n - 1), currSeq := n)
    ensures ReceiverOk(isn, input, r')
  {
  }

  lemma {:induction false} NextKeepsReceiver(isn: int, input: seq<Payload>, r: Receiver, r': Receiver)
    requires ReceiverOk(isn, input, r) && r.currSeq + 1 < isn + |input|
    requires r.currSeq + 1 - r.lastAck < Available(r)
    requires r' == r.(ahead := r.ahead[r.currSeq + 1 := input[r.currSeq + 1 - isn]], currSeq := r.currSeq + 1)
    ensures ReceiverOk(isn, input, r')
  {
  }

  lemma {:induction false} FillKeepsReceiver(isn: int, input: seq<Payload>, r: Receiver, n: int, r': Receiver)
    requires ReceiverOk(isn, input, r) && isn <= n < isn + |input|
    requires r.lastAck <= n <= r.currSeq && n !in r.ahead
    requires r' == r.(ahead := r.ahead[n := input[n - isn]], loss := r.loss - {n})
    ensures ReceiverOk(isn, input, r')
  {
  }

  lemma {:induction false} DataMovesForward(isn: int, input: seq<Payload>, r: Receiver, n: int, p: Payload)
    requires ReceiverOk(isn, input, r) && ReceiverOk(isn, input, OnData(r, n, p).0)
    ensures var (r', report) := OnData(r, n, p);
            && Low(r) <= Low(r')
            && r.currSeq <= r'.currSeq <= (if n > r.currSeq then n else r.currSeq)
            && (report.Some? ==>
                  report.value.Nak? && forall x :: x in report.value.ranges ==> x.lo <= x.hi <= r'.currSeq)
  {
    LowIs(isn, input, r);
    LowAtLeast(OnData(r, n, p).0, Low(r));
  }

  /** Storing a data packet touches neither what is readable nor the ACK history. */
  lemma {:induction false} DataLeaves(st: State, n: int, p: Payload, st': State)
    requires NotchOk(st.r) && HistoryOk(st) && ReceiverOk(st.isn, st.input, st.r)
    requires DeliveryOk(st.isn, st.input, st.r, st.delivered)
    requires st' == st.(r := OnData(st.r, n, p).0, net := st'.net)
    requires ReceiverOk(st'.isn, st'.input, st'.r)
    ensures NotchOk(st'.r) && HistoryOk(st') && DeliveryOk(st'.isn, st'.input, st'.r, st'.delivered)
    ensures st'.r.lastAckAck == st.r.lastAckAck
  {
    hide ReceiverOk, Flatten, Readable, Span;
    var r := OnData(st.r, n, p).0;
    assert r == st.r.(ahead := r.ahead, loss := r.loss, currSeq := r.currSeq);
    hide OnData;
  }

  lemma {:induction false} DataKeeps(st: State, n: int, p: Payload)
    requires Inv(st) && Enabled(st, RecvData(n, p))
    ensures Inv(Do(st, RecvData(n, p)))
  {
    hide SenderOk, InputOk, Do, Put, OnData, ReceiverOk, NotchOk, HistoryOk, DeliveryOk, Readable, Low;
    assert PacketOk(st, Data(n, p));
    DataKeepsReceiver(st.isn, st.input, st.r, n);
    DataMovesForward(st.isn, st.input, st.r, n, p);
    var (r, report) := OnData(st.r, n, p);
    var st' := Do(st, RecvData(n, p));
    DoData(st, n, p);
    DataLeaves(st, n, p, st');
    ReceiverStep(st, st', report);
  }

  lemma {:induction false} DoData(st: State, n: int, p: Payload)
    requires Enabled(st, RecvData(n, p))
    ensures var (r, report) := OnData(st.r, n, p);
            Do(st, RecvData(n, p)) == st.(r := r, net := Put(st.net, report))
  {
    hide OnData, Put;
  }

  lemma {:induction false} DoEmit(st: State, now: int, expired: bool)
    requires Inv(st)
    ensures st.r.historySize >= 2 && forall n :: st.r.lastAck <= n < Low(st.r) ==> n in st.r.ahead
    ensures var (r, p) := SendAck(st.r, now, expired);
            Do(st, EmitAck(now, expired)) ==
              st.(r := r, net := Put(st.net, p),
                  ackOf := if p.Some? then st.ackOf[r.ackSeqNo := r.lastAck] else st.ackOf)
  {
    LowIs(st.isn, st.input, st.r);
    hide SendAck, Low, Put;
  }

  lemma {:induction false} LiteAckEmitKeeps(st: State)
    requires Inv(st)
    ensures Inv(Do(st, EmitLiteAck))
  {
    ReceiverStep(st, Do(st, EmitLiteAck), SendLiteAck(st.r));
  }

  lemma {:induction false} StoredIs(isn: int, input: seq<Payload>, ahead: map<int, Payload>, lo: int, hi: int)
    requires isn <= lo <= hi <= isn + |input|
    requires forall n :: lo <= n < hi ==> n in ahead && ahead[n] == input[n - isn]
    ensures Stored(ahead, lo, hi) == input[lo - isn..hi - isn]
    decreases hi - lo
  {
    if lo < hi {
      StoredIs(isn, input, ahead, lo + 1, hi);
      assert input[lo - isn..hi - isn] == [input[lo - isn]] + input[lo + 1 - isn..hi - isn];
    }
  }

  lemma {:induction false} AdvanceKeepsBooks(isn: int, input: seq<Payload>, r: Receiver)
    requires ReceiverOk(isn, input, r) && r.lastAck < Low(r)
    requires forall n :: r.lastAck <= n < Low(r) ==> n in r.ahead
    ensures var t := Advance(r, Low(r));
            && ReceiverOk(isn, input, t) && Low(t) == Low(r)
            && t.unread == r.unread + input[r.lastAck - isn..Low(r) - isn]
  {
    LowIs(isn, input, r);
    StoredIs(isn, input, r.ahead, r.lastAck, Low(r));
    var t := Advance(r, Low(r));
    assert t.loss == r.loss && t.currSeq == r.currSeq;
  }

  lemma {:induction false} ReadableAppend(units: seq<Payload>, notch: nat, more: seq<Payload>)
    requires if units == [] then notch == 0 else notch <= |units[0]|
    ensures Readable(units + more, notch) == Readable(units, notch) + Flatten(more)
  {
    FlattenAppend(units, more);
    if units == [] {
      assert Flatten(units) == [];
    } else {
      assert |Flatten(units)| >= |units[0]|;
    }
  }

  lemma {:induction false} AdvanceKeeps(isn: int, input: seq<Payload>, r: Receiver, delivered: seq<Byte>)
    requires ReceiverOk(isn, input, r) && NotchOk(r) && DeliveryOk(isn, input, r, delivered)
    requires forall p :: p in input ==> p != []
    requires r.lastAck < Low(r)
    requires forall n :: r.lastAck <= n < Low(r) ==> n in r.ahead
    ensures var t := Advance(r, Low(r));
            ReceiverOk(isn, input, t) && NotchOk(t) && DeliveryOk(isn, input, t, delivered) && Low(t) == Low(r)
  {
    hide Flatten, Readable;
    LowIs(isn, input, r);
    AdvanceKeepsBooks(isn, input, r);
    var t := Advance(r, Low(r));
    var j, k := r.lastAck - isn, Low(r) - isn;
    FirstKept(r.unread, input[j..k]);
    assert t.unread[0] in input;
    DeliverMore(input, j, k, r.unread, r.notch, delivered);
    hide ReceiverOk, Advance, Low;
  }

  lemma {:induction false} FirstKept(units: seq<Payload>, more: seq<Payload>)
    requires more != []
    ensures (units + more)[0] == if units == [] then more[0] else units[0]
  {
  }

  lemma {:induction false} DeliverMore(input: seq<Payload>, j: nat, k: nat, units: seq<Payload>, notch: nat,
                                       delivered: seq<Byte>)
    requires j <= k <= |input| && (if units == [] then notch == 0 else notch <= |units[0]|)
    requires delivered + Readable(units, notch) == Flatten(input[..j])
    ensures delivered + Readable(units + input[j..k], notch) == Flatten(input[..k])
  {
    hide Flatten, Readable;
    var before, more := Readable(units, notch), Flatten(input[j..k]);
    assert input[..k] == input[..j] + input[j..k];
    FlattenAppend(input[..j], input[j..k]);
    ReadableAppend(units, notch, input[j..k]);
    assert delivered + (before + more) == (delivered + before) + more;
  }

  /** The data books do not mention the ACK history. */
  lemma {:induction false} BooksApart(isn: int, input: seq<Payload>, r: Receiver, delivered: seq<Byte>, r': Receiver)
    requires ReceiverOk(isn, input, r) && NotchOk(r) && DeliveryOk(isn, input, r, delivered)
    requires r' == r.(ackSeqNo := r'.ackSeqNo, history := r'.history)
    ensures ReceiverOk(isn, input, r') && NotchOk(r') && DeliveryOk(isn, input, r', delivered)
    ensures Low(r') == Low(r)
  {
  }

  /** The part of SendAck that moves the acknowledgement point. */
  lemma {:induction false} SendAckBooks(st: State, now: int, expired: bool)
    requires Inv(st)
    requires forall n :: st.r.lastAck <= n < Low(st.r) ==> n in st.r.ahead
    ensures var r := SendAck(st.r, now, expired).0;
            && ReceiverOk(st.isn, st.input, r) && NotchOk(r) && DeliveryOk(st.isn, st.input, r, st.delivered)
            && Low(r) == Low(st.r) && r.currSeq == st.r.currSeq && r.lastAckAck == st.r.lastAckAck
            && st.r.lastAck <= r.lastAck
  {
    var r := SendAck(st.r, now, expired).0;
    if st.r.lastAck < Low(st.r) {
      AdvanceKeeps(st.isn, st.input, st.r, st.delivered);
      var t := Advance(st.r, Low(st.r));
      if r != st.r {
        BooksApart(st.isn, st.input, t, st.delivered, r);
      }
    } else {
      BooksApart(st.isn, st.input, st.r, st.delivered, r);
    }
  }

  lemma {:induction false} AckEmitKeeps(st: State, now: int, expired: bool)
    requires Inv(st)
    ensures Inv(Do(st, EmitAck(now, expired)))
  {
    LowIs(st.isn, st.input, st.r);
    SendAckBooks(st, now, expired);
    var st' := Do(st, EmitAck(now, expired));
    var (r, p) := SendAck(st.r, now, expired);
    assert st' == st.(r := r, net := Put(st.net, p),
                      ackOf := if p.Some? then st.ackOf[r.ackSeqNo := r.lastAck] else st.ackOf);
    SendAckHistory(st, now, expired, st');
    ReceiverStep(st, st', p);
  }

  lemma {:induction false} SendAckHistory(st: State, now: int, expired: bool, st': State)
    requires HistoryOk(st) && st.r.historySize >= 2
    requires forall n :: st.r.lastAck <= n < Low(st.r) ==> n in st.r.ahead
    requires var (r, p) := SendAck(st.r, now, expired);
             && st.r.lastAck <= r.lastAck
             && st' == st.(r := r, net := Put(st.net, p),
                           ackOf := if p.Some? then st.ackOf[r.ackSeqNo := r.lastAck] else st.ackOf)
    ensures HistoryOk(st')
    ensures forall k :: k in st.ackOf ==> k in st'.ackOf && st'.ackOf[k] == st.ackOf[k]
    ensures var p := SendAck(st.r, now, expired).1; p.Some? ==> PacketOk(st', p.value)
  {
    var (r, p) := SendAck(st.r, now, expired);
    if p.Some? {
      var x := AckRecord(r.ackSeqNo, r.lastAck, now);
      assert r.history == Store(st.r.history, st.r.historySize, x);
      assert forall y :: y in r.history ==> y == x || y in st.r.history;
    } else {
      assert r.history == st.r.history && r.ackSeqNo == st.r.ackSeqNo;
    }
  }

  lemma {:induction false} NakEmitKeeps(st: State, ranges: seq<Range>)
    requires Inv(st) && Enabled(st, EmitNak(ranges))
    ensures Inv(Do(st, EmitNak(ranges)))
  {
    forall x | x in ranges ensures x.hi <= st.r.currSeq {
      assert x.hi in Span(x.lo, x.hi);
    }
    ReceiverStep(st, Do(st, EmitNak(ranges)), Some(Nak(ranges)));
  }

  /** A confirmation names an ACK the sender has processed, so it cannot confirm too much. */
  lemma {:induction false} Ack2Keeps(st: State, k: int, now: int)
    requires Inv(st) && Enabled(st, RecvAck2(k, now))
    ensures Inv(Do(st, RecvAck2(k, now)))
  {
    assert PacketOk(st, Ack2(k));
    var st' := Do(st, RecvAck2(k, now));
    Ack2Confirms(st, k, now);
    Ack2KeepsBooks(st.isn, st.input, st.r, st.delivered, st'.r);
    ReceiverStep(st, st', None);
  }

  lemma {:induction false} Ack2KeepsBooks(isn: int, input: seq<Payload>, r: Receiver, delivered: seq<Byte>,
                                          r': Receiver)
    requires ReceiverOk(isn, input, r) && NotchOk(r) && DeliveryOk(isn, input, r, delivered)
    requires r' == r.(lastAckAck := r'.lastAckAck, history := r'.history) && r'.lastAckAck <= r.lastAck
    ensures ReceiverOk(isn, input, r') && NotchOk(r') && DeliveryOk(isn, input, r', delivered) && Low(r') == Low(r)
  {
  }

  lemma {:induction false} Ack2Confirms(st: State, k: int, now: int)
    requires HistoryOk(st) && k in st.ackOf && st.ackOf[k] <= st.s.lastAck
    requires st.r.lastAckAck <= st.r.lastAck && st.r.lastAckAck <= st.s.lastAck
    ensures var r := OnAck2(st.r, k, now);
            && HistoryOk(st.(r := r))
            && r == st.r.(lastAckAck := r.lastAckAck, history := r.history)
            && r.lastAckAck <= st.r.lastAck && r.lastAckAck <= st.s.lastAck
  {
    var i, r := Find(st.r.history, k), OnAck2(st.r, k, now);
    assert forall x :: x in r.history ==> x in st.r.history;
    if i < |st.r.history| {
      assert st.r.history[i] in st.r.history;
    }
  }

  /** What taking part of the first unit, or all of it, leaves readable. */
  lemma {:induction false} ReadableSplit(units: seq<Payload>, notch: nat, len: nat)
    requires units != [] && notch + len <= |units[0]|
    ensures Readable(units, notch) == units[0][notch..notch + len] + Readable(units, notch + len)
    ensures Readable(units, |units[0]|) == Flatten(units[1..])
  {
    var u, rest := units[0], Flatten(units[1..]);
    assert Flatten(units) == u + rest;
    assert (u + rest)[notch..] == u[notch..notch + len] + (u + rest)[notch + len..];
  }

  ghost predicate ReadsPrefix(units: seq<Payload>, notch: nat, len: nat)
  {
    var (data, left, k) := ReadUnits(units, notch, len);
    && Readable(units, notch) == data + Readable(left, k)
    && |data| == (if len < |Readable(units, notch)| then len else |Readable(units, notch)|)
  }

  /** readBuffer returns the first min(len, all) readable bytes and keeps the rest readable. */
  lemma {:induction false} ReadIsPrefix(units: seq<Payload>, notch: nat, len: nat)
    requires if units == [] then notch == 0 else notch <= |units[0]|
    ensures ReadsPrefix(units, notch, len)
  {
    if units == [] || len == 0 {
      ReadableNone();
      var all := Readable(units, notch);
      assert [] + all == all;
    } else if len >= |units[0]| - notch {
      ReadIsPrefix(units[1..], 0, len - (|units[0]| - notch));
      hide ReadsPrefix;
      ReadWhole(units, notch, len);
    } else {
      hide ReadsPrefix;
      ReadPart(units, notch, len);
    }
  }

  lemma {:induction false} ReadPart(units: seq<Payload>, notch: nat, len: nat)
    requires units != [] && 0 < len && notch + len < |units[0]|
    ensures ReadsPrefix(units, notch, len)
  {
    ReadUnfold(units, notch, len);
    ReadableSplit(units, notch, len);
    hide Readable, Flatten, ReadUnits;
  }

  lemma {:induction false} ReadWhole(units: seq<Payload>, notch: nat, len: nat)
    requires units != [] && 0 < len && notch <= |units[0]| <= notch + len
    requires ReadsPrefix(units[1..], 0, len - (|units[0]| - notch))
    ensures ReadsPrefix(units, notch, len)
  {
    hide Readable, ReadUnits;
    var rest := |units[0]| - notch;
    ReadUnfold(units, notch, len);
    ReadableTail(units, notch);
    var (d, left, k) := ReadUnits(units[1..], 0, len - rest);
    Join(units[0][notch..], d, Readable(left, k), Readable(units[1..], 0), len);
  }

  lemma {:induction false} ReadableTail(units: seq<Payload>, notch: nat)
    requires units != [] && notch <= |units[0]|
    ensures Readable(units, notch) == units[0][notch..] + Readable(units[1..], 0)
  {
    ReadableSplit(units, notch, |units[0]| - notch);
    assert Readable(units[1..], 0) == Flatten(units[1..]);
    hide Readable, Flatten;
  }

  lemma {:induction false} Join(a: seq<Byte>, d: seq<Byte>, r: seq<Byte>, tail: seq<Byte>, len: nat)
    requires tail == d + r && |a| <= len && |d| == if len - |a| < |tail| then len - |a| else |tail|
    ensures a + tail == (a + d) + r && |a + d| == if len < |a + tail| then len else |a + tail|
  {
  }

  lemma {:induction false} ReadableNone()
    ensures Readable([], 0) == []
  {
  }

  lemma {:induction false} ReadUnfold(units: seq<Payload>, notch: nat, len: nat)
    requires units != [] && len > 0 && notch <= |units[0]|
    ensures var rest := |units[0]| - notch;
            var (data, left, k) := ReadUnits(units, notch, len);
            if len >= rest then
              var next := ReadUnits(units[1..], 0, len - rest);
              data == units[0][notch..] + next.0 && left == next.1 && k == next.2
            else data == units[0][notch..notch + len] && left == units && k == notch + len
  {
  }

  /** The units readBuffer leaves are the last ones, and the notch stays inside the first of them. */
  lemma {:induction false} ReadLeaves(units: seq<Payload>, notch: nat, len: nat)
    requires if units == [] then notch == 0 else notch < |units[0]|
    requires forall i :: 0 <= i < |units| ==> |units[i]| > 0
    ensures var (data, left, k) := ReadUnits(units, notch, len);
            && |left| <= |units| && left == units[|units| - |left|..]
            && if left == [] then k == 0 else k < |left[0]|
  {
    if units != [] && len >= |units[0]| - notch {
      ReadLeaves(units[1..], 0, len - (|units[0]| - notch));
    }
  }

  /** Handing over `data` and keeping the last units keeps the receiver's part of the invariant. */
  lemma {:induction false} HandOver(st: State, data: seq<Byte>, left: seq<Payload>, k: nat, st': State)
    requires ReceiverPart(st)
    requires |left| <= |st.r.unread| && left == st.r.unread[|st.r.unread| - |left|..]
    requires if left == [] then k == 0 else k < |left[0]|
    requires Readable(st.r.unread, st.r.notch) == data + Readable(left, k)
    requires st' == st.(r := st.r.(unread := left, notch := k), delivered := st.delivered + data)
    ensures ReceiverPart(st') && Low(st'.r) == Low(st.r)
  {
    hide Readable, Flatten;
    assert (st.delivered + data) + Readable(left, k) == st.delivered + (data + Readable(left, k));
  }

  lemma {:induction false} ReadKeeps(st: State, len: nat)
    requires Inv(st)
    ensures Inv(Do(st, Read(len)))
  {
    assert forall i :: 0 <= i < |st.r.unread| ==> st.r.unread[i] in st.input;
    ReadIsPrefix(st.r.unread, st.r.notch, len);
    ReadLeaves(st.r.unread, st.r.notch, len);
    var (data, left, k) := ReadUnits(st.r.unread, st.r.notch, len);
    var st' := st.(r := st.r.(unread := left, notch := k), delivered := st.delivered + data);
    assert Do(st, Read(len)) == st';
    HandOver(st, data, left, k, st');
    ReceiverStep(st, st', None);
  }

  // ---------- every run ----------

  lemma {:induction false} InitInv(st: State)
    requires Init(st)
    ensures Inv(st)
  {
    assert Low(st.r) == st.isn;
    InitBooks(st);
    assert SenderOk(st.isn, st.input, st.s);
    assert InputOk(st);
    hide ReceiverPart, SenderOk, InputOk, Low;
  }

  lemma {:induction false} InitBooks(st: State)
    requires Init(st)
    ensures ReceiverPart(st)
  {
    hide ReceiverOk, HistoryOk, DeliveryOk;
    InitReceiver(st.isn, st.input, st.r);
    InitHistory(st);
    InitDelivery(st.isn, st.input, st.r, st.delivered);
  }

  lemma {:induction false} InitReceiver(isn: int, input: seq<Payload>, r: Receiver)
    requires r.unread == [] && r.ahead == map[] && r.loss == {}
    requires r.lastAck == r.lastAckAck == isn && r.currSeq == isn - 1
    requires r.size >= 1 && r.historySize >= 2
    ensures ReceiverOk(isn, input, r)
  {
  }

  lemma {:induction false} InitHistory(st: State)
    requires st.r.history == [] && st.ackOf == map[]
    ensures HistoryOk(st)
  {
  }

  lemma {:induction false} InitDelivery(isn: int, input: seq<Payload>, r: Receiver, delivered: seq<Byte>)
    requires ReceiverOk(isn, input, r) && r.unread == [] && r.notch == 0 && delivered == [] && r.lastAck == isn
    ensures DeliveryOk(isn, input, r, delivered)
  {
    hide Flatten, Readable;
    ReadableNone();
    assert input[..0] == [];
    FlattenNone();
  }

  lemma {:induction false} FlattenNone()
    ensures Flatten([]) == []
  {
  }

  lemma {:induction false} StepKeeps(st: State, step: Step)
    requires Inv(st) && Enabled(st, step)
    ensures Inv(Do(st, step))
  {
    match step
    case Send(data, mss) => SendKeeps(st, data, mss);
    case PickRetransmission => PickKeeps(st);
    case SendRetransmission => SendRetransmissionKeeps(st);
    case SendFresh(cw) => SendFreshKeeps(st, cw);
    case RecvLiteAck(ack) => LiteAckKeeps(st, ack);
    case RecvAck(k, ack, window, due) => AckKeeps(st, k, ack, window, due);
    case RecvNak(ranges) => NakKeeps(st, ranges);
    case Timeout => TimeoutKeeps(st);
    case RecvData(n, p) => DataKeeps(st, n, p);
    case EmitLiteAck => LiteAckEmitKeeps(st);
    case EmitAck(now, expired) => AckEmitKeeps(st, now, expired);
    case EmitNak(ranges) => NakEmitKeeps(st, ranges);
    case RecvAck2(k, now) => Ack2Keeps(st, k, now);
    case Read(len) => ReadKeeps(st, len);
  }

  lemma {:induction false} RunInv(trace: seq<State>, steps: seq<Step>, i: nat)
    requires IsRun(trace, steps) && i < |trace|
    ensures Inv(trace[i])
  {
    if i == 0 {
      InitInv(trace[0]);
    } else {
      RunInv(trace, steps, i - 1);
      StepKeeps(trace[i - 1], steps[i - 1]);
    }
  }
}
