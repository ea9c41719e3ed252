/** The receiving half of class CUDT in stream mode, over its wrapped sequence numbers, buffer, loss list and ACK
    window. Every method is shown to take exactly the step of the protocol with the same name. */
module ReceiverHalves {
  import opened Bytes
  import opened Numbers
  import opened SeqNo
  import opened AckHistory
  import opened Protocol
  import opened ProtocolLaws
  import opened ProtocolWidth
  import MsgModel
  import opened RcvBuffers
  import opened RcvLossLists
  import opened AckWindows
  import opened Intervals
  import LossArrays
  import opened LossReport
  import opened SenderHalves

  datatype AckPacket = AckPacket(ackNo: int, ack: Seq31, window: int)

  function PayloadOf(c: MsgModel.Cell): Payload
  {
    if c.Full? then c.unit.payload else []
  }

  /** The unread payloads of a buffer whose first `acked` slots are filled. */
  function UnreadOf(cells: seq<MsgModel.Cell>, acked: nat): (r: seq<Payload>)
    requires acked <= |cells|
    ensures |r| == acked
  {
    seq(acked, k requires 0 <= k < acked => PayloadOf(cells[k]))
  }

  /** The cell where packet n belongs. */
  function CellOf(cells: seq<MsgModel.Cell>, acked: nat, lastAck: int, n: int): MsgModel.Cell
    requires acked <= |cells|
  {
    if lastAck <= n < lastAck + |cells| - acked then cells[n - lastAck + acked] else MsgModel.Empty
  }

  /** The payloads past the acknowledgement point, by sequence number. */
  ghost function AheadOf(cells: seq<MsgModel.Cell>, acked: nat, lastAck: int): (m: map<int, Payload>)
    requires acked <= |cells|
    ensures forall n :: n in m <==> CellOf(cells, acked, lastAck, n).Full?
    ensures forall n :: n in m ==> m[n] == CellOf(cells, acked, lastAck, n).unit.payload
  {
    map n | lastAck <= n < lastAck + |cells| - acked && CellOf(cells, acked, lastAck, n).Full? ::
      CellOf(cells, acked, lastAck, n).unit.payload
  }

  /** Filling one empty slot past the acknowledgement point adds one payload. */
  lemma {:induction false} StoreOne(cells: seq<MsgModel.Cell>, acked: nat, lastAck: int, n: int,
                                    unit: MsgModel.UnitData)
    requires acked < |cells| && lastAck <= n < lastAck + |cells| - acked
    ensures var k := acked + (n - lastAck);
            var after := cells[k := MsgModel.Full(1, unit)];
            && UnreadOf(after, acked) == UnreadOf(cells, acked)
            && (AckedFull(cells, acked) ==> AckedFull(after, acked))
            && AheadOf(after, acked, lastAck) == AheadOf(cells, acked, lastAck)[n := unit.payload]
            && (cells[k] != MsgModel.Empty <==> n in AheadOf(cells, acked, lastAck))
  {
  }

  /** The report of one gap, as one word or two. */
  lemma {:induction false} GapReport(lo: int, hi: int)
    requires lo <= hi < lo + MODULUS
    ensures Encodes(if Wrap(lo) == Wrap(hi) then [Wrap(hi)] else [Flag(Wrap(lo)), Wrap(hi)], [Range(lo, hi)])
  {
    WrapInjective(lo, hi);
    var one, words := WireRange(Wrap(lo), Wrap(hi)),
        if Wrap(lo) == Wrap(hi) then [Wrap(hi)] else [Flag(Wrap(lo)), Wrap(hi)];
    assert words[|words|..] == [];
    assert [one] + [] == [one];
    assert Decode([]) == Some([]);
    if Wrap(lo) == Wrap(hi) {
      assert Decode(words) == Some([one] + Decode(words[1..]).value);
    } else {
      assert Decode(words) == Some([one] + Decode(words[2..]).value);
    }
  }

  ghost predicate AckedFull(cells: seq<MsgModel.Cell>, acked: nat)
    requires acked <= |cells|
  {
    forall k :: 0 <= k < acked ==> cells[k].Full?
  }

  /** Moving the acknowledgement point over filled slots makes their payloads readable. */
  lemma {:induction false} MoveOver(cells: seq<MsgModel.Cell>, acked: nat, lastAck: int, len: nat)
    requires acked + len < |cells| && AckedFull(cells, acked)
    requires forall n :: lastAck <= n < lastAck + len ==> n in AheadOf(cells, acked, lastAck)
    ensures AckedFull(cells, acked + len)
    ensures UnreadOf(cells, acked + len) ==
                UnreadOf(cells, acked) + Stored(AheadOf(cells, acked, lastAck), lastAck, lastAck + len)
    ensures AheadOf(cells, acked + len, lastAck + len) == AheadFrom(AheadOf(cells, acked, lastAck), lastAck + len)
  {
    var ahead := AheadOf(cells, acked, lastAck);
    forall k | acked <= k < acked + len ensures cells[k].Full? {
      assert lastAck + (k - acked) in ahead;
    }
    StoredAt(ahead, lastAck, lastAck + len);
    var more := Stored(ahead, lastAck, lastAck + len);
    forall k | 0 <= k < len ensures more[k] == PayloadOf(cells[acked + k]) {
      assert ahead[lastAck + k] == CellOf(cells, acked, lastAck, lastAck + k).unit.payload;
    }
    AheadMoves(cells, acked, lastAck, len);
  }

  lemma {:induction false} AheadMoves(cells: seq<MsgModel.Cell>, acked: nat, lastAck: int, len: nat)
    requires acked + len < |cells|
    ensures AheadOf(cells, acked + len, lastAck + len) == AheadFrom(AheadOf(cells, acked, lastAck), lastAck + len)
  {
    var a, b := AheadOf(cells, acked, lastAck), AheadOf(cells, acked + len, lastAck + len);
    forall n ensures n in b <==> n in a && n >= lastAck + len {
      assert n >= lastAck + len ==> CellOf(cells, acked, lastAck, n) == CellOf(cells, acked + len, lastAck + len, n);
    }
    forall n | n in b ensures b[n] == a[n] {
      assert CellOf(cells, acked, lastAck, n) == CellOf(cells, acked + len, lastAck + len, n);
    }
  }

  lemma {:induction false} StoredAt(ahead: map<int, Payload>, lo: int, hi: int)
    requires lo <= hi && forall n :: lo <= n < hi ==> n in ahead
    ensures |Stored(ahead, lo, hi)| == hi - lo
    ensures forall k :: 0 <= k < hi - lo ==> Stored(ahead, lo, hi)[k] == ahead[lo + k]
    decreases hi - lo
  {
    if lo < hi {
      StoredAt(ahead, lo + 1, hi);
      forall k | 0 <= k < hi - lo ensures Stored(ahead, lo, hi)[k] == ahead[lo + k] {
        if k > 0 { assert Stored(ahead, lo, hi)[k] == Stored(ahead, lo + 1, hi)[k - 1]; }
      }
    }
  }

  /** The records of the ACK window stand for these. */
  ghost predicate SameHistory(w: seq<AckRecord>, h: seq<AckRecord>)
  {
    |w| == |h| && forall i :: 0 <= i < |w| ==> w[i] == AckRecord(h[i].ackNo, Wrap(h[i].ack), h[i].time)
  }

  /** Freed units leave the front; nothing else moves. */
  lemma {:induction false} ReadMoves(cells: seq<MsgModel.Cell>, acked: nat, lastAck: int, d: nat)
    requires d <= acked < |cells| && AckedFull(cells, acked)
    ensures var after := MsgModel.Drop(cells, d);
            && AckedFull(after, acked - d)
            && UnreadOf(after, acked - d) == UnreadOf(cells, acked)[d..]
            && AheadOf(after, acked - d, lastAck) == AheadOf(cells, acked, lastAck)
  {
    var after := MsgModel.Drop(cells, d);
    var a, b := AheadOf(cells, acked, lastAck), AheadOf(after, acked - d, lastAck);
    forall n ensures (n in b <==> n in a) && (n in a ==> a[n] == b[n]) {
      assert CellOf(cells, acked, lastAck, n).Full? ==>
        CellOf(after, acked - d, lastAck, n) == CellOf(cells, acked, lastAck, n);
      assert CellOf(after, acked - d, lastAck, n).Full? ==>
        CellOf(after, acked - d, lastAck, n) == CellOf(cells, acked, lastAck, n);
    }
  }

  lemma {:induction false} UnreadIs(cells: seq<MsgModel.Cell>, acked: nat)
    requires acked <= |cells| && AckedFull(cells, acked)
    ensures UnreadOf(cells, acked) == CellPayloads(cells[..acked])
  {
  }

  function RangesOf(ns: seq<Node>): (r: seq<Range>)
    ensures |r| == |ns|
  {
    seq(|ns|, i requires 0 <= i < |ns| => Range(ns[i].lo, ns[i].hi))
  }

  ghost predicate Named(ranges: seq<Range>, n: int)
  {
    exists x :: x in ranges && x.lo <= n <= x.hi
  }

  /** A loss report within the limit names lost numbers only, the lowest of them, and all if there was room. */
  ghost predicate Reports(report: seq<Word>, limit: nat, ranges: seq<Range>, loss: set<int>)
  {
    && |report| <= limit && Encodes(report, ranges)
    && (forall x :: x in ranges ==> x.lo <= x.hi && Span(x.lo, x.hi) <= loss)
    && (forall m, n :: Named(ranges, m) && n in loss && !Named(ranges, n) ==> m < n)
    && (|report| < limit - 1 ==> forall n :: n in loss ==> Named(ranges, n))
  }

  lemma {:induction false} NoMembers()
    ensures Members([]) == {}
  {
  }

  lemma {:induction false} ReportIsHonest(ns: seq<Node>, limit: nat) returns (ranges: seq<Range>)
    requires Ordered(ns)
    ensures Reports(Report(ns, limit, 0), limit, ranges, Members(ns))
  {
    hide Members, Span, Report, Reported, Encodes, Named, RangesOf, Ordered;
    var t := Reported(ns, limit, 0);
    ranges := RangesOf(ns[..t]);
    EncodesReport(ns, limit);
    ReportFits(ns, limit, 0);
    LowestPart(ns, t);
    RangesInside(ns, t);
    NamedIsMember(ns[..t]);
    NamedLowest(ranges, Members(ns[..t]), Members(ns));
  }

  lemma {:induction false} NamedLowest(ranges: seq<Range>, low: set<int>, all: set<int>)
    requires forall n :: Named(ranges, n) <==> n in low
    requires low <= all && forall x, y :: x in low && y in all - low ==> x < y
    ensures forall m, n :: Named(ranges, m) && n in all && !Named(ranges, n) ==> m < n
    ensures low == all ==> forall n :: n in all ==> Named(ranges, n)
  {
    hide Named;
    forall m, n | Named(ranges, m) && n in all && !Named(ranges, n) ensures m < n {
      assert n in all - low;
    }
  }

  lemma {:induction false} EncodesReport(ns: seq<Node>, limit: nat)
    ensures Encodes(Report(ns, limit, 0), RangesOf(ns[..Reported(ns, limit, 0)]))
  {
    RoundTrip(ns, limit, 0);
    hide Report, Reported, Decode;
  }

  lemma {:induction false} RangesInside(ns: seq<Node>, t: nat)
    requires Ordered(ns) && t <= |ns|
    ensures forall x :: x in RangesOf(ns[..t]) ==> x.lo <= x.hi && Span(x.lo, x.hi) <= Members(ns)
  {
    forall i | 0 <= i < t ensures ns[i].lo <= ns[i].hi && Span(ns[i].lo, ns[i].hi) <= Members(ns) {
      forall n | n in Span(ns[i].lo, ns[i].hi) ensures n in Members(ns) {
        InMembers(ns, n);
      }
    }
    hide Members, Span;
  }

  lemma {:induction false} NamedIsMember(ns: seq<Node>)
    ensures forall n :: Named(RangesOf(ns), n) <==> n in Members(ns)
  {
    forall n ensures Named(RangesOf(ns), n) <==> n in Members(ns) {
      NamedIs(ns, n);
    }
  }

  lemma {:induction false} NamedIs(ns: seq<Node>, n: int)
    ensures Named(RangesOf(ns), n) <==> n in Members(ns)
  {
    InMembers(ns, n);
    if n in Members(ns) {
      var i :| 0 <= i < |ns| && ns[i].lo <= n <= ns[i].hi;
      assert RangesOf(ns)[i] in RangesOf(ns);
    }
  }

  lemma {:induction false} HistoryStore(w: seq<AckRecord>, h: seq<AckRecord>, size: nat, ackNo: int, ack: int, now: int)
    requires SameHistory(w, h) && size >= 2
    ensures SameHistory(AckHistory.Store(w, size, AckRecord(ackNo, Wrap(ack), now)),
                        AckHistory.Store(h, size, AckRecord(ackNo, ack, now)))
  {
  }

  lemma {:induction false} HistoryFind(w: seq<AckRecord>, h: seq<AckRecord>, ackNo: int)
    requires SameHistory(w, h)
    ensures Find(w, ackNo) == Find(h, ackNo) && |w| == |h| && (Find(h, ackNo) == |h| ==> Discard(h, ackNo) == h)
    ensures SameHistory(Discard(w, ackNo), Discard(h, ackNo))
    ensures Find(h, ackNo) < |h| ==>
              w[Find(h, ackNo)].ack == Wrap(h[Find(h, ackNo)].ack) && w[Find(h, ackNo)].time == h[Find(h, ackNo)].time
  {
    var i, j := Find(w, ackNo), Find(h, ackNo);
    if i < |w| && i <= j { assert w[i].ackNo == h[i].ackNo; }
    if j < |h| && j <= i { assert w[j].ackNo == h[j].ackNo; }
  }

  /** The books of a reachable receiver, and a buffer narrow enough for the wrapped comparisons. All but the width holds
      in every reachable state; how far back the last confirmed ACK lies is left open. */
  ghost predicate RcvBounded(r: Receiver)
  {
    && r.lastAck <= r.currSeq + 1
    && (forall n :: n in r.loss ==> r.lastAck <= n < r.currSeq)
    && (forall n :: n in r.ahead <==> r.lastAck <= n <= r.currSeq && n !in r.loss)
    && |r.unread| + (r.currSeq + 1 - r.lastAck) <= r.size - 1
    && (r.unread != [] ==> r.notch <= |r.unread[0]|)
    && r.historySize >= 2
    && r.size < SEQ_NO_TH
  }

  lemma {:induction false} RemoveFits(loss: set<int>, n: int, slots: int)
    requires n in loss && LossFits(loss, slots)
    requires forall m :: m in loss ==> -SEQ_NO_TH < m - n < SEQ_NO_TH
    ensures LossArrays.Fits(slots, loss, n, n)
  {
    assert Distance(n, n) < slots;
    forall m | m in loss ensures LossArrays.Close(slots, n, m) && LossArrays.Close(slots, m, n) {
      assert Distance(n, m) < slots && Distance(m, n) < slots;
    }
  }

  /** The cases of a data packet, one by one. */
  lemma {:induction false} DataCases(s: Receiver, n: int, p: Payload)
    ensures var (r, report) := OnData(s, n, p);
            var t := s.(ahead := s.ahead[n := p]);
            if n < s.lastAck || n - s.lastAck >= Available(s) || n in s.ahead then r == s && report == None
            else
              && (n > s.currSeq + 1 ==> r == t.(loss := s.loss + Span(s.currSeq + 1, n - 1), currSeq := n)
                                        && report == Some(Nak([Range(s.currSeq + 1, n - 1)])))
              && (n == s.currSeq + 1 ==> r == t.(currSeq := n) && report == None)
              && (n <= s.currSeq ==> r == t.(loss := s.loss - {n}) && report == None)
  {
    hide Span;
  }

  lemma {:induction false} Outside(s: Receiver, n: int, p: Payload)
    ensures n < s.lastAck || n - s.lastAck >= Available(s) ==> OnData(s, n, p) == (s, None)
  {
  }

  class ReceiverHalf {
    const buffer: RcvBuffer       // m_pRcvBuffer
    const lossList: RcvLossList   // m_pRcvLossList
    const ackWindow: AckWindow    // m_pACKWindow
    var lastAck: Seq31            // m_iRcvLastAck
    var lastAckAck: Seq31         // m_iRcvLastAckAck
    var currSeqNo: Seq31          // m_iRcvCurrSeqNo
    var ackSeqNo: int             // m_iAckSeqNo
    ghost var lastAckN: int
    ghost var lastAckAckN: int
    ghost var currSeqN: int
    ghost var history: seq<AckRecord>

    ghost predicate Apart()
      reads this
    {
      {lossList.data1, lossList.data2, lossList.next, lossList.prior} !!
      {ackWindow.ackSeqNo, ackWindow.ackNo, ackWindow.timeStamp}
    }

    ghost predicate Valid()
      reads this, buffer, buffer.slots, buffer.queue, buffer.units
      reads lossList, lossList.data1, lossList.data2, lossList.next, lossList.prior
      reads ackWindow, ackWindow.ackSeqNo, ackWindow.ackNo, ackWindow.timeStamp
    {
      && Apart()
      && buffer.Valid() && buffer.acked < |buffer.cells| && AckedFull(buffer.cells, buffer.acked)
      && lossList.Valid()
      && ackWindow.size >= 2 && ackWindow.Valid() && SameHistory(ackWindow.Contents(), history)
      && lastAck == Wrap(lastAckN) && lastAckAck == Wrap(lastAckAckN) && currSeqNo == Wrap(currSeqN)
    }

    ghost function Abs(): Receiver
      reads this, buffer, lossList
      requires buffer.acked < |buffer.cells| && ackWindow.size >= 2
    {
      Receiver(|buffer.cells|, UnreadOf(buffer.cells, buffer.acked), buffer.notch,
               AheadOf(buffer.cells, buffer.acked, lastAckN), lastAckN, lastAckAckN, currSeqN,
               lossList.Contents(), ackSeqNo, history, ackWindow.size)
    }

    constructor (isn: Seq31, bufsize: nat, queue: UnitQueue, lossSize: int, windowSize: int, ackSeqNo: int, now: int)
      requires isn >= 1 && bufsize > 0 && lossSize > 0 && windowSize >= 2
      ensures Valid() && fresh(buffer) && fresh(buffer.slots) && buffer.queue == queue && buffer.units == {}
      ensures fresh(lossList) && lossList.size == lossSize
      ensures fresh(lossList.data1) && fresh(lossList.data2) && fresh(lossList.next) && fresh(lossList.prior)
      ensures fresh(ackWindow) && fresh(ackWindow.ackSeqNo) && fresh(ackWindow.ackNo) && fresh(ackWindow.timeStamp)
      ensures Abs() == Receiver(bufsize, [], 0, map[], isn, isn, isn - 1, {}, ackSeqNo, [], windowSize)
    {
      hide RcvBuffer.Valid, RcvLossList.Valid, AckWindow.Valid, RcvLossList.Contents, Intervals.Ordered, LossArrays.Rep;
      buffer := new RcvBuffer(bufsize, queue);
      lossList := new RcvLossList(lossSize, now);
      ackWindow := new AckWindow(windowSize);
      lastAck, lastAckAck, currSeqNo := isn, isn, isn - 1;
      this.ackSeqNo := ackSeqNo;
      lastAckN, lastAckAckN, currSeqN, history := isn, isn, isn - 1, [];
    }

    lemma {:induction false} Shape()
      requires Valid()
      ensures buffer.acked < |buffer.cells| && ackWindow.size >= 2
    {
    }

    /** The number an ACK carries: the least lost one, or the one after the greatest received. */
    method FirstMissing() returns (ack: Seq31)
      requires Valid() && RcvBounded(Abs())
      ensures ack == Wrap(Low(Abs()))
    {
      hide RcvBuffer.Valid, RcvLossList.Valid, AckWindow.Valid, UnreadOf, AheadOf;
      IncRefines(currSeqN);
      var n := lossList.GetLossLength();
      if n == 0 {
        ack := IncSeq(currSeqNo);
      } else {
        ack := lossList.GetFirstLostSeq();
      }
    }

    /** sendCtrl type 2 with a lite ACK. */
    method SendLite() returns (p: Option<Seq31>)
      requires Valid() && RcvBounded(Abs())
      ensures match SendLiteAck(Abs())
              case None => p == None
              case Some(sent) => p.Some? && sent == LiteAck(Low(Abs())) && p.value == Wrap(Low(Abs()))
    {
      hide RcvBuffer.Valid, RcvLossList.Valid, AckWindow.Valid, UnreadOf, AheadOf;
      var ack := FirstMissing();
      p := if ack == lastAckAck then None else Some(ack);
    }

    /** processData. The words of the loss report sent at once when a gap opens, or none. */
    method ProcessData(unit: CUnit, seqno: Seq31, now: int, ghost n: int) returns (r: int, report: seq<Word>)
      requires Valid() && RcvBounded(Abs()) && unit.flag == 0
      requires seqno == Wrap(n) && Near(n, lastAckN)
      requires LossFits(OnData(Abs(), n, unit.data.payload).0.loss, lossList.size)
      requires LossFits(Abs().loss, lossList.size)
      modifies this`currSeqNo, this`currSeqN
      modifies buffer`maxPos, buffer`cells, buffer`units, buffer.slots, buffer.queue, unit
      modifies lossList, lossList.data1, lossList.data2, lossList.next, lossList.prior
      ensures Valid() && Abs() == OnData(old(Abs()), n, old(unit.data.payload)).0
      ensures r == if 0 <= n - lastAckN < Available(old(Abs())) && n !in old(Abs()).ahead then 0 else -1
      ensures match OnData(old(Abs()), n, old(unit.data.payload)).1
              case None => report == []
              case Some(sent) => sent.Nak? && Encodes(report, sent.ranges)
      ensures buffer.units - old(buffer.units) <= {unit}
    {
      hide RcvBuffer.Valid, RcvLossList.Valid, AckWindow.Valid, UnreadOf, AheadOf, RcvLossList.Contents, Span, Encodes;
      hide AckedFull, SameHistory, LossFits, Decode, OnData, Wrap;
      Outside(Abs(), n, unit.data.payload);
      report := [];
      OffRefines(lastAckN, n);
      var offset := SeqOff(lastAck, seqno);
      var avail := buffer.GetAvailBufSize();
      if offset < 0 || offset >= avail { return -1, []; }
      r, report := StoreData(unit, seqno, offset, now, n);
    }

    /** A packet inside the window. */
    method StoreData(unit: CUnit, seqno: Seq31, offset: nat, now: int, ghost n: int) returns (r: int, report: seq<Word>)
      requires Valid() && RcvBounded(Abs()) && unit.flag == 0 && seqno == Wrap(n)
      requires offset == n - lastAckN < Available(Abs()) && LossFits(Abs().loss, lossList.size)
      requires LossFits(OnData(Abs(), n, unit.data.payload).0.loss, lossList.size)
      modifies this`currSeqNo, this`currSeqN
      modifies buffer`maxPos, buffer`cells, buffer`units, buffer.slots, buffer.queue, unit
      modifies lossList, lossList.data1, lossList.data2, lossList.next, lossList.prior
      ensures Valid() && r == (if n in old(Abs()).ahead then -1 else 0) && buffer.units - old(buffer.units) <= {unit}
      ensures Abs() == OnData(old(Abs()), n, old(unit.data.payload)).0
      ensures match OnData(old(Abs()), n, old(unit.data.payload)).1
              case None => report == []
              case Some(sent) => sent.Nak? && Encodes(report, sent.ranges)
    {
      hide RcvBuffer.Valid, RcvLossList.Valid, AckWindow.Valid, UnreadOf, AheadOf, RcvLossList.Contents, Span, Encodes;
      hide AckedFull, SameHistory, LossFits, Decode, Wrap, OnData;
      DataCases(Abs(), n, unit.data.payload);
      r := AddData(unit, offset, n);
      if r < 0 { return -1, []; }
      report := DetectLoss(seqno, now, n);
    }

    method AddData(unit: CUnit, offset: nat, ghost n: int) returns (r: int)
      requires Valid() && unit.flag == 0 && offset == n - lastAckN && buffer.acked + offset < |buffer.cells|
      modifies buffer`maxPos, buffer`cells, buffer`units, buffer.slots, buffer.queue, unit
      ensures Valid() && r == (if n in old(Abs()).ahead then -1 else 0) && buffer.units - old(buffer.units) <= {unit}
      ensures Abs() == if r < 0 then old(Abs()) else old(Abs()).(ahead := old(Abs()).ahead[n := old(unit.data.payload)])
    {
      hide RcvBuffer.Valid, RcvLossList.Valid, AckWindow.Valid, UnreadOf, AheadOf, AckedFull, SameHistory;
      hide RcvLossList.Contents;
      ghost var was, acked := buffer.cells, buffer.acked;
      r := buffer.AddData(unit, offset);
      StoreOne(was, acked, lastAckN, n, unit.data);
    }

    /** The loss detection of processData and its update of the greatest received number. */
    method DetectLoss(seqno: Seq31, now: int, ghost n: int) returns (report: seq<Word>)
      requires Valid() && seqno == Wrap(n) && Near(n, currSeqN) && Near(n, currSeqN + 1)
      requires forall x :: x in lossList.Contents() ==> lastAckN <= x < currSeqN
      requires lastAckN <= n && lastAckN <= currSeqN + 1 && n - lastAckN < SEQ_NO_TH && currSeqN - lastAckN < SEQ_NO_TH
      requires n <= currSeqN ==> n in Abs().loss
      requires LossFits(Abs().loss, lossList.size)
      requires n > currSeqN + 1 ==> LossFits(Abs().loss + Span(currSeqN + 1, n - 1), lossList.size)
      modifies this`currSeqNo, this`currSeqN
      modifies lossList, lossList.data1, lossList.data2, lossList.next, lossList.prior
      ensures Valid()
      ensures n > old(currSeqN) + 1 ==>
                Abs() == old(Abs()).(loss := old(Abs()).loss + Span(old(currSeqN) + 1, n - 1), currSeq := n)
      ensures n == old(currSeqN) + 1 ==> Abs() == old(Abs()).(currSeq := n)
      ensures n <= old(currSeqN) ==> Abs() == old(Abs()).(loss := old(Abs()).loss - {n})
      ensures if n > old(currSeqN) + 1 then Encodes(report, [Range(old(currSeqN) + 1, n - 1)]) else report == []
    {
      hide RcvBuffer.Valid, RcvLossList.Valid, AckWindow.Valid, UnreadOf, AheadOf, RcvLossList.Contents, Span, Encodes;
      hide AckedFull, SameHistory, LossFits, LossArrays.Fits, Decode, Wrap, SeqCmp, IncSeq;
      report := TakeGap(seqno, now, n);
      CmpRefines(n, currSeqN);
      if SeqCmp(seqno, currSeqNo) > 0 {
        MoveGreatest(seqno, n);
      } else {
        TakeLate(seqno, now, n);
      }
    }

    /** If numbers were skipped, they are lost, and reported at once. */
    method TakeGap(seqno: Seq31, now: int, ghost n: int) returns (report: seq<Word>)
      requires Valid() && seqno == Wrap(n) && Near(n, currSeqN + 1) && lastAckN <= currSeqN + 1
      requires forall x :: x in lossList.Contents() ==> lastAckN <= x < currSeqN
      requires n - lastAckN < SEQ_NO_TH
      requires n > currSeqN + 1 ==> LossFits(Abs().loss + Span(currSeqN + 1, n - 1), lossList.size)
      modifies lossList, lossList.data1, lossList.data2, lossList.next, lossList.prior
      ensures Valid()
      ensures n > currSeqN + 1 ==> Abs() == old(Abs()).(loss := old(Abs()).loss + Span(currSeqN + 1, n - 1))
      ensures n <= currSeqN + 1 ==> Abs() == old(Abs())
      ensures if n > currSeqN + 1 then Encodes(report, [Range(currSeqN + 1, n - 1)]) else report == []
    {
      hide RcvBuffer.Valid, RcvLossList.Valid, AckWindow.Valid, UnreadOf, AheadOf, RcvLossList.Contents, Span, Encodes;
      hide AckedFull, SameHistory, LossFits, LossArrays.Fits, Decode, Wrap, SeqCmp, IncSeq;
      report := [];
      IncRefines(currSeqN);
      CmpRefines(n, currSeqN + 1);
      if SeqCmp(seqno, IncSeq(currSeqNo)) > 0 {
        report := EnterGap(seqno, now, n);
      }
    }

    method MoveGreatest(seqno: Seq31, ghost n: int)
      requires Valid() && seqno == Wrap(n)
      modifies this`currSeqNo, this`currSeqN
      ensures Valid() && Abs() == old(Abs()).(currSeq := n)
    {
      hide RcvBuffer.Valid, RcvLossList.Valid, AckWindow.Valid, UnreadOf, AheadOf, RcvLossList.Contents, AckedFull;
      hide SameHistory;
      currSeqNo := seqno;
      currSeqN := n;
    }

    /** A number thought lost arrives after all. */
    method TakeLate(seqno: Seq31, now: int, ghost n: int)
      requires Valid() && seqno == Wrap(n) && n in Abs().loss && LossFits(Abs().loss, lossList.size)
      requires forall m :: m in Abs().loss ==> Near(m, n)
      modifies lossList, lossList.data1, lossList.data2, lossList.next, lossList.prior
      ensures Valid() && Abs() == old(Abs()).(loss := old(Abs()).loss - {n})
    {
      hide RcvBuffer.Valid, RcvLossList.Valid, AckWindow.Valid, UnreadOf, AheadOf, RcvLossList.Contents, AckedFull;
      hide SameHistory;
      hide LossFits, LossArrays.Fits, Wrap;
      RemoveFits(Abs().loss, n, lossList.size);
      var _ := lossList.Remove(seqno, now, n);
    }

    /** The numbers between the greatest received one and n are lost. */
    method EnterGap(seqno: Seq31, now: int, ghost n: int) returns (report: seq<Word>)
      requires Valid() && seqno == Wrap(n) && currSeqN + 1 < n && lastAckN <= currSeqN + 1
      requires forall x :: x in lossList.Contents() ==> lastAckN <= x < currSeqN
      requires n - lastAckN < SEQ_NO_TH && LossFits(Abs().loss + Span(currSeqN + 1, n - 1), lossList.size)
      modifies lossList, lossList.data1, lossList.data2, lossList.next, lossList.prior
      ensures Valid() && Abs() == old(Abs()).(loss := old(Abs()).loss + Span(currSeqN + 1, n - 1))
      ensures Encodes(report, [Range(currSeqN + 1, n - 1)])
    {
      hide RcvBuffer.Valid, RcvLossList.Valid, AckWindow.Valid, UnreadOf, AheadOf, RcvLossList.Contents, Span, Encodes;
      hide AckedFull, SameHistory, LossFits, LossArrays.Fits, Wrap, Decode;
      InsertFits(Abs().loss, currSeqN + 1, n - 1, lossList.size);
      IncRefines(currSeqN);
      IncRefines(n);
      lossList.Insert(IncSeq(currSeqNo), DecSeq(seqno), now, currSeqN + 1, n - 1);
      GapReport(currSeqN + 1, n - 1);
      var word1: Word, word2: Word := Flag(IncSeq(currSeqNo)), DecSeq(seqno);
      report := if IncSeq(currSeqNo) == DecSeq(seqno) then [word2] else [word1, word2];
    }

    /** sendCtrl type 2 with a full ACK. `expired`: the last ACK was sent longer ago than the round-trip bound. */
    method SendFullAck(now: int, expired: bool) returns (p: Option<AckPacket>)
      requires Valid() && RcvBounded(Abs())
      requires forall n :: lastAckN <= n < Low(Abs()) ==> n in Abs().ahead
      modifies this`lastAck, this`lastAckN, this`ackSeqNo, this`history
      modifies buffer`lastAckPos, buffer`maxPos, buffer`acked
      modifies ackWindow`head, ackWindow`tail, ackWindow.ackSeqNo, ackWindow.ackNo, ackWindow.timeStamp
      ensures Valid() && Abs() == SendAck(old(Abs()), now, expired).0
      ensures match SendAck(old(Abs()), now, expired).1
              case None => p == None
              case Some(sent) =>
                p.Some? && p.value.ack == Wrap(lastAckN) && sent == Ack(p.value.ackNo, lastAckN, p.value.window)
      ensures p.Some? <==> AckIsDue(old(Abs()), expired)
      ensures var r := old(Abs());
              if p.Some? then
                && p.value.ackNo == ackSeqNo == r.ackSeqNo + 1 && p.value.ack == Wrap(Low(r))
                && p.value.window == Max(2, r.size - 1 - (|r.unread| + (Low(r) - r.lastAck)))
                && history != [] && history[|history| - 1] == AckRecord(ackSeqNo, Low(r), now)
              else ackSeqNo == r.ackSeqNo && history == r.history
    {
      hide RcvBuffer.Valid, RcvLossList.Valid, AckWindow.Valid, UnreadOf, AheadOf, RcvLossList.Contents, AckedFull;
      hide SameHistory;
      hide Advance;
      p := None;
      ghost var n := Low(Abs());
      FullAckIs(Abs(), now, expired);
      var ack := FirstMissing();
      if ack == lastAckAck { return; }
      CmpRefines(n, lastAckN);
      WrapInjective(n, lastAckN);
      if SeqCmp(ack, lastAck) > 0 {
        MoveUp(ack, n);
      } else if ack == lastAck {
        if !expired { return; }
      } else {
        return;
      }
      p := EmitAck(now);
    }

    method MoveUp(ack: Seq31, ghost n: int)
      requires Valid() && ack == Wrap(n) && lastAckN <= n && Near(lastAckN, n)
      requires n - lastAckN + buffer.acked < |buffer.cells|
      requires forall x :: lastAckN <= x < n ==> x in Abs().ahead
      modifies this`lastAck, this`lastAckN, buffer`lastAckPos, buffer`maxPos, buffer`acked
      ensures Valid() && Abs() == Advance(old(Abs()), n)
      ensures lastAckN == n && buffer.acked == old(buffer.acked) + (n - old(lastAckN))
    {
      hide RcvBuffer.Valid, RcvLossList.Valid, AckWindow.Valid, RcvLossList.Contents, SameHistory;
      hide UnreadOf, AheadOf, AckedFull, AheadFrom, Stored, Wrap;
      OffRefines(lastAckN, n);
      assert AheadOf(buffer.cells, buffer.acked, lastAckN) == Abs().ahead;
      MoveOver(buffer.cells, buffer.acked, lastAckN, n - lastAckN);
      var acksize := SeqOff(lastAck, ack);
      lastAck := ack;
      lastAckN := n;
      buffer.AckData(acksize);
    }

    /** The end of a full ACK: it leaves, and is remembered, unless the sender is known to have it. */
    method EmitAck(now: int) returns (p: Option<AckPacket>)
      requires Valid()
      modifies this`ackSeqNo, this`history
      modifies ackWindow`head, ackWindow`tail, ackWindow.ackSeqNo, ackWindow.ackNo, ackWindow.timeStamp
      ensures Valid()
      ensures var t := old(Abs());
              if SeqCmp(Wrap(t.lastAck), Wrap(t.lastAckAck)) > 0 then
                var window := if Available(t) < 2 then 2 else Available(t);
                && Abs() == t.(ackSeqNo := t.ackSeqNo + 1,
                               history := AckHistory.Store(t.history, t.historySize,
                                                             AckRecord(t.ackSeqNo + 1, t.lastAck, now)))
                && p == Some(AckPacket(t.ackSeqNo + 1, Wrap(t.lastAck), window))
              else Abs() == t && p == None
    {
      hide RcvBuffer.Valid, RcvLossList.Valid, AckWindow.Valid, UnreadOf, AheadOf, RcvLossList.Contents, AckedFull;
      hide SameHistory;
      p := None;
      if SeqCmp(lastAck, lastAckAck) > 0 {
        Remember(now);
        var window := buffer.GetAvailBufSize();
        if window < 2 {
          window := 2;
        }
        p := Some(AckPacket(ackSeqNo, lastAck, window));
      }
    }

    /** The next ACK number is taken, and recorded with the acknowledgement point. */
    method Remember(now: int)
      requires Valid()
      modifies this`ackSeqNo, this`history
      modifies ackWindow`head, ackWindow`tail, ackWindow.ackSeqNo, ackWindow.ackNo, ackWindow.timeStamp
      ensures Valid()
      ensures var t := old(Abs());
              Abs() == t.(ackSeqNo := t.ackSeqNo + 1,
                          history := AckHistory.Store(t.history, t.historySize,
                                                      AckRecord(t.ackSeqNo + 1, t.lastAck, now)))
    {
      hide RcvBuffer.Valid, RcvLossList.Valid, AckWindow.Valid, UnreadOf, AheadOf, RcvLossList.Contents, AckedFull;
      hide SameHistory, AckHistory.Store, AckWindow.Contents, Wrap;
      ackSeqNo := ackSeqNo + 1;
      HistoryStore(ackWindow.Contents(), history, ackWindow.size, ackSeqNo, lastAckN, now);
      ackWindow.Store(ackSeqNo, lastAck, now);
      history := AckHistory.Store(history, ackWindow.size, AckRecord(ackSeqNo, lastAckN, now));
    }

    /** processCtrl type 6. */
    method ProcessAck2(ackNo: int, now: int)
      requires Valid()
      modifies this`lastAckAck, this`lastAckAckN, this`history
      modifies ackWindow`head, ackWindow`tail, ackWindow.ackSeqNo
      ensures Valid() && Abs() == OnAck2(old(Abs()), ackNo, now)
    {
      hide RcvBuffer.Valid, RcvLossList.Valid, AckWindow.Valid, UnreadOf, AheadOf, RcvLossList.Contents, AckedFull;
      hide SameHistory, Discard;
      hide Wrap, SeqCmp, Find, AckWindow.Contents;
      ghost var i := Find(history, ackNo);
      HistoryFind(ackWindow.Contents(), history, ackNo);
      var rtt, ack := ackWindow.Acknowledge(ackNo, now, lastAckAck);
      if i < |history| {
        assert history[i] in history;
      }
      ghost var was := history;
      history := Discard(history, ackNo);
      if rtt <= 0 { return; }
      if SeqCmp(ack, lastAckAck) > 0 {
        lastAckAck := ack;
        lastAckAckN := was[i].ack;
      }
    }

    /** recv: readBuffer. */
    method Read(len: nat) returns (data: seq<Byte>)
      requires Valid() && RcvBounded(Abs())
      modifies buffer`startPos, buffer`notch, buffer`cells, buffer`acked, buffer.slots, buffer.queue, buffer.units
      ensures Valid()
      ensures var (bytes, left, k) := ReadUnits(old(Abs()).unread, old(Abs()).notch, len);
              data == bytes && Abs() == old(Abs()).(unread := left, notch := k)
    {
      hide RcvBuffer.Valid, RcvLossList.Valid, AckWindow.Valid, AheadOf, RcvLossList.Contents, SameHistory, ReadUnits;
      hide CellPayloads, MsgModel.Drop;
      ghost var cells, acked := buffer.cells, buffer.acked;
      UnreadIs(cells, acked);
      data := buffer.ReadBuffer(len);
      ReadMoves(cells, acked, lastAckN, acked - buffer.acked);
    }

    /** sendCtrl type 3, the periodic report: nothing within the threshold after the last one. */
    method SendNak(limit: nat, threshold: int, now: int) returns (report: seq<Word>, ghost ranges: seq<Range>)
      requires Valid()
      modifies lossList`timeStamp
      ensures Valid() && Abs() == old(Abs())
      ensures report != [] ==> Reports(report, limit, ranges, Abs().loss)
      ensures report != [] <==> Abs().loss != {} && now - old(lossList.timeStamp) >= threshold && limit > 1
      ensures lossList.timeStamp ==
                if Abs().loss != {} && now - old(lossList.timeStamp) >= threshold then now else old(lossList.timeStamp)
    {
      hide RcvBuffer.Valid, RcvLossList.Valid, AckWindow.Valid, UnreadOf, AheadOf, AckedFull, SameHistory, Reports;
      hide Report, Members;
      report, ranges := [], [];
      lossList.At(0);
      var n := lossList.GetLossLength();
      if n > 0 {
        var words := new int[limit];
        var len := lossList.GetLossArray(words, limit, threshold, now);
        ReportFits(lossList.nodes, limit, 0);
        NoMembers();
        if len > 0 {
          ranges := ReportIsHonest(lossList.nodes, limit);
          report := words[..len];
        }
      }
    }
  }
}
