/** The two parties of a stream-mode connection as state machines over unbounded sequence numbers.
    Every function below is one lock-protected step of class CUDT. Comparisons with the last confirmed number are made
    on wrapped numbers, as in the code, since ACK2 packets may be lost for any length of time. */
module Protocol {
  import opened Bytes
  import opened AckHistory
  import opened Numbers
  import opened SeqNo

  datatype Range = Range(lo: int, hi: int)

  datatype Packet =
    | Data(seqNo: int, payload: Payload)
    | Ack(ackNo: int, ack: int, window: int)
    | LiteAck(ack: int)
    | Ack2(ackNo: int)
    | Nak(ranges: seq<Range>)

  // ---------- sending half ----------

  datatype Sender = Sender(
    blocks: seq<Payload>,   // from m_pFirstBlock up to m_pLastBlock
    curr: nat,              // distance from m_pFirstBlock to m_pCurrBlock
    lastAck: int,           // m_iSndLastAck
    lastDataAck: int,       // m_iSndLastDataAck
    currSeq: int,           // m_iSndCurrSeqNo
    loss: set<int>,         // m_pSndLossList
    flowWindow: int,        // m_iFlowWindowSize
    lastAck2: int,          // m_iSndLastAck2
    broken: bool)           // m_bBroken

  function AddBlocks(s: Sender, ps: seq<Payload>): Sender
  {
    s.(blocks := s.blocks + ps)
  }

  /** getLostSeq: the least lost number leaves the loss list. */
  ghost function PickLost(s: Sender, n: int): Sender
    requires n in s.loss
  {
    s.(loss := s.loss - {n})
  }

  /** The retransmission of a picked number; a number acknowledged meanwhile is skipped. */
  function ReadLost(s: Sender, n: int): Option<Packet>
    requires n - s.lastDataAck < |s.blocks|
  {
    if n < s.lastDataAck then None else Some(Data(n, s.blocks[n - s.lastDataAck]))
  }

  /** packData without a loss: the next fresh packet, if both windows admit it. */
  function PackNew(s: Sender, congestionWindow: int): (Sender, Option<Packet>)
  {
    if Min(s.flowWindow, congestionWindow) >= s.currSeq + 2 - s.lastAck && s.curr < |s.blocks| then
      (s.(currSeq := s.currSeq + 1, curr := s.curr + 1), Some(Data(s.currSeq + 1, s.blocks[s.curr])))
    else
      (s, None)
  }

  function OnLiteAck(s: Sender, ack: int): Sender
  {
    if ack >= s.lastAck then s.(flowWindow := s.flowWindow - (ack - s.lastAck), lastAck := ack) else s
  }

  /** The ACK2 reply: sent when the timer says so, or when this ACK was the last one confirmed. */
  function ConfirmAck(s: Sender, ackNo: int, due: bool): (Sender, Option<Packet>)
  {
    if due || ackNo == s.lastAck2 then (s.(lastAck2 := ackNo), Some(Ack2(ackNo))) else (s, None)
  }

  function From(s: set<int>, lo: int): (r: set<int>)
    ensures forall n :: n in r <==> n in s && n >= lo
  {
    set n | n in s && n >= lo
  }

  /** A full ACK frees the acknowledged blocks and forgets their losses. */
  function OnAck(s: Sender, ack: int, window: int): Sender
    requires s.lastDataAck < ack <= s.currSeq + 1 ==> ack - s.lastDataAck <= s.curr <= |s.blocks|
  {
    if ack > s.currSeq + 1 then s.(broken := true)
    else
      var t := if ack >= s.lastAck then s.(flowWindow := window, lastAck := ack) else s;
      if ack <= t.lastDataAck then t
      else
        t.(blocks := t.blocks[ack - t.lastDataAck..],
           curr := t.curr - (ack - t.lastDataAck),
           lastDataAck := ack,
           loss := From(t.loss, ack))
  }

  /** The decoding loop of a loss report, one entry at a time; a bad entry breaks the connection. */
  function OnNak(s: Sender, ranges: seq<Range>): Sender
    decreases |ranges|
  {
    if ranges == [] then s
    else if ranges[0].lo > ranges[0].hi || ranges[0].hi > s.currSeq then s.(broken := true)
    else
      var lo := if ranges[0].lo >= s.lastAck then ranges[0].lo else s.lastAck;
      OnNak(s.(loss := s.loss + Span(lo, ranges[0].hi)), ranges[1..])
  }

  /** The expiration branch of checkTimers. */
  function OnTimeout(s: Sender): Sender
  {
    if s.blocks != [] && s.currSeq + 1 != s.lastAck then s.(loss := s.loss + Span(s.lastAck, s.currSeq)) else s
  }

  // ---------- receiving half ----------

  datatype Receiver = Receiver(
    size: nat,              // slots of the receive buffer
    unread: seq<Payload>,   // slots m_iStartPos up to m_iLastAckPos
    notch: nat,             // m_iNotch
    ahead: map<int, Payload>, // slots from m_iLastAckPos on, by sequence number
    lastAck: int,           // m_iRcvLastAck
    lastAckAck: int,        // m_iRcvLastAckAck
    currSeq: int,           // m_iRcvCurrSeqNo
    loss: set<int>,         // m_pRcvLossList
    ackSeqNo: int,          // m_iAckSeqNo
    history: seq<AckRecord>, // m_pACKWindow
    historySize: nat)

  /** getAvailBufSize: one slot stays empty. */
  function Available(r: Receiver): int
  {
    r.size - |r.unread| - 1
  }

  /** processData; the second result is the loss report sent at once when a gap opens. */
  function OnData(r: Receiver, n: int, p: Payload): (Receiver, Option<Packet>)
  {
    if n < r.lastAck || n - r.lastAck >= Available(r) || n in r.ahead then (r, None)
    else
      var stored := r.(ahead := r.ahead[n := p]);
      if n > r.currSeq + 1 then
        (stored.(loss := r.loss + Span(r.currSeq + 1, n - 1), currSeq := n), Some(Nak([Range(r.currSeq + 1, n - 1)])))
      else if n > r.currSeq then (stored.(currSeq := n), None)
      else (stored.(loss := r.loss - {n}), None)
  }

  /** Least lost number, or the one after the greatest received one. */
  ghost function Low(r: Receiver): int
  {
    if r.loss == {} then r.currSeq + 1 else MinOf(r.loss)
  }

  ghost function SendLiteAck(r: Receiver): Option<Packet>
  {
    if Wrap(Low(r)) == Wrap(r.lastAckAck) then None else Some(LiteAck(Low(r)))
  }

  /** The run of stored payloads with the given numbers. */
  function Stored(ahead: map<int, Payload>, lo: int, hi: int): seq<Payload>
    requires lo <= hi && forall n :: lo <= n < hi ==> n in ahead
    decreases hi - lo
  {
    if lo == hi then [] else [ahead[lo]] + Stored(ahead, lo + 1, hi)
  }

  function AheadFrom(ahead: map<int, Payload>, lo: int): (m: map<int, Payload>)
    ensures forall n :: n in m <==> n in ahead && n >= lo
    ensures forall n :: n in m ==> m[n] == ahead[n]
  {
    map n | n in ahead && n >= lo :: ahead[n]
  }

  /** ackData: everything below the new acknowledgement point becomes readable. */
  ghost function Advance(r: Receiver, ack: int): Receiver
    requires r.lastAck <= ack && forall n :: r.lastAck <= n < ack ==> n in r.ahead
  {
    r.(unread := r.unread + Stored(r.ahead, r.lastAck, ack),
       ahead := AheadFrom(r.ahead, ack),
       lastAck := ack)
  }

  /** sendCtrl type 2 with a full ACK. `expired` says that the last ACK is older than the RTT bound. */
  ghost function SendAck(r: Receiver, now: int, expired: bool): (Receiver, Option<Packet>)
    requires forall n :: r.lastAck <= n < Low(r) ==> n in r.ahead
    requires r.historySize >= 2
  {
    var ack := Low(r);
    if Wrap(ack) == Wrap(r.lastAckAck) || ack < r.lastAck || (ack == r.lastAck && !expired) then (r, None)
    else
      var t := if ack > r.lastAck then Advance(r, ack) else r;
      if SeqCmp(Wrap(t.lastAck), Wrap(t.lastAckAck)) > 0 then
        var window := if Available(t) < 2 then 2 else Available(t);
        (t.(ackSeqNo := t.ackSeqNo + 1,
            history := Store(t.history, t.historySize, AckRecord(t.ackSeqNo + 1, t.lastAck, now))),
         Some(Ack(t.ackSeqNo + 1, t.lastAck, window)))
      else (t, None)
  }

  /** processCtrl type 6; a round trip of no measurable length is not used. */
  function OnAck2(r: Receiver, ackNo: int, now: int): Receiver
  {
    var i := Find(r.history, ackNo);
    if i == |r.history| then r
    else
      var t := r.(history := Discard(r.history, ackNo));
      if now - r.history[i].time > 0 && SeqCmp(Wrap(r.history[i].ack), Wrap(r.lastAckAck)) > 0 then
        t.(lastAckAck := r.history[i].ack)
      else t
  }

  /** readBuffer, unit by unit: the bytes copied out, the units left, and the new notch. */
  function ReadUnits(units: seq<Payload>, notch: nat, len: nat): (seq<Byte>, seq<Payload>, nat)
  {
    if units == [] || len == 0 || notch > |units[0]| then ([], units, notch)
    else
      var rest := |units[0]| - notch;
      if len >= rest then
        var (data, left, k) := ReadUnits(units[1..], 0, len - rest);
        (units[0][notch..] + data, left, k)
      else (units[0][notch..notch + len], units, notch + len)
  }

  /** The readable bytes of the receive buffer. */
  function Readable(units: seq<Payload>, notch: nat): seq<Byte>
  {
    var all := Flatten(units);
    if notch <= |all| then all[notch..] else []
  }
}
