/** When each step of the protocol does something, and exactly what: in the terms of the two parties' cursors, and for
    every reachable state. */
module ProtocolLaws {
  import opened Bytes
  import opened Numbers
  import opened SeqNo
  import opened AckHistory
  import opened Protocol
  import opened ProtocolRun
  import opened ProtocolSafety
  import opened ProtocolWidth

  /** What holds in every state of a run whose windows are not too wide for the wrapped comparisons. */
  ghost predicate Lives(st: State)
  {
    Inv(st) && Narrow(st, Most) && Lag(st)
  }

  lemma {:induction false} RunLives(trace: seq<State>, steps: seq<Step>, i: nat)
    requires IsRun(trace, steps) && i < |trace|
    requires trace[0].s.flowWindow <= Most && trace[0].r.size <= Most + 1
    ensures Lives(trace[i])
  {
    hide Inv, Narrow, Lag, Do, Enabled, Init;
    RunInv(trace, steps, i);
    RunNarrow(trace, steps, Most, i);
    if i > 0 {
      RunLives(trace, steps, i - 1);
      LagStep(trace[i - 1], steps[i - 1]);
    } else {
      InitLag(trace[0]);
    }
  }

  lemma {:induction false} InitLag(st: State)
    requires Init(st)
    ensures Lag(st)
  {
  }

  // ---------- the sender ----------

  /** send appends the bytes to what was given before, cut into the fewest blocks that hold them, none of them empty,
      and touches nothing else. */
  lemma {:induction false} BytesEnter(st: State, data: seq<Byte>, mss: nat)
    requires Enabled(st, Send(data, mss))
    ensures var st' := Do(st, Send(data, mss));
            && st'.app == st.app + data && st.input <= st'.input
            && var more := st'.input[|st.input|..];
               && Flatten(more) == data && (forall p :: p in more ==> 1 <= |p| <= mss)
               && |more| == |data| / mss + (if |data| % mss != 0 then 1 else 0)
               && st' == st.(app := st'.app, input := st'.input, s := st.s.(blocks := st.s.blocks + more))
  {
    ChunksFlatten(data, mss);
    ChunkCount(data, mss);
    hide Chunks;
    var ps := Chunks(data, mss);
    assert (st.input + ps)[|st.input|..] == ps;
  }

  /** packData sends a fresh packet exactly if a block was never sent and both the flow window and the congestion window
      exceed the number of packets not acknowledged; it is the next number, with the next block. */
  lemma {:induction false} FreshPacketLeaves(st: State, cw: int)
    requires Inv(st) && Enabled(st, SendFresh(cw))
    ensures var st', n := Do(st, SendFresh(cw)), st.s.currSeq + 1;
            var sends := n - st.isn < |st.input| && n - st.s.lastAck < cw && n - st.s.lastAck < st.s.flowWindow;
            && (sends <==> st'.net != st.net)
            && (sends ==>
                  Data(n, st.input[n - st.isn]) !in st.net && st'.net == st.net + {Data(n, st.input[n - st.isn])})
            && st' == st.(s := st.s.(currSeq := if sends then n else st.s.currSeq, curr := st'.s.curr), net := st'.net)
  {
    OldNumbers(st);
    hide ReceiverPart, Low, PacketOk;
  }

  lemma {:induction false} OldNumbers(st: State)
    requires Inv(st)
    ensures forall p :: p in st.net && p.Data? ==> p.seqNo <= st.s.currSeq
    ensures forall p :: p in st.net && p.Ack? ==> p.ackNo <= st.r.ackSeqNo
  {
    forall p | p in st.net ensures PacketOk(st, p) {
    }
  }

  /** The number taken for retransmission is the least lost one; its block leaves unless it was freed meanwhile. */
  lemma {:induction false} LostPacketLeaves(st: State)
    requires Inv(st) && st.pending == None && st.s.loss != {}
    ensures var picked := Do(st, PickRetransmission);
            && picked.pending.Some?
            && var n := picked.pending.value;
               && n in st.s.loss && (forall m :: m in st.s.loss ==> n <= m)
               && picked == st.(s := st.s.(loss := st.s.loss - {n}), pending := Some(n))
  {
  }

  lemma {:induction false} PickedPacketLeaves(st: State)
    requires Inv(st) && st.pending.Some?
    ensures var n := st.pending.value;
            && (n >= st.s.lastDataAck ==> 0 <= n - st.isn < |st.input|)
            && Do(st, SendRetransmission) ==
                 st.(pending := None,
                     net := if n >= st.s.lastDataAck then st.net + {Data(n, st.input[n - st.isn])} else st.net)
  {
    hide ReceiverPart, Low;
  }

  /** A lite ACK moves the left edge of the flow window, never backwards, and leaves the right one where it is. */
  lemma {:induction false} LiteAckTaken(st: State, ack: int)
    requires Enabled(st, RecvLiteAck(ack))
    ensures var st' := Do(st, RecvLiteAck(ack));
            && st' == st.(s := st.s.(lastAck := st'.s.lastAck, flowWindow := st'.s.flowWindow))
            && st'.s.lastAck == Max(st.s.lastAck, ack) && RightEdge(st'.s) == RightEdge(st.s)
  {
  }

  /** A full ACK is answered by an ACK2 if the timer says so, or if it is the one answered last, which is then
      repeated. */
  lemma {:induction false} AckAnswered(st: State, k: int, ack: int, window: int, due: bool)
    requires Inv(st) && Enabled(st, RecvAck(k, ack, window, due))
    ensures var st' := Do(st, RecvAck(k, ack, window, due));
            if due || k == st.s.lastAck2 then st'.net == st.net + {Ack2(k)} && st'.s.lastAck2 == k
            else st'.net == st.net && st'.s.lastAck2 == st.s.lastAck2
  {
    hide ReceiverPart, Low, InputOk;
  }

  /** A full ACK moves both edges of the flow window unless a later ACK came before it, and frees exactly the blocks and
      the losses below its number. */
  lemma {:induction false} AckTaken(st: State, k: int, ack: int, window: int, due: bool)
    requires Inv(st) && Enabled(st, RecvAck(k, ack, window, due))
    ensures var st' := Do(st, RecvAck(k, ack, window, due));
            && st'.s.lastAck == Max(st.s.lastAck, ack) && st'.s.lastDataAck == Max(st.s.lastDataAck, ack)
            && st'.s.flowWindow == (if ack >= st.s.lastAck then window else st.s.flowWindow)
            && (forall n :: n in st'.s.loss <==> n in st.s.loss && n >= st'.s.lastDataAck)
            && 0 <= st'.s.lastDataAck - st.isn <= |st.input| && st'.s.blocks == st.input[st'.s.lastDataAck - st.isn..]
            && st'.s.currSeq == st.s.currSeq && !st'.s.broken
            && st' == st.(s := st'.s, net := st'.net)
  {
    hide Inv, SenderOk, OnAck, Do;
    AckArrives(st, k, ack, window, due);
    AckMoves(st.isn, st.input, ConfirmAck(st.s, k, due).0, ack, window);
    DoFullAck(st, k, ack, window, due);
    hide Enabled;
  }

  /** A full ACK of a number never sent breaks the connection, and does nothing else; no other one breaks it. */
  lemma {:induction false} AckRefused(s: Sender, ack: int, window: int)
    requires s.lastDataAck < ack <= s.currSeq + 1 ==> ack - s.lastDataAck <= s.curr <= |s.blocks|
    ensures var t := OnAck(s, ack, window);
            && (t.broken <==> s.broken || ack > s.currSeq + 1)
            && (ack > s.currSeq + 1 ==> t == s.(broken := true))
  {
  }

  lemma {:induction false} AckArrives(st: State, k: int, ack: int, window: int, due: bool)
    requires Inv(st) && Enabled(st, RecvAck(k, ack, window, due))
    ensures SenderOk(st.isn, st.input, ConfirmAck(st.s, k, due).0) && ack <= st.s.currSeq + 1
  {
    assert PacketOk(st, Ack(k, ack, window));
    LowIs(st.isn, st.input, st.r);
    hide Low, InputOk, ReceiverPart;
  }

  lemma {:induction false} DoFullAck(st: State, k: int, ack: int, window: int, due: bool)
    requires Enabled(st, RecvAck(k, ack, window, due))
    requires var s := ConfirmAck(st.s, k, due).0;
             s.lastDataAck < ack <= s.currSeq + 1 ==> ack - s.lastDataAck <= s.curr <= |s.blocks|
    ensures var (s, p) := ConfirmAck(st.s, k, due);
            Do(st, RecvAck(k, ack, window, due)) == st.(s := OnAck(s, ack, window), net := Put(st.net, p))
  {
    hide OnAck, ConfirmAck, Put;
  }

  lemma {:induction false} AckMoves(isn: int, input: seq<Payload>, s: Sender, ack: int, window: int)
    requires SenderOk(isn, input, s) && ack <= s.currSeq + 1
    ensures s.lastDataAck < ack ==> ack - s.lastDataAck <= s.curr <= |s.blocks|
    ensures var t := OnAck(s, ack, window);
            && t.lastAck == Max(s.lastAck, ack) && t.lastDataAck == Max(s.lastDataAck, ack)
            && t.flowWindow == (if ack >= s.lastAck then window else s.flowWindow)
            && (forall n :: n in t.loss <==> n in s.loss && n >= t.lastDataAck)
            && 0 <= t.lastDataAck - isn <= |input| && t.blocks == input[t.lastDataAck - isn..]
            && t.currSeq == s.currSeq && !t.broken
  {
    AckKeepsSender(isn, input, s, ack, window);
  }

  /** A loss report enters exactly the numbers it names that are not acknowledged, and changes nothing else. */
  lemma {:induction false} NakTaken(st: State, ranges: seq<Range>)
    requires Inv(st) && Enabled(st, RecvNak(ranges))
    ensures var st' := Do(st, RecvNak(ranges));
            && st' == st.(s := st.s.(loss := st'.s.loss))
            && forall n :: n in st'.s.loss <==>
                 n in st.s.loss || (n >= st.s.lastAck && exists x :: x in ranges && x.lo <= n <= x.hi)
  {
    assert PacketOk(st, Nak(ranges));
    hide ReceiverPart, InputOk, Low;
    ReportEnters(st.s, ranges);
  }

  /** A range that is empty, or names a number never sent. */
  predicate Bad(s: Sender, x: Range)
  {
    x.lo > x.hi || x.hi > s.currSeq
  }

  /** The same of any report: it breaks the connection exactly if some range of it is bad, and what comes before the
      first such range is entered. */
  lemma {:induction false} ReportEnters(s: Sender, ranges: seq<Range>)
    ensures var t := OnNak(s, ranges);
            && t == s.(loss := t.loss, broken := t.broken)
            && (t.broken <==> s.broken || exists x :: x in ranges && Bad(s, x))
            && forall n :: n in t.loss <==> n in s.loss || (n >= s.lastAck && Before(s, ranges, n))
    decreases |ranges|
  {
    if ranges != [] {
      var x, rest := ranges[0], ranges[1..];
      assert ranges == [x] + rest;
      if Bad(s, x) {
        assert x in ranges;
      } else {
        var lo := if x.lo >= s.lastAck then x.lo else s.lastAck;
        var u := s.(loss := s.loss + Span(lo, x.hi));
        ReportEnters(u, rest);
        hide OnNak;
        forall n ensures Before(s, ranges, n) <==> x.lo <= n <= x.hi || Before(u, rest, n) {
          BeforeStep(s, u, ranges, n);
        }
        BadLater(s, u, ranges);
      }
    }
  }

  lemma {:induction false} BadLater(s: Sender, u: Sender, ranges: seq<Range>)
    requires ranges != [] && !Bad(s, ranges[0]) && u.currSeq == s.currSeq
    ensures (exists x :: x in ranges && Bad(s, x)) <==> (exists x :: x in ranges[1..] && Bad(u, x))
  {
    if x :| x in ranges[1..] && Bad(u, x) {
      assert x in ranges && Bad(s, x);
    }
    if x :| x in ranges && Bad(s, x) {
      assert x in ranges[1..] && Bad(u, x);
    }
  }

  /** Number n is named by a range with no bad one up to it. */
  ghost predicate Before(s: Sender, ranges: seq<Range>, n: int)
  {
    exists i :: 0 <= i < |ranges| && ranges[i].lo <= n <= ranges[i].hi && NoneBad(s, ranges, i)
  }

  ghost predicate NoneBad(s: Sender, ranges: seq<Range>, i: int)
    requires 0 <= i < |ranges|
  {
    forall j :: 0 <= j <= i ==> !Bad(s, ranges[j])
  }

  lemma {:induction false} BeforeStep(s: Sender, u: Sender, ranges: seq<Range>, n: int)
    requires ranges != [] && !Bad(s, ranges[0]) && u.currSeq == s.currSeq
    ensures Before(s, ranges, n) <==> ranges[0].lo <= n <= ranges[0].hi || Before(u, ranges[1..], n)
  {
    var rest := ranges[1..];
    if Before(s, ranges, n) {
      var i :| 0 <= i < |ranges| && ranges[i].lo <= n <= ranges[i].hi && NoneBad(s, ranges, i);
      if i > 0 {
        assert rest[i - 1] == ranges[i];
        forall j | 0 <= j <= i - 1 ensures !Bad(u, rest[j]) {
          assert rest[j] == ranges[j + 1];
        }
        assert NoneBad(u, rest, i - 1);
      }
    }
    if ranges[0].lo <= n <= ranges[0].hi {
      assert NoneBad(s, ranges, 0);
    } else if Before(u, rest, n) {
      var i :| 0 <= i < |rest| && rest[i].lo <= n <= rest[i].hi && NoneBad(u, rest, i);
      assert ranges[i + 1] == rest[i];
      forall j | 0 <= j <= i + 1 ensures !Bad(s, ranges[j]) {
        if j > 0 { assert ranges[j] == rest[j - 1]; }
      }
      assert NoneBad(s, ranges, i + 1);
    }
  }

  /** An expired timer takes every packet sent and not acknowledged for lost. */
  lemma {:induction false} TimeoutTaken(st: State)
    requires Inv(st)
    ensures var st' := Do(st, Timeout);
            && st' == st.(s := st.s.(loss := st'.s.loss))
            && forall n :: n in st'.s.loss <==> n in st.s.loss || st.s.lastAck <= n <= st.s.currSeq
  {
    hide ReceiverPart, InputOk, Low;
  }

  // ---------- the receiver ----------

  /** A data packet is stored exactly if its number is not acknowledged, its slot is among the free ones, of which one
      is left empty, and the slot holds nothing yet. The numbers it skips are lost from then on, and reported at
      once. */
  lemma {:induction false} DataTaken(st: State, n: int, p: Payload)
    requires Inv(st) && Enabled(st, RecvData(n, p))
    ensures var st', r := Do(st, RecvData(n, p)), st.r;
            if r.lastAck <= n < r.lastAck + (r.size - 1 - |r.unread|) && n !in r.ahead then
              && st'.r == r.(ahead := r.ahead[n := p], currSeq := Max(r.currSeq, n), loss := st'.r.loss)
              && (forall m :: m in st'.r.loss <==> (m in r.loss && m != n) || r.currSeq < m < n)
              && st' == st.(r := st'.r, net := st'.net)
              && st'.net == st.net + if n > r.currSeq + 1 then {Nak([Range(r.currSeq + 1, n - 1)])} else {}
            else st' == st
  {
    hide SenderOk, InputOk, Low, Do, NotchOk, DeliveryOk, HistoryOk, PacketOk;
    DoData(st, n, p);
    DataStored(st.r, n, p);
    hide OnData;
  }

  lemma {:induction false} DataStored(r: Receiver, n: int, p: Payload)
    requires forall m :: m in r.loss ==> m <= r.currSeq
    ensures var (t, report) := OnData(r, n, p);
            if r.lastAck <= n < r.lastAck + (r.size - 1 - |r.unread|) && n !in r.ahead then
              && t == r.(ahead := r.ahead[n := p], currSeq := Max(r.currSeq, n), loss := t.loss)
              && (forall m :: m in t.loss <==> (m in r.loss && m != n) || r.currSeq < m < n)
              && report == if n > r.currSeq + 1 then Some(Nak([Range(r.currSeq + 1, n - 1)])) else None
            else t == r && report == None
  {
    hide Span;
    if n > r.currSeq + 1 {
    } else if n > r.currSeq {
    }
  }

  /** recv hands over the first bytes that are ready, as many as asked for if there are so many, and leaves the rest. */
  lemma {:induction false} BytesLeave(st: State, len: nat)
    requires Inv(st)
    ensures var st', ready := Do(st, Read(len)), Readable(st.r.unread, st.r.notch);
            var n := Min(len, |ready|);
            && st'.delivered == st.delivered + ready[..n] && Readable(st'.r.unread, st'.r.notch) == ready[n..]
            && |st'.r.unread| <= |st.r.unread|
            && st' == st.(delivered := st'.delivered,
                          r := st.r.(unread := st.r.unread[|st.r.unread| - |st'.r.unread|..], notch := st'.r.notch))
  {
    hide Inv, Do, Readable, ReadUnits;
    UnitsAreTidy(st);
    ReadIsPrefix(st.r.unread, st.r.notch, len);
    ReadLeaves(st.r.unread, st.r.notch, len);
    DoRecv(st, len);
  }

  lemma {:induction false} UnitsAreTidy(st: State)
    requires Inv(st)
    ensures if st.r.unread == [] then st.r.notch == 0 else st.r.notch < |st.r.unread[0]|
    ensures forall i :: 0 <= i < |st.r.unread| ==> |st.r.unread[i]| > 0
  {
    hide Low, SenderOk, PacketOk, DeliveryOk, HistoryOk;
    assert forall i :: 0 <= i < |st.r.unread| ==> st.r.unread[i] in st.input;
  }

  lemma {:induction false} DoRecv(st: State, len: nat)
    requires st.r.unread == [] || st.r.notch <= |st.r.unread[0]|
    ensures var (data, left, notch) := ReadUnits(st.r.unread, st.r.notch, len);
            Do(st, Read(len)) == st.(r := st.r.(unread := left, notch := notch), delivered := st.delivered + data)
  {
    hide ReadUnits;
  }

  /** A lite ACK leaves unless the number it would carry is the last confirmed one. */
  lemma {:induction false} LiteAckLeaves(st: State)
    requires Lives(st)
    ensures Do(st, EmitLiteAck) ==
            if Low(st.r) == st.r.lastAckAck then st else st.(net := st.net + {LiteAck(Low(st.r))})
  {
    LagBounds(st);
    WrapInjective(Low(st.r), st.r.lastAckAck);
    hide Low, Inv, Narrow, Lag, Wrap;
  }

  /** The least missing number is above the acknowledgement point, or is at it and the last ACK is old; and it is news
      at the last confirmed number. */
  ghost predicate AckIsDue(r: Receiver, expired: bool)
  {
    && (Low(r) > r.lastAck || (Low(r) == r.lastAck && expired))
    && SeqCmp(Wrap(Low(r)), Wrap(r.lastAckAck)) > 0
  }

  /** A full ACK leaves exactly if it is due. It has the next number, carries the least missing number and the free
      room, of at least 2, and is recorded. Otherwise neither the count of ACKs, nor the records, nor the network
      changes. */
  lemma {:induction false} FullAckLeaves(st: State, now: int, expired: bool)
    requires Lives(st)
    ensures var st', r := Do(st, EmitAck(now, expired)), st.r;
            var room := r.size - 1 - (|r.unread| + (Low(r) - r.lastAck));
            if AckIsDue(r, expired) then
              && (forall p :: p in st.net && p.Ack? ==> p.ackNo < r.ackSeqNo + 1)
              && st'.net == st.net + {Ack(r.ackSeqNo + 1, Low(r), Max(2, room))}
              && st'.r.ackSeqNo == r.ackSeqNo + 1
              && st'.r.history != [] && st'.r.history[|st'.r.history| - 1] == AckRecord(r.ackSeqNo + 1, Low(r), now)
            else st'.net == st.net && st'.r.ackSeqNo == r.ackSeqNo && st'.r.history == r.history
  {
    LagBounds(st);
    OldNumbers(st);
    Readied(st);
    FullAckIs(st.r, now, expired);
    hide Low, Lives, Store, Stored, AheadFrom, SeqCmp, Wrap, SendAck, Do;
    DoEmit(st, now, expired);
  }

  lemma {:induction false} FullAckIs(r: Receiver, now: int, expired: bool)
    requires r.historySize >= 2 && r.lastAck <= Low(r) && forall n :: r.lastAck <= n < Low(r) ==> n in r.ahead
    ensures var (t, p) := SendAck(r, now, expired);
            var room := r.size - 1 - (|r.unread| + (Low(r) - r.lastAck));
            if AckIsDue(r, expired) then
              && p == Some(Ack(r.ackSeqNo + 1, Low(r), Max(2, room))) && t.ackSeqNo == r.ackSeqNo + 1
              && t.history != [] && t.history[|t.history| - 1] == AckRecord(r.ackSeqNo + 1, Low(r), now)
            else p == None && t.ackSeqNo == r.ackSeqNo && t.history == r.history
  {
    StoredLength(r.ahead, r.lastAck, Low(r));
    NotAfterItself(Wrap(Low(r)));
    hide Low, Stored, AheadFrom, SeqCmp, Wrap;
  }

  lemma {:induction false} NotAfterItself(s: Seq31)
    ensures SeqCmp(s, s) == 0
  {
  }

  lemma {:induction false} StoredLength(ahead: map<int, Payload>, lo: int, hi: int)
    requires lo <= hi && forall n :: lo <= n < hi ==> n in ahead
    ensures |Stored(ahead, lo, hi)| == hi - lo
    decreases hi - lo
  {
    if lo < hi {
      StoredLength(ahead, lo + 1, hi);
    }
  }

  /** Whether an ACK leaves or not, when the timer runs the acknowledgement point moves up to the least missing number,
      and exactly the payloads below it become readable. */
  lemma {:induction false} AckPointMoves(st: State, now: int, expired: bool)
    requires Lives(st)
    ensures var st', r := Do(st, EmitAck(now, expired)), st.r;
            && 0 <= r.lastAck - st.isn <= Low(r) - st.isn <= |st.input|
            && st'.r.lastAck == Low(r) == Low(st'.r) && st'.r.lastAckAck == r.lastAckAck
            && st'.r.unread == r.unread + st.input[r.lastAck - st.isn..Low(r) - st.isn] && st'.r.notch == r.notch
            && (forall n :: n in st'.r.ahead <==> n in r.ahead && n >= Low(r))
            && st'.r.currSeq == r.currSeq && st'.r.loss == r.loss && st'.s == st.s && st'.delivered == st.delivered
  {
    LagBounds(st);
    WrapInjective(Low(st.r), st.r.lastAckAck);
    Readied(st);
    AckPointIs(st.r, now, expired);
    hide Low, Lives, Store, Stored, AheadFrom, SeqCmp, Wrap, SendAck, Do;
    DoEmit(st, now, expired);
  }

  lemma {:induction false} Readied(st: State)
    requires Inv(st)
    ensures var r := st.r;
            && 0 <= r.lastAck - st.isn <= Low(r) - st.isn <= |st.input|
            && (forall n :: r.lastAck <= n < Low(r) ==> n in r.ahead)
            && Stored(r.ahead, r.lastAck, Low(r)) == st.input[r.lastAck - st.isn..Low(r) - st.isn]
            && (forall n :: n in r.ahead ==> n >= r.lastAck)
  {
    LowIs(st.isn, st.input, st.r);
    StoredIs(st.isn, st.input, st.r.ahead, st.r.lastAck, Low(st.r));
  }

  lemma {:induction false} AckPointIs(r: Receiver, now: int, expired: bool)
    requires r.historySize >= 2 && r.lastAckAck <= r.lastAck <= Low(r) < r.lastAckAck + MODULUS
    requires forall n :: r.lastAck <= n < Low(r) ==> n in r.ahead
    requires forall n :: n in r.ahead ==> n >= r.lastAck
    requires Wrap(Low(r)) == Wrap(r.lastAckAck) <==> Low(r) == r.lastAckAck
    ensures var t := SendAck(r, now, expired).0;
            && t.lastAck == Low(r) && t.lastAckAck == r.lastAckAck && t.currSeq == r.currSeq && t.loss == r.loss
            && t.unread == r.unread + Stored(r.ahead, r.lastAck, Low(r)) && t.notch == r.notch && Low(t) == Low(r)
            && (forall n :: n in t.ahead <==> n in r.ahead && n >= Low(r))
  {
    hide Low, Store, SeqCmp, Wrap;
    var t := SendAck(r, now, expired).0;
    SameLow(r, t);
    assert r.unread + [] == r.unread;
  }

  lemma {:induction false} SameLow(r: Receiver, t: Receiver)
    ensures t.loss == r.loss && t.currSeq == r.currSeq ==> Low(t) == Low(r)
  {
  }

  /** An ACK2 confirms the number its ACK carried, if that ACK is still recorded, was sent earlier, and is news; it and
      all records before it are then forgotten. */
  lemma {:induction false} Ack2Taken(st: State, k: int, now: int)
    requires Enabled(st, RecvAck2(k, now))
    ensures var st', h, i := Do(st, RecvAck2(k, now)), st.r.history, Find(st.r.history, k);
            if i < |h| then
              && h[i].ackNo == k
              && st' == st.(r := st.r.(history := h[i + 1..], lastAckAck := st'.r.lastAckAck))
              && st'.r.lastAckAck ==
                   if now > h[i].time && SeqCmp(Wrap(h[i].ack), Wrap(st.r.lastAckAck)) > 0 then h[i].ack
                   else st.r.lastAckAck
            else st' == st
  {
  }

  // ---------- how long an ACK is remembered ----------

  /** The records have consecutive numbers, up to the ACK sent last. */
  ghost predicate Consecutive(r: Receiver)
  {
    && |r.history| <= r.historySize - 1
    && forall i :: 0 <= i < |r.history| ==> r.history[i].ackNo == r.ackSeqNo - |r.history| + 1 + i
  }

  lemma {:induction false} StepConsecutive(st: State, step: Step)
    requires Inv(st) && Enabled(st, step) && Consecutive(st.r)
    ensures var r, r' := st.r, Do(st, step).r;
            && Consecutive(r') && r'.historySize == r.historySize
            && r'.ackSeqNo <= r.ackSeqNo + 1
            && (r'.ackSeqNo == r.ackSeqNo + 1 ==> |r'.history| == Min(|r.history| + 1, r.historySize - 1))
            && (r'.ackSeqNo <= r.ackSeqNo && !step.RecvAck2? ==> r'.ackSeqNo == r.ackSeqNo && r'.history == r.history)
  {
    hide Inv, Do, Consecutive;
    match step
    case EmitAck(now, expired) => EmitConsecutive(st, now, expired);
    case RecvAck2(k, now) => Ack2Consecutive(st, k, now);
    case _ =>
      CountsOnlyThere(st, step);
      SameRecords(st.r, Do(st, step).r);
  }

  lemma {:induction false} Ack2Consecutive(st: State, k: int, now: int)
    requires Enabled(st, RecvAck2(k, now)) && Consecutive(st.r)
    ensures var r' := Do(st, RecvAck2(k, now)).r;
            Consecutive(r') && r'.historySize == st.r.historySize && r'.ackSeqNo == st.r.ackSeqNo
  {
    Ack2Taken(st, k, now);
    hide Do, Find;
  }

  lemma {:induction false} EmitConsecutive(st: State, now: int, expired: bool)
    requires Inv(st) && Consecutive(st.r)
    ensures var r, r' := st.r, Do(st, EmitAck(now, expired)).r;
            && Consecutive(r') && r'.historySize == r.historySize && r.ackSeqNo <= r'.ackSeqNo <= r.ackSeqNo + 1
            && (r'.ackSeqNo == r.ackSeqNo + 1 ==> |r'.history| == Min(|r.history| + 1, r.historySize - 1))
            && (r'.ackSeqNo == r.ackSeqNo ==> r'.history == r.history && r'.lastAckAck == r.lastAckAck)
  {
    hide Do, Low, Store, SendAck, Consecutive;
    DoEmit(st, now, expired);
    SentOrNot(st.r, now, expired);
    var r' := SendAck(st.r, now, expired).0;
    if r'.ackSeqNo != st.r.ackSeqNo {
      StoreConsecutive(st.r, r', AckRecord(r'.ackSeqNo, Low(st.r), now));
    } else {
      SameRecords(st.r, r');
    }
  }

  lemma {:induction false} SentOrNot(r: Receiver, now: int, expired: bool)
    requires r.historySize >= 2 && forall n :: r.lastAck <= n < Low(r) ==> n in r.ahead
    ensures var t := SendAck(r, now, expired).0;
            && t.historySize == r.historySize && t.lastAckAck == r.lastAckAck
            && if t.ackSeqNo == r.ackSeqNo then t.history == r.history
               else t.ackSeqNo == r.ackSeqNo + 1
                    && t.history == Store(r.history, r.historySize, AckRecord(t.ackSeqNo, Low(r), now))
  {
    hide Low, Store, Stored, AheadFrom, SeqCmp, Wrap;
  }

  lemma {:induction false} StoreConsecutive(r: Receiver, t: Receiver, x: AckRecord)
    requires Consecutive(r) && r.historySize == t.historySize >= 2
    requires x.ackNo == t.ackSeqNo == r.ackSeqNo + 1 && t.history == Store(r.history, r.historySize, x)
    ensures Consecutive(t) && |t.history| == Min(|r.history| + 1, r.historySize - 1)
  {
    StoreKeepsLatest(r.history, r.historySize, x);
    var h, u := r.history, t.history;
    hide Store;
    forall i | 0 <= i < |u| ensures u[i].ackNo == t.ackSeqNo - |u| + 1 + i {
      if i < |u| - 1 {
        assert u[i] == u[..|u| - 1][i] == h[|h| + 1 - |u| + i];
      }
    }
  }

  lemma {:induction false} SameRecords(r: Receiver, t: Receiver)
    requires Consecutive(r) && t.history == r.history && t.historySize == r.historySize && t.ackSeqNo == r.ackSeqNo
    ensures Consecutive(t)
  {
  }

  lemma {:induction false} RunConsecutive(trace: seq<State>, steps: seq<Step>, i: nat)
    requires IsRun(trace, steps) && i < |trace|
    ensures Consecutive(trace[i].r) && trace[i].r.historySize == trace[0].r.historySize
  {
    if i > 0 {
      RunConsecutive(trace, steps, i - 1);
      RunInv(trace, steps, i - 1);
      hide Inv, Do, Enabled, Consecutive, Init;
      StepConsecutive(trace[i - 1], steps[i - 1]);
    }
  }

  /** The record of ACK k is there, and is this one. */
  ghost predicate Remembers(r: Receiver, k: int, x: AckRecord)
  {
    && x.ackNo == k <= r.ackSeqNo < k + |r.history|
    && r.history[|r.history| - 1 - (r.ackSeqNo - k)] == x
  }

  lemma {:induction false} StepRemembers(st: State, step: Step, k: int, x: AckRecord)
    requires Inv(st) && Enabled(st, step) && Consecutive(st.r) && Remembers(st.r, k, x)
    requires !(step.RecvAck2? && step.ackNo >= k)
    requires Do(st, step).r.ackSeqNo - k < st.r.historySize - 1
    ensures Remembers(Do(st, step).r, k, x)
  {
    hide Inv, Do, Enabled, Consecutive, Remembers;
    StepConsecutive(st, step);
    var r, r' := st.r, Do(st, step).r;
    if step.RecvAck2? {
      Ack2Remembers(st, step.ackNo, step.now, k, x);
    } else if r'.ackSeqNo == r.ackSeqNo + 1 {
      StepStores(st, step);
      StoreRemembers(r, r', k, x);
    } else {
      SameRemembers(r, r', k, x);
    }
  }

  lemma {:induction false} Ack2Remembers(st: State, k2: int, now: int, k: int, x: AckRecord)
    requires Enabled(st, RecvAck2(k2, now)) && Consecutive(st.r) && Remembers(st.r, k, x) && k2 < k
    ensures Remembers(Do(st, RecvAck2(k2, now)).r, k, x)
  {
    Ack2Taken(st, k2, now);
    hide Do, Find;
  }

  lemma {:induction false} StoreRemembers(r: Receiver, t: Receiver, k: int, x: AckRecord)
    requires Remembers(r, k, x) && t.ackSeqNo == r.ackSeqNo + 1 && t.ackSeqNo - k < r.historySize - 1
    requires var h, u := r.history, t.history;
             |u| == Min(|h| + 1, r.historySize - 1) && forall i :: 0 <= i < |u| - 1 ==> u[i] == h[|h| + 1 - |u| + i]
    ensures Remembers(t, k, x)
  {
  }

  lemma {:induction false} SameRemembers(r: Receiver, t: Receiver, k: int, x: AckRecord)
    requires Remembers(r, k, x) && t.ackSeqNo == r.ackSeqNo && t.history == r.history
    ensures Remembers(t, k, x)
  {
  }

  /** A step that counts an ACK keeps the latest records, in order. */
  lemma {:induction false} StepStores(st: State, step: Step)
    requires Inv(st) && Enabled(st, step) && Consecutive(st.r) && Do(st, step).r.ackSeqNo == st.r.ackSeqNo + 1
    ensures var h, u := st.r.history, Do(st, step).r.history;
            |u| == Min(|h| + 1, st.r.historySize - 1) && forall i :: 0 <= i < |u| - 1 ==> u[i] == h[|h| + 1 - |u| + i]
  {
    StepConsecutive(st, step);
    if step.EmitAck? {
      hide Do, Low, Store, SendAck, Consecutive;
      DoEmit(st, step.now, step.expired);
      SentOrNot(st.r, step.now, step.expired);
      var r := SendAck(st.r, step.now, step.expired).0;
      LatestKept(st.r.history, st.r.historySize, AckRecord(r.ackSeqNo, Low(st.r), step.now));
    } else {
      CountsOnlyThere(st, step);
      assert false;
    }
  }

  lemma {:induction false} LatestKept(h: seq<AckRecord>, size: nat, x: AckRecord)
    requires size >= 2 && |h| <= size - 1
    ensures var u := Store(h, size, x);
            |u| == Min(|h| + 1, size - 1) && forall i :: 0 <= i < |u| - 1 ==> u[i] == h[|h| + 1 - |u| + i]
  {
    StoreKeepsLatest(h, size, x);
    var u := Store(h, size, x);
    hide Store;
    forall i | 0 <= i < |u| - 1 ensures u[i] == h[|h| + 1 - |u| + i] {
      assert u[..|u| - 1][i] == h[|h| + 1 - |u|..][i];
    }
  }

  lemma {:induction false} CountsOnlyThere(st: State, step: Step)
    requires Enabled(st, step) && !step.EmitAck?
    ensures var r, r' := st.r, Do(st, step).r;
            && r'.ackSeqNo == r.ackSeqNo && r'.historySize == r.historySize
            && (!step.RecvAck2? ==> r'.history == r.history)
  {
    hide Chunks, OnNak, OnAck, Span;
  }

  /** The record of an ACK is still found, and is the one made when it left, so long as fewer than historySize - 1 ACKs
      followed it and neither it nor a later one was confirmed. Its ACK2 then confirms its number, if that is news. */
  lemma {:induction false} AckIsRemembered(trace: seq<State>, steps: seq<Step>, i: nat, j: nat)
    requires IsRun(trace, steps) && i < j < |trace| && trace[i + 1].r.ackSeqNo == trace[i].r.ackSeqNo + 1
    requires trace[j].r.ackSeqNo - trace[i + 1].r.ackSeqNo < trace[0].r.historySize - 1
    requires forall m :: i < m < j ==> !(steps[m].RecvAck2? && steps[m].ackNo >= trace[i + 1].r.ackSeqNo)
    ensures var r, k := trace[j].r, trace[i + 1].r.ackSeqNo;
            && trace[i + 1].r.history != [] && Find(r.history, k) < |r.history|
            && r.history[Find(r.history, k)] == trace[i + 1].r.history[|trace[i + 1].r.history| - 1]
  {
    hide Inv, Do, Enabled, IsRun, Find, Consecutive, Remembers;
    LengthOf(trace, steps);
    var k := trace[i + 1].r.ackSeqNo;
    RunConsecutive(trace, steps, i);
    RunConsecutive(trace, steps, i + 1);
    RunInv(trace, steps, i);
    StepAt(trace, steps, i);
    StepConsecutive(trace[i], steps[i]);
    SizeIsTwo(trace[i]);
    var h := trace[i + 1].r.history;
    var x := h[|h| - 1];
    LastRemembered(trace[i + 1].r);
    RunRemembers(trace, steps, i + 1, j, k, x);
    RunConsecutive(trace, steps, j);
    FoundThere(trace[j].r, k, x);
  }

  lemma {:induction false} StepAt(trace: seq<State>, steps: seq<Step>, i: nat)
    requires IsRun(trace, steps) && i + 1 < |trace|
    ensures i < |steps| && Enabled(trace[i], steps[i]) && trace[i + 1] == Do(trace[i], steps[i])
  {
    hide Do, Enabled, Init;
  }

  lemma {:induction false} LengthOf(trace: seq<State>, steps: seq<Step>)
    requires IsRun(trace, steps)
    ensures |trace| == |steps| + 1
  {
    hide Do, Enabled, Init;
  }

  lemma {:induction false} RunRemembers(trace: seq<State>, steps: seq<Step>, i: nat, j: nat, k: int, x: AckRecord)
    requires IsRun(trace, steps) && i <= j < |trace| && Remembers(trace[i].r, k, x)
    requires trace[j].r.ackSeqNo - k < trace[0].r.historySize - 1
    requires forall m :: i <= m < j ==> !(steps[m].RecvAck2? && steps[m].ackNo >= k)
    ensures Remembers(trace[j].r, k, x)
  {
    hide Inv, Do, Enabled, Consecutive, Remembers, IsRun;
    if i < j {
      LengthOf(trace, steps);
      RunConsecutive(trace, steps, j - 1);
      RunInv(trace, steps, j - 1);
      StepAt(trace, steps, j - 1);
      CountGrows(trace[j - 1], steps[j - 1]);
      RunRemembers(trace, steps, i, j - 1, k, x);
      StepRemembers(trace[j - 1], steps[j - 1], k, x);
    }
  }

  lemma {:induction false} SizeIsTwo(st: State)
    requires Inv(st)
    ensures st.r.historySize >= 2
  {
  }

  lemma {:induction false} LastRemembered(r: Receiver)
    requires Consecutive(r) && r.history != []
    ensures Remembers(r, r.ackSeqNo, r.history[|r.history| - 1])
  {
  }

  lemma {:induction false} CountGrows(st: State, step: Step)
    requires Inv(st) && Enabled(st, step)
    ensures st.r.ackSeqNo <= Do(st, step).r.ackSeqNo
  {
    if step.EmitAck? {
      hide Do, Low, Store, SendAck;
      DoEmit(st, step.now, step.expired);
      SentOrNot(st.r, step.now, step.expired);
    } else {
      CountsOnlyThere(st, step);
    }
  }

  lemma {:induction false} FoundThere(r: Receiver, k: int, x: AckRecord)
    requires Consecutive(r) && Remembers(r, k, x)
    ensures Find(r.history, k) < |r.history| && r.history[Find(r.history, k)] == x
  {
    var m := |r.history| - 1 - (r.ackSeqNo - k);
    assert r.history[m].ackNo == k;
  }
}
