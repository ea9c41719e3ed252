/** The sending half of class CUDT: its wrapped sequence numbers, buffer and loss list, and what each of its methods
    does to them. Every method is shown to take exactly the step of the protocol with the same name. */
module SenderHalves {
  import opened Bytes
  import opened Numbers
  import opened SeqNo
  import opened Protocol
  import opened ProtocolWidth
  import opened SndBuffers
  import opened SndLossLists
  import LossArrays
  import opened LossReport

  /** A data packet on the wire. */
  datatype DataPacket = DataPacket(seqNo: Seq31, header: Header, payload: Payload)

  lemma {:induction false} PayloadsOfPieces(ps: seq<Piece>, data: seq<Byte>, mss: nat, msgNo: int, inOrder: bool)
    requires mss > 0
    ensures PayloadsOf(ps + Pieces(data, mss, msgNo, inOrder)) == PayloadsOf(ps) + Chunks(data, mss)
  {
  }

  lemma {:induction false} PayloadsOfTail(ps: seq<Piece>, k: nat)
    requires k <= |ps|
    ensures PayloadsOf(ps[k..]) == PayloadsOf(ps)[k..]
  {
  }

  /** The cursors in order, the losses between them, and everything narrow enough for the wrapped comparisons. All but
      the width holds in every reachable state. */
  ghost predicate Bounded(s: Sender)
  {
    && s.lastDataAck <= s.lastAck <= s.currSeq + 1
    && s.curr == s.currSeq + 1 - s.lastDataAck <= |s.blocks|
    && (forall n :: n in s.loss ==> s.lastDataAck <= n <= s.currSeq)
    && (forall p :: p in s.blocks ==> p != [])
    && s.currSeq + 2 - s.lastDataAck < SEQ_NO_TH
  }

  /** The words of a loss report stand for these ranges. */
  ghost predicate Encodes(words: seq<Word>, ranges: seq<Range>)
  {
    && Decode(words).Some? && |Decode(words).value| == |ranges|
    && forall i :: 0 <= i < |ranges| ==> Decode(words).value[i] == WireRange(Wrap(ranges[i].lo), Wrap(ranges[i].hi))
  }

  /** One entry of a loss report: refused, or entered from the last acknowledged number on. */
  ghost predicate TakenIn(s: Sender, x: Range, secure: bool, t: Sender)
  {
    && secure == !(x.lo > x.hi || x.hi > s.currSeq)
    && t == if secure then s.(loss := s.loss + Span(if x.lo >= s.lastAck then x.lo else s.lastAck, x.hi)) else s
  }

  /** If the entry is accepted, the loss list has slots for it. */
  ghost predicate TakenFits(s: Sender, x: Range, slots: int)
  {
    x.lo > x.hi || x.hi > s.currSeq ||
    LossFits(s.loss + Span(if x.lo >= s.lastAck then x.lo else s.lastAck, x.hi), slots)
  }

  lemma {:induction false} InsertFits(loss: set<int>, lo: int, hi: int, slots: int)
    requires lo <= hi && LossFits(loss + Span(lo, hi), slots) && hi - lo < SEQ_NO_TH
    requires forall n :: n in loss ==> n - lo < SEQ_NO_TH && hi - n < SEQ_NO_TH
    ensures LossArrays.Fits(slots, loss, lo, hi)
  {
    assert lo in loss + Span(lo, hi) && hi in loss + Span(lo, hi);
    assert Distance(lo, hi) < slots;
    forall n | n in loss ensures LossArrays.Close(slots, lo, n) && LossArrays.Close(slots, n, hi) {
      assert Distance(lo, n) < slots && Distance(n, hi) < slots;
    }
  }

  lemma {:induction false} OnNakGrows(s: Sender, todo: seq<Range>)
    ensures s.loss <= OnNak(s, todo).loss
    decreases |todo|
  {
    if todo != [] && todo[0].lo <= todo[0].hi <= s.currSeq {
      var lo := if todo[0].lo >= s.lastAck then todo[0].lo else s.lastAck;
      OnNakGrows(s.(loss := s.loss + Span(lo, todo[0].hi)), todo[1..]);
    }
  }

  lemma {:induction false} EntryFits(s: Sender, todo: seq<Range>, slots: int)
    requires todo != [] && LossFits(OnNak(s, todo).loss, slots)
    ensures TakenFits(s, todo[0], slots)
  {
    var x := todo[0];
    var t := s.(loss := s.loss + Span(if x.lo >= s.lastAck then x.lo else s.lastAck, x.hi));
    OnNakGrows(t, todo[1..]);
  }

  /** A range that is all acknowledged adds nothing. */
  lemma {:induction false} NothingBelow(s: Sender, x: Range)
    ensures x.hi < s.lastAck ==> s.loss + Span(s.lastAck, x.hi) == s.loss
  {
  }

  lemma {:induction false} OnNakHead(s: Sender, todo: seq<Range>, secure: bool, t: Sender)
    requires todo != [] && TakenIn(s, todo[0], secure, t)
    ensures OnNak(s, todo) == if secure then OnNak(t, todo[1..]) else t.(broken := true)
    ensures t == s.(loss := t.loss)
    ensures Bounded(s) ==> Bounded(t)
  {
  }

  lemma {:induction false} DecodeHead(words: seq<Word>, todo: seq<Range>)
    requires words != [] && Encodes(words, todo)
    ensures todo != []
    ensures if words[0] >= 0 then
              words[0] == Wrap(todo[0].lo) == Wrap(todo[0].hi) && Encodes(words[1..], todo[1..])
            else
              && |words| > 1 && words[1] >= 0 && words[0] + MODULUS == Wrap(todo[0].lo) && words[1] == Wrap(todo[0].hi)
              && Encodes(words[2..], todo[1..])
  {
    var rest := Decode(if words[0] >= 0 then words[1..] else words[2..]).value;
    assert Decode(words).value == [Decode(words).value[0]] + rest;
    forall i | 0 <= i < |todo[1..]| ensures rest[i] == WireRange(Wrap(todo[1..][i].lo), Wrap(todo[1..][i].hi)) {
      assert rest[i] == Decode(words).value[i + 1];
    }
  }

  lemma {:induction false} DecodeEnd(s: Sender, words: seq<Word>, todo: seq<Range>)
    requires words == [] && Encodes(words, todo)
    ensures OnNak(s, todo) == s
  {
  }

  class SenderHalf {
    const buffer: SndBuffer       // m_pSndBuffer
    const lossList: SndLossList   // m_pSndLossList
    var lastAck: Seq31            // m_iSndLastAck
    var lastDataAck: Seq31        // m_iSndLastDataAck
    var currSeqNo: Seq31          // m_iSndCurrSeqNo
    var flowWindow: int           // m_iFlowWindowSize
    var lastAck2: int             // m_iSndLastAck2
    var broken: bool              // m_bBroken
    ghost var lastAckN: int       // the unbounded numbers behind the wrapped ones
    ghost var lastDataAckN: int
    ghost var currSeqN: int

    ghost predicate Valid()
      reads this, buffer, buffer.repr, lossList, lossList.data1, lossList.data2, lossList.next
    {
      && buffer.Valid() && lossList.Valid()
      && lastAck == Wrap(lastAckN) && lastDataAck == Wrap(lastDataAckN) && currSeqNo == Wrap(currSeqN)
    }

    ghost function Abs(): Sender
      reads this, buffer, buffer.repr, lossList
      requires buffer.Valid()
    {
      Sender(PayloadsOf(buffer.Contents()), buffer.sent, lastAckN, lastDataAckN, currSeqN, lossList.Contents(),
             flowWindow, lastAck2, broken)
    }

    /** A connection whose first packet will be numbered isn. */
    constructor (isn: Seq31, size: nat, mss: nat, lossSize: int, window: int)
      requires isn >= 1 && size > 0 && mss > 0 && lossSize > 0
      ensures Valid() && fresh(buffer) && fresh(buffer.repr) && fresh(lossList)
      ensures buffer.mss == mss && lossList.size == lossSize
      ensures fresh(lossList.data1) && fresh(lossList.data2) && fresh(lossList.next)
      ensures Abs() == Sender([], 0, isn, isn, isn - 1, {}, window, isn, false)
    {
      buffer := new SndBuffer(size, mss);
      lossList := new SndLossList(lossSize);
      lastAck, lastDataAck, currSeqNo := isn, isn, isn - 1;
      flowWindow, lastAck2, broken := window, isn, false;
      lastAckN, lastDataAckN, currSeqN := isn, isn, isn - 1;
    }

    /** send: the user's bytes become blocks. */
    method Send(data: seq<Byte>)
      requires Valid()
      modifies buffer, buffer.repr
      ensures Valid() && Abs() == AddBlocks(old(Abs()), Chunks(data, buffer.mss))
      ensures fresh(buffer.repr - old(buffer.repr))
    {
      hide SndBuffer.Valid, SndBuffer.Closed, SndLossList.Valid;
      buffer.Facts();
      PayloadsOfPieces(buffer.Contents(), data, buffer.mss, buffer.nextMsgNo, false);
      buffer.AddBuffer(data, false);
    }

    /** packData, first half: getLostSeq. */
    method PickLostSeq() returns (seqno: int, ghost n: int)
      requires Valid()
      modifies lossList, lossList.data1, lossList.data2, lossList.next
      ensures Valid()
      ensures old(Abs()).loss == {} ==> seqno == -1 && Abs() == old(Abs())
      ensures old(Abs()).loss != {} ==>
                n == MinOf(old(Abs()).loss) && seqno == Wrap(n) && Abs() == PickLost(old(Abs()), n)
    {
      hide SndBuffer.Valid, SndBuffer.Closed, SndLossList.Valid, SndLossList.Contents;
      seqno, n := lossList.GetLostSeq();
    }

    /** packData, second half: the lost packet, unless it was acknowledged meanwhile. */
    method PackLost(seqno: Seq31, ghost n: int) returns (p: Option<DataPacket>)
      requires Valid() && seqno == Wrap(n) && Near(n, lastDataAckN) && n - lastDataAckN < |Abs().blocks|
      ensures match ReadLost(Abs(), n)
              case None => p == None
              case Some(sent) =>
                && p.Some?
                && p.value == DataPacket(Wrap(n), buffer.Contents()[n - lastDataAckN].header, p.value.payload)
                && sent == Data(n, p.value.payload)
    {
      hide SndBuffer.Valid, SndBuffer.Closed, SndLossList.Valid;
      buffer.Facts();
      OffRefines(lastDataAckN, n);
      var offset := SeqOff(lastDataAck, seqno);
      if offset < 0 { return None; }
      var piece := buffer.ReadAt(offset);
      p := Some(DataPacket(seqno, piece.header, piece.data));
    }

    /** packData without a loss. */
    method PackFresh(congestionWindow: int) returns (p: Option<DataPacket>)
      requires Valid() && Bounded(Abs())
      modifies this`currSeqNo, this`currSeqN, buffer`curr, buffer`sent
      ensures Valid() && Abs() == PackNew(old(Abs()), congestionWindow).0
      ensures match PackNew(old(Abs()), congestionWindow).1
              case None => p == None
              case Some(sent) =>
                && p.Some?
                && p.value == DataPacket(Wrap(currSeqN), buffer.Contents()[old(buffer.sent)].header, p.value.payload)
                && sent == Data(currSeqN, p.value.payload)
      ensures p.Some? <==>
                && old(buffer.sent) < |old(buffer.Contents())|
                && old(currSeqN) + 1 - lastAckN < congestionWindow && old(currSeqN) + 1 - lastAckN < flowWindow
      ensures p.Some? ==>
                && currSeqN == old(currSeqN) + 1 && buffer.sent == old(buffer.sent) + 1
                && p.value.seqNo == Wrap(currSeqN)
                && p.value.payload == old(buffer.Contents())[old(buffer.sent)].data
      ensures p == None ==> Abs() == old(Abs())
    {
      hide SndBuffer.Valid, SndBuffer.Closed, SndLossList.Valid;
      buffer.Facts();
      IncRefines(currSeqN);
      LenRefines(lastAckN, currSeqN + 1);
      p := None;
      var window := if flowWindow < congestionWindow then flowWindow else congestionWindow;
      if window >= SeqLen(lastAck, IncSeq(currSeqNo)) {
        assert Abs().curr < |Abs().blocks| ==> Abs().blocks[Abs().curr] in Abs().blocks;
        var piece := buffer.ReadNew();
        if piece.Some? && |piece.value.data| != 0 {
          currSeqNo := IncSeq(currSeqNo);
          currSeqN := currSeqN + 1;
          p := Some(DataPacket(currSeqNo, piece.value.header, piece.value.data));
        }
      }
    }

    /** processCtrl type 2 with a lite ACK. */
    method ProcessLiteAck(ack: Seq31, ghost n: int)
      requires Valid() && ack == Wrap(n) && Near(n, lastAckN)
      modifies this`flowWindow, this`lastAck, this`lastAckN
      ensures Valid() && Abs() == OnLiteAck(old(Abs()), n)
    {
      hide SndBuffer.Valid, SndBuffer.Closed, SndLossList.Valid;
      CmpRefines(n, lastAckN);
      OffRefines(lastAckN, n);
      if SeqCmp(ack, lastAck) >= 0 {
        flowWindow := flowWindow - SeqOff(lastAck, ack);
        lastAck := ack;
        lastAckN := n;
      }
    }

    /** processCtrl type 2 with a full ACK; the reply is the number an ACK2 confirms. */
    method ProcessAck(ackNo: int, ack: Seq31, window: int, due: bool, ghost n: int) returns (reply: Option<int>)
      requires Valid() && Bounded(Abs())
      requires ack == Wrap(n) && Near(n, currSeqN + 1) && Near(n, lastAckN) && Near(n, lastDataAckN)
      modifies this, buffer`first, buffer`count, buffer`ring, buffer`sent
      modifies lossList, lossList.data1, lossList.data2, lossList.next
      ensures Valid() && Abs() == OnAck(ConfirmAck(old(Abs()), ackNo, due).0, n, window)
      ensures match ConfirmAck(old(Abs()), ackNo, due).1
              case None => reply == None
              case Some(confirm) => reply.Some? && confirm == Ack2(reply.value)
    {
      hide SndBuffer.Valid, SndBuffer.Closed, SndLossList.Valid, OnAck, PayloadsOf;
      buffer.Facts();
      reply := None;
      if due || ackNo == lastAck2 {
        reply := Some(ackNo);
        lastAck2 := ackNo;
      }
      TakeAck(ack, window, n);
    }

    /** The data part of a full ACK. */
    method TakeAck(ack: Seq31, window: int, ghost n: int)
      requires Valid() && Bounded(Abs())
      requires ack == Wrap(n) && Near(n, currSeqN + 1) && Near(n, lastAckN) && Near(n, lastDataAckN)
      modifies this`broken, this`flowWindow, this`lastAck, this`lastAckN, this`lastDataAck, this`lastDataAckN
      modifies buffer`first, buffer`count, buffer`ring, buffer`sent
      modifies lossList, lossList.data1, lossList.data2, lossList.next
      ensures Valid() && Abs() == OnAck(old(Abs()), n, window)
    {
      hide SndBuffer.Valid, SndBuffer.Closed, SndLossList.Valid, PayloadsOf, SndBuffer.Contents, SndLossList.Contents;
      hide From, Wrap, SeqCmp, IncSeq;
      buffer.Facts();
      IncRefines(currSeqN);
      CmpRefines(n, currSeqN + 1);
      if SeqCmp(ack, IncSeq(currSeqNo)) > 0 {
        broken := true;
        return;
      }
      CmpRefines(n, lastAckN);
      if SeqCmp(ack, lastAck) >= 0 {
        flowWindow := window;
        lastAck := ack;
        lastAckN := n;
      }
      FreeAcked(ack, n);
    }

    /** The end of a full ACK: acknowledged blocks and their losses are dropped. */
    method FreeAcked(ack: Seq31, ghost n: int)
      requires Valid() && ack == Wrap(n) && Near(n, lastDataAckN) && n - lastDataAckN <= buffer.sent
      requires forall x :: x in lossList.Contents() ==> Near(x, n - 1)
      modifies this`lastDataAck, this`lastDataAckN, buffer`first, buffer`count, buffer`ring, buffer`sent
      modifies lossList, lossList.data1, lossList.data2, lossList.next
      ensures Valid()
      ensures var t, d := old(Abs()), n - old(lastDataAckN);
              Abs() == if d <= 0 then t
                       else t.(blocks := t.blocks[d..], curr := t.curr - d, lastDataAck := n,
                               loss := From(t.loss, n))
    {
      hide SndBuffer.Valid, SndBuffer.Closed, SndLossList.Valid, PayloadsOf, SndBuffer.Contents, SndLossList.Contents;
      buffer.Facts();
      OffRefines(lastDataAckN, n);
      var offset := SeqOff(lastDataAck, ack);
      if offset <= 0 { return; }
      ghost var was := buffer.Contents();
      buffer.AckData(offset);
      lastDataAck := ack;
      lastDataAckN := n;
      IncRefines(n);
      ghost var losses := lossList.Contents();
      lossList.Remove(DecSeq(lastDataAck), n - 1);
      assert lossList.Contents() == From(losses, n);
      PayloadsOfTail(was, offset);
    }

    /** The expiration branch of checkTimers. */
    method Expire()
      requires Valid() && Bounded(Abs()) && LossFits(OnTimeout(Abs()).loss, lossList.size)
      modifies lossList, lossList.data1, lossList.data2, lossList.next
      ensures Valid() && Abs() == OnTimeout(old(Abs()))
    {
      hide SndBuffer.Valid, SndBuffer.Closed, SndLossList.Valid;
      buffer.Facts();
      IncRefines(currSeqN);
      WrapInjective(currSeqN + 1, lastAckN);
      if buffer.count > 0 {
        if IncSeq(currSeqNo) != lastAck {
          Enter(lastAck, currSeqNo, lastAckN, currSeqN);
        }
      }
    }

    /** Sent numbers from a to b go into the loss list. */
    method Enter(a: Seq31, b: Seq31, ghost lo: int, ghost hi: int)
      requires Valid() && Bounded(Abs()) && a == Wrap(lo) && b == Wrap(hi) && lastAckN <= lo <= hi <= currSeqN
      requires LossFits(Abs().loss + Span(lo, hi), lossList.size)
      modifies lossList, lossList.data1, lossList.data2, lossList.next
      ensures Valid() && Abs() == old(Abs()).(loss := old(Abs()).loss + Span(lo, hi))
    {
      hide SndBuffer.Valid, SndBuffer.Closed, SndLossList.Valid, PayloadsOf, SndBuffer.Contents, SndLossList.Contents;
      hide Span;
      InsertFits(Abs().loss, lo, hi, lossList.size);
      hide LossFits, LossArrays.Fits;
      var _ := lossList.Insert(a, b, lo, hi);
    }

    /** One pair of a loss report. */
    method TakeRange(a: Seq31, b: Seq31, ghost x: Range) returns (secure: bool)
      requires Valid() && Bounded(Abs()) && a == Wrap(x.lo) && b == Wrap(x.hi) && Reportable(Abs(), x)
      requires TakenFits(Abs(), x, lossList.size)
      modifies lossList, lossList.data1, lossList.data2, lossList.next
      ensures Valid() && TakenIn(old(Abs()), x, secure, Abs())
    {
      hide SndBuffer.Valid, SndBuffer.Closed, SndLossList.Valid, PayloadsOf, SndBuffer.Contents, SndLossList.Contents;
      NothingBelow(old(Abs()), x);
      hide Span;
      CmpRefines(x.lo, x.hi);
      CmpRefines(x.hi, currSeqN);
      if SeqCmp(a, b) > 0 || SeqCmp(b, currSeqNo) > 0 { return false; }
      CmpRefines(x.lo, lastAckN);
      CmpRefines(x.hi, lastAckN);
      if SeqCmp(a, lastAck) >= 0 {
        Enter(a, b, x.lo, x.hi);
      } else if SeqCmp(b, lastAck) >= 0 {
        Enter(lastAck, b, lastAckN, x.hi);
      }
      secure := true;
    }

    /** A single number of a loss report. */
    method TakeNumber(a: Seq31, ghost x: Range) returns (secure: bool)
      requires Valid() && Bounded(Abs()) && a == Wrap(x.lo) && x.hi == x.lo && Reportable(Abs(), x)
      requires TakenFits(Abs(), x, lossList.size)
      modifies lossList, lossList.data1, lossList.data2, lossList.next
      ensures Valid() && TakenIn(old(Abs()), x, secure, Abs())
    {
      hide SndBuffer.Valid, SndBuffer.Closed, SndLossList.Valid, PayloadsOf, SndBuffer.Contents, SndLossList.Contents;
      NothingBelow(old(Abs()), x);
      hide Span;
      CmpRefines(x.lo, lastAckN);
      CmpRefines(x.lo, currSeqN);
      if SeqCmp(a, lastAck) >= 0 {
        if SeqCmp(a, currSeqNo) > 0 { return false; }
        Enter(a, a, x.lo, x.lo);
      }
      secure := true;
    }

    /** processCtrl type 3: decodes a loss report word by word. */
    method ProcessNak(words: seq<Word>, ghost ranges: seq<Range>)
      requires Valid() && Bounded(Abs()) && Encodes(words, ranges)
      requires LossFits(OnNak(Abs(), ranges).loss, lossList.size)
      requires forall x :: x in ranges ==> Reportable(Abs(), x)
      modifies this`broken, lossList, lossList.data1, lossList.data2, lossList.next
      ensures Valid() && Abs() == OnNak(old(Abs()), ranges)
    {
      hide SndBuffer.Valid, SndBuffer.Closed, SndLossList.Valid, PayloadsOf, SndBuffer.Contents, SndLossList.Contents;
      hide Bounded, OnNak, TakenIn, Decode;
      var i, n := 0, |words|;
      var secure := true;
      ghost var todo := ranges;
      assert words[0..] == words;
      while i < n
        invariant 0 <= i <= n && Valid() && secure && Encodes(words[i..], todo)
        invariant Bounded(Abs()) && Abs() == old(Abs()).(loss := Abs().loss)
        invariant forall x :: x in todo ==> x in ranges
        invariant OnNak(Abs(), todo) == OnNak(old(Abs()), ranges)
        invariant LossFits(OnNak(Abs(), todo).loss, lossList.size)
      {
        ghost var here := words[i..];
        assert here[0] == words[i] && (|here| > 1 ==> here[1] == words[i + 1]);
        DecodeHead(here, todo);
        ghost var s, x := Abs(), todo[0];
        assert x in ranges;
        EntryFits(s, todo, lossList.size);
        if words[i] < 0 {
          secure := TakeRange(words[i] + MODULUS, words[i + 1], x);
          OnNakHead(s, todo, secure, Abs());
          if !secure { break; }
          assert here[2..] == words[i + 2..];
          i := i + 1;
        } else {
          WrapInjective(x.lo, x.hi);
          secure := TakeNumber(words[i], x);
          OnNakHead(s, todo, secure, Abs());
          if !secure { break; }
          assert here[1..] == words[i + 1..];
        }
        i := i + 1;
        todo := todo[1..];
      }
      if !secure {
        broken := true;
      } else {
        DecodeEnd(Abs(), words[i..], todo);
      }
    }
  }
}
