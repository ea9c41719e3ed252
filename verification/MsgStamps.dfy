/** The boundary bits addBuffer sets make a stamped stream. */
module MsgStamps {
  import opened Bytes
  import opened SndBuffers
  import opened MsgModel
  import MsgRun

  /** Blocks of whole messages only, one message after the other. */
  ghost predicate WholeMessages(log: seq<Piece>)
  {
    && (forall i, j :: 0 <= i < j < |log| && j == i + 1 ==> (log[i].header.last <==> log[j].header.first))
    && (log != [] ==> log[0].header.first && log[|log| - 1].header.last)
  }

  /** Every user buffer added keeps the log one of whole messages, and itself becomes exactly one of them. */
  lemma {:induction false} AddBufferStamps(log: seq<Piece>, data: seq<Byte>, mss: nat, msgNo: int, inOrder: bool)
    requires WholeMessages(log) && mss > 0 && data != []
    ensures var ps := Pieces(data, mss, msgNo, inOrder);
            && WholeMessages(log + ps)
            && ps != [] && ps[0].header.first && ps[|ps| - 1].header.last
            && (forall i :: 0 <= i < |ps| ==> ps[i].header.inOrder == inOrder && ps[i].header.msgNo == msgNo)
            && (forall i, j :: 0 <= i < j < |ps| ==> !ps[j].header.first && !ps[i].header.last)
            && PayloadBytes(ps) == data
  {
    var ps := Pieces(data, mss, msgNo, inOrder);
    ChunksFlatten(data, mss);
    assert PayloadsOf(ps) == Chunks(data, mss);
    hide Chunks, Flatten;
    assert ps != [];
    forall i, j | 0 <= i < j < |log + ps| && j == i + 1
      ensures (log + ps)[i].header.last <==> (log + ps)[j].header.first {
      if j < |log| {
        assert (log + ps)[i] == log[i] && (log + ps)[j] == log[j];
      } else {
        assert (log + ps)[j] == ps[j - |log|];
        assert i >= |log| ==> (log + ps)[i] == ps[i - |log|];
      }
    }
  }

  /** The number of the message that follows k others. */
  function NumberAfter(k: nat): int
  {
    if k == 0 then 1 else NextMsgNo(NumberAfter(k - 1))
  }

  /** Message numbers count from 1 up to the last 29-bit number but one and start over: they are never 0, and two
      messages share a number exactly if their distance is a multiple of that round. */
  lemma {:induction false} NumbersGoRound(i: nat, j: nat)
    ensures 1 <= NumberAfter(i) < MaxMsgNo
    ensures NumberAfter(i) == NumberAfter(j) <==> (j - i) % (MaxMsgNo - 1) == 0
  {
    NumberIs(i);
    NumberIs(j);
  }

  lemma {:induction false} NumberIs(k: nat)
    ensures NumberAfter(k) == 1 + k % (MaxMsgNo - 1)
  {
    if k > 0 {
      NumberIs(k - 1);
    }
  }

  function PayloadBytes(ps: seq<Piece>): seq<Byte>
  {
    Flatten(PayloadsOf(ps))
  }

  /** The packets numbered isn, isn + 1, and so on carry the blocks of the log; other numbers are never sent. */
  function UnitOf(log: seq<Piece>, isn: int, n: int): UnitData
  {
    if 0 <= n - isn < |log| then
      var x := log[n - isn];
      UnitData(x.data, x.header.first, x.header.last, x.header.inOrder)
    else UnitData([], true, true, false)
  }

  lemma {:induction false} StreamIsStamped(log: seq<Piece>, isn: int)
    requires WholeMessages(log)
    ensures MsgRun.StampedStream(n => UnitOf(log, isn, n))
  {
    var sent := n => UnitOf(log, isn, n);
    forall i, j | j == i + 1 ensures sent(i).last <==> sent(j).first {
      if 0 <= i - isn && j - isn < |log| {
        assert log[i - isn].header.last <==> log[j - isn].header.first;
      }
    }
  }
}
