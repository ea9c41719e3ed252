/** The history of sent ACKs as a bounded first-in first-out list: what CACKWindow implements. */
module AckHistory {
  /** One sent ACK: its own number, the data number it carried, and when it left. */
  datatype AckRecord = AckRecord(ackNo: int, ack: int, time: int)

  /** Append a record; a full history (size - 1 records) forgets its oldest one. */
  function Store(w: seq<AckRecord>, size: nat, r: AckRecord): seq<AckRecord>
    requires size >= 2
  {
    if |w| + 1 < size then w + [r] else w[1..] + [r]
  }

  /** The record stored is the last one, and those before it are the latest there were, in their order: all of them
      while there is room. */
  lemma {:induction false} StoreKeepsLatest(w: seq<AckRecord>, size: nat, r: AckRecord)
    requires size >= 2 && |w| <= size - 1
    ensures var t := Store(w, size, r);
            && |t| == (if |w| + 1 < size then |w| + 1 else size - 1)
            && t[|t| - 1] == r && t[..|t| - 1] == w[|w| + 1 - |t|..]
  {
  }

  /** Index of the oldest record with the given number, or |w|. */
  function Find(w: seq<AckRecord>, ackNo: int): (i: nat)
    ensures i <= |w|
    ensures forall j :: 0 <= j < i ==> w[j].ackNo != ackNo
    ensures i < |w| ==> w[i].ackNo == ackNo
  {
    if w == [] || w[0].ackNo == ackNo then 0 else Find(w[1..], ackNo) + 1
  }

  /** What is left after the record with this number, and all before it, are discarded. */
  function Discard(w: seq<AckRecord>, ackNo: int): seq<AckRecord>
  {
    var i := Find(w, ackNo);
    if i < |w| then w[i + 1..] else w
  }
}
