/** CACKWindow: the history of sent ACKs in a circular buffer. */
module AckWindows {
  import opened AckHistory
  import opened Numbers

  class AckWindow {
    const size: int               // m_iSize
    const ackSeqNo: array<int>    // m_piACKSeqNo
    const ackNo: array<int>       // m_piACK
    const timeStamp: array<int>   // m_pTimeStamp
    var head: int                 // m_iHead: where the next record goes
    var tail: int                 // m_iTail: the oldest record

    ghost predicate Valid()
      reads this
    {
      && size >= 2 && ackSeqNo.Length == ackNo.Length == timeStamp.Length == size
      && ackSeqNo != ackNo && ackSeqNo != timeStamp && ackNo != timeStamp
      && 0 <= head < size && 0 <= tail < size
    }

    ghost function Count(): nat
      requires Valid()
      reads this
    {
      if head >= tail then head - tail else head + size - tail
    }

    /** The physical index of the k-th oldest record. */
    ghost function Index(k: nat): int
      requires Valid() && k < size
      reads this
    {
      if tail + k < size then tail + k else tail + k - size
    }

    ghost function Record(k: nat): AckRecord
      requires Valid() && k < size
      reads this, ackSeqNo, ackNo, timeStamp
    {
      AckRecord(ackSeqNo[Index(k)], ackNo[Index(k)], timeStamp[Index(k)])
    }

    /** The records, oldest first, in the unwrapped and the wrapped layout alike. */
    ghost function Contents(): (w: seq<AckRecord>)
      requires Valid()
      reads this, ackSeqNo, ackNo, timeStamp
    {
      seq(Count(), k requires Valid() && 0 <= k < Count() reads this, ackSeqNo, ackNo, timeStamp => Record(k))
    }

    constructor (size: int)
      requires size >= 2
      ensures Valid() && Contents() == [] && this.size == size
      ensures fresh(ackSeqNo) && fresh(ackNo) && fresh(timeStamp)
    {
      this.size := size;
      ackSeqNo := new int[size](_ => -1);
      ackNo := new int[size](_ => 0);
      timeStamp := new int[size](_ => 0);
      head, tail := 0, 0;
    }

    method Next(i: int) returns (j: int)
      requires Valid() && 0 <= i < size
      ensures j == if i + 1 < size then i + 1 else 0
    {
      j := (i + 1) % size;
    }

    /** CACKWindow::store: the new record goes last; a full window forgets its oldest record, and only that. */
    method Store(seqNo: int, ack: int, now: int)
      requires Valid()
      modifies this`head, this`tail, ackSeqNo, ackNo, timeStamp
      ensures Valid() && Contents() == AckHistory.Store(old(Contents()), size, AckRecord(seqNo, ack, now))
      ensures |Contents()| == Min(|old(Contents())| + 1, size - 1)
      ensures Contents()[|Contents()| - 1] == AckRecord(seqNo, ack, now)
      ensures Contents()[..|Contents()| - 1] == old(Contents())[|old(Contents())| + 1 - |Contents()|..]
    {
      StoreKeepsLatest(Contents(), size, AckRecord(seqNo, ack, now));
      hide AckHistory.Store, Contents;
      Append(seqNo, ack, now);
    }

    method Append(seqNo: int, ack: int, now: int)
      requires Valid()
      modifies this`head, this`tail, ackSeqNo, ackNo, timeStamp
      ensures Valid() && Contents() == AckHistory.Store(old(Contents()), size, AckRecord(seqNo, ack, now))
    {
      ghost var w, r := Contents(), AckRecord(seqNo, ack, now);
      WriteRecord(seqNo, ack, now);
      ghost var all := w + [r];
      assert forall k :: 0 <= k < |all| ==> Record(k) == all[k];
      head := Next(head);
      if head == tail {
        tail := Next(tail);
        Shifted(all);
      } else {
        assert Contents() == all;
      }
    }

    method WriteRecord(seqNo: int, ack: int, now: int)
      requires Valid()
      modifies ackSeqNo, ackNo, timeStamp
      ensures Contents() == old(Contents()) && Count() < size && Record(Count()) == AckRecord(seqNo, ack, now)
    {
      ghost var w := Contents();
      ackSeqNo[head] := seqNo;
      ackNo[head] := ack;
      timeStamp[head] := now;
      assert forall k :: 0 <= k < |w| ==> Index(k) != head && Record(k) == w[k];
    }

    /** After the tail has followed the head, the records start one later. */
    lemma {:induction false} Shifted(all: seq<AckRecord>)
      requires Valid() && |all| == size && Count() == size - 1
      requires forall k :: 0 <= k < size ==>
                 var i := if tail + k - 1 < 0 then size - 1
                          else if tail + k - 1 < size then tail + k - 1 else tail + k - 1 - size;
                 AckRecord(ackSeqNo[i], ackNo[i], timeStamp[i]) == all[k]
      ensures Contents() == all[1..]
    {
      forall k | 0 <= k < Count() ensures Record(k) == all[k + 1] {
      }
    }

    /** The tail moves past the record at index m, the last one of the first `gone`. */
    method Forget(m: int, ghost gone: nat)
      requires Valid() && 0 < gone <= Count() && m == Index(gone - 1)
      modifies this`tail
      ensures Valid() && Contents() == old(Contents())[gone..]
    {
      ghost var w := Contents();
      assert forall k :: 0 <= k < |w| ==> Record(k) == w[k];
      tail := Next(m);
      assert |w| == gone + Count();
      forall k | 0 <= k < Count() ensures Record(k) == w[k + gone] {
      }
    }

    /** The record found is the i-th: everything up to it is forgotten. */
    lemma {:induction false} FoundAt(w: seq<AckRecord>, seqNo: int, i: nat)
      requires i < |w| && w[i].ackNo == seqNo && forall k :: 0 <= k < i ==> w[k].ackNo != seqNo
      ensures Find(w, seqNo) == i && Discard(w, seqNo) == w[i + 1..]
    {
    }

    lemma {:induction false} FoundNowhere(w: seq<AckRecord>, seqNo: int)
      requires forall k :: 0 <= k < |w| ==> w[k].ackNo != seqNo
      ensures Find(w, seqNo) == |w| && Discard(w, seqNo) == w
    {
    }

    /** CACKWindow::acknowledge: the oldest record with the number gives its data number and its age, and all
        records up to it are forgotten; without one the answer is -1 and nothing changes. */
    method Acknowledge(seqNo: int, now: int, ack0: int) returns (rtt: int, ack: int)
      requires Valid()
      modifies this`head, this`tail, ackSeqNo
      ensures Valid()
      ensures var w := old(Contents());
              var i := Find(w, seqNo);
              && Contents() == Discard(w, seqNo) == (if i < |w| then w[i + 1..] else w)
              && (if i < |w| then rtt == now - w[i].time && ack == w[i].ack else rtt == -1 && ack == ack0)
    {
      if head >= tail {
        rtt, ack := SearchUnwrapped(seqNo, now, ack0);
      } else {
        rtt, ack := SearchWrapped(seqNo, now, ack0);
      }
    }

    /** The head has not passed the physical end. */
    method SearchUnwrapped(seqNo: int, now: int, ack0: int) returns (rtt: int, ack: int)
      requires Valid() && head >= tail
      modifies this`head, this`tail, ackSeqNo
      ensures Valid()
      ensures var w := old(Contents());
              var i := Find(w, seqNo);
              && Contents() == Discard(w, seqNo)
              && (if i < |w| then rtt == now - w[i].time && ack == w[i].ack else rtt == -1 && ack == ack0)
    {
      ghost var w := Contents();
      var i := tail;
      while i < head
        invariant Valid() && Contents() == w
        invariant tail <= i <= head
        invariant forall k :: 0 <= k < i - tail ==> w[k].ackNo != seqNo
      {
        assert w[i - tail] == Record(i - tail);
        if seqNo == ackSeqNo[i] {
          FoundAt(w, seqNo, i - tail);
          rtt, ack := now - timeStamp[i], ackNo[i];
          if i + 1 == head {
            tail, head := 0, 0;
            ackSeqNo[0] := -1;
          } else {
            Forget(i, i - tail + 1);
          }
          return;
        }
        i := i + 1;
      }
      FoundNowhere(w, seqNo);
      rtt, ack := -1, ack0;
    }

    method Mod(j: int) returns (m: int)
      requires Valid() && 0 <= j < 2 * size
      ensures m == if j < size then j else j - size
    {
      DivUnique(j, size, if j < size then 0 else 1, if j < size then j else j - size);
      m := j % size;
    }

    /** The head has passed the physical end and is behind the tail. */
    method SearchWrapped(seqNo: int, now: int, ack0: int) returns (rtt: int, ack: int)
      requires Valid() && head < tail
      modifies this`head, this`tail, ackSeqNo
      ensures Valid()
      ensures var w := old(Contents());
              var i := Find(w, seqNo);
              && Contents() == Discard(w, seqNo)
              && (if i < |w| then rtt == now - w[i].time && ack == w[i].ack else rtt == -1 && ack == ack0)
    {
      ghost var w := Contents();
      var j := tail;
      while j < head + size
        invariant Valid() && head < tail && Contents() == w
        invariant tail <= j <= head + size
        invariant forall k :: 0 <= k < j - tail ==> w[k].ackNo != seqNo
      {
        var m := Mod(j);
        assert w[j - tail] == Record(j - tail) == AckRecord(ackSeqNo[m], ackNo[m], timeStamp[m]);
        if seqNo == ackSeqNo[m] {
          FoundAt(w, seqNo, j - tail);
          rtt, ack := now - timeStamp[m], ackNo[m];
          assert m != head;  // so the window is never reset here, even when it becomes empty
          Forget(m, j - tail + 1);
          return;
        }
        j := j + 1;
      }
      FoundNowhere(w, seqNo);
      rtt, ack := -1, ack0;
    }
  }
}
