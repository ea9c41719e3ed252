/** CSndBuffer: a circular list of blocks with three cursors that grows in the middle. */
module SndBuffers {
  import opened Bytes
  import opened Numbers

  /** What m_iMsgNo holds: whether a packet starts and ends its message, whether it wants order, and the message's
      number. */
  datatype Header = Header(first: bool, last: bool, inOrder: bool, msgNo: int)

  datatype Piece = Piece(data: Payload, header: Header)

  const MaxMsgNo := 0x1FFFFFFF

  function NextMsgNo(m: int): int
  {
    if m + 1 == MaxMsgNo then 1 else m + 1
  }

  /** The blocks addBuffer makes of one user buffer. */
  function Pieces(data: seq<Byte>, mss: nat, msgNo: int, inOrder: bool): (ps: seq<Piece>)
    requires mss > 0
  {
    var c := Chunks(data, mss);
    seq(|c|, i requires 0 <= i < |c| => Piece(c[i], Header(i == 0, i == |c| - 1, inOrder, msgNo)))
  }

  function PayloadsOf(ps: seq<Piece>): (r: seq<Payload>)
    ensures |r| == |ps|
  {
    seq(|ps|, i requires 0 <= i < |ps| => ps[i].data)
  }

  lemma {:induction false} ChunkAt(data: seq<Byte>, mss: nat, i: nat)
    requires mss > 0 && i < |Chunks(data, mss)|
    ensures 0 <= i * mss < |data|
    ensures Chunks(data, mss)[i] == data[i * mss..if |data| - i * mss > mss then i * mss + mss else |data|]
  {
    if i > 0 {
      ChunkAt(data[mss..], mss, i - 1);
      var k := (i - 1) * mss;
      assert i * mss == k + mss;
      var e := if |data| - mss - k > mss then k + mss else |data| - mss;
      assert Chunks(data, mss)[i] == Chunks(data[mss..], mss)[i - 1];
      hide Chunks;
      assert data[mss..][k..e] == data[mss + k..mss + e];
    }
  }

  lemma {:induction false} PieceIs(data: seq<Byte>, mss: nat, msgNo: int, inOrder: bool, i: nat)
    requires mss > 0 && i < |Chunks(data, mss)|
    ensures 0 <= i * mss < |data|
    ensures var n := |Chunks(data, mss)|;
            n == |Pieces(data, mss, msgNo, inOrder)| &&
            Pieces(data, mss, msgNo, inOrder)[i] ==
              Piece(data[i * mss..if |data| - i * mss > mss then i * mss + mss else |data|],
                    Header(i == 0, i == n - 1, inOrder, msgNo))
  {
    ChunkAt(data, mss, i);
  }

  class Block {
    var data: Payload
    var header: Header
    var next: Block?

    constructor ()
    {
      data, header, next := [], Header(false, false, false, 0), null;
    }
  }

  /** Each block's next is the following one. */
  ghost predicate Chain(blocks: seq<Block>)
    reads blocks
  {
    && (forall i, j :: 0 <= i < j < |blocks| ==> blocks[i] != blocks[j])
    && (forall i, j :: 0 <= i < j < |blocks| && j == i + 1 ==> blocks[i].next == blocks[j])
  }

  method NewChain(n: nat) returns (head: Block, tail: Block, ghost blocks: seq<Block>)
    requires n > 0
    ensures Chain(blocks) && |blocks| == n && head == blocks[0] && tail == blocks[n - 1]
    ensures fresh(blocks)
  {
    head := new Block();
    tail := head;
    blocks := [head];
    for i := 1 to n
      invariant Chain(blocks) && |blocks| == i && head == blocks[0] && tail == blocks[i - 1]
      invariant fresh(blocks)
    {
      var b := new Block();
      tail.next := b;
      tail := b;
      blocks := blocks + [b];
    }
  }

  lemma {:induction false} Rotated(blocks: seq<Block>, k: nat)
    requires Chain(blocks) && k < |blocks| && blocks[|blocks| - 1].next == blocks[0]
    ensures var t := blocks[k..] + blocks[..k]; Chain(t) && t[|t| - 1].next == t[0]
  {
    var t := blocks[k..] + blocks[..k];
    forall i, j | 0 <= i < j < |t| && j == i + 1 ensures t[i].next == t[j] {
      if j < |blocks| - k {
        assert t[i] == blocks[k + i] && t[j] == blocks[k + j];
      } else if i >= |blocks| - k {
        assert t[i] == blocks[i - (|blocks| - k)] && t[j] == blocks[j - (|blocks| - k)];
      }
    }
    if k > 0 {
      assert blocks[k - 1].next == blocks[k];
    }
  }

  /** A chain put into a ring behind place k. */
  lemma {:induction false} Spliced(ring: seq<Block>, blocks: seq<Block>, k: nat)
    requires k < |ring| && blocks != [] && Chain(blocks)
    requires forall i, j :: 0 <= i < j < |ring| ==> ring[i] != ring[j]
    requires forall i, j :: 0 <= i < j < |ring| && j == i + 1 && i != k ==> ring[i].next == ring[j]
    requires forall b :: b in blocks ==> b !in ring
    requires ring[k].next == blocks[0]
    requires blocks[|blocks| - 1].next == if k + 1 < |ring| then ring[k + 1] else ring[0]
    requires k + 1 < |ring| ==> ring[|ring| - 1].next == ring[0]
    ensures var t := ring[..k + 1] + blocks + ring[k + 1..]; Chain(t) && t[|t| - 1].next == t[0]
  {
    var t, n := ring[..k + 1] + blocks + ring[k + 1..], |blocks|;
    forall i, j | 0 <= i < j < |t| && j == i + 1 ensures t[i].next == t[j] {
      if j <= k {
        assert t[i] == ring[i] && t[j] == ring[j];
      } else if k < i && j <= k + n {
        assert t[i] == blocks[i - k - 1] && t[j] == blocks[j - k - 1];
      } else if k + n < i {
        assert t[i] == ring[i - n] && t[j] == ring[j - n];
      }
    }
    forall i, j | 0 <= i < j < |t| ensures t[i] != t[j] {
      if i <= k && j > k + n {
        assert t[i] == ring[i] && t[j] == ring[j - n];
      } else if i > k + n {
        assert t[i] == ring[i - n] && t[j] == ring[j - n];
      } else if i <= k < j <= k + n {
        assert t[j] == blocks[j - k - 1] && t[j] in blocks;
        assert t[i] == ring[i] && t[i] in ring;
      } else if i > k && j > k + n {
        assert t[i] == blocks[i - k - 1] && t[i] in blocks;
        assert t[j] == ring[j - n] && t[j] in ring;
      }
    }
  }

  class SndBuffer {
    var first: Block
    var curr: Block
    var last: Block
    var nextMsgNo: int
    var size: nat
    var count: nat
    const unitSize: nat
    const mss: nat
    ghost var ring: seq<Block>   // all blocks, from first around
    ghost var sent: nat          // distance from first to curr
    ghost var repr: set<Block>

    ghost predicate Valid()
      reads this, repr
    {
      && Closed()
      && 0 <= sent <= count < size
      && first == ring[0] && curr == ring[sent] && last == ring[count]
      && unitSize > 0 && mss > 0
    }

    ghost predicate Closed()
      reads this, repr
    {
      && |ring| == size > 0
      && (forall i :: 0 <= i < |ring| ==> ring[i] in repr)
      && Chain(ring)
      && ring[size - 1].next == ring[0]
    }

    ghost function PieceAt(i: nat): Piece
      requires i < |ring| && ring[i] in repr
      reads this, repr
    {
      Piece(ring[i].data, ring[i].header)
    }

    ghost function Contents(): (c: seq<Piece>)
      requires Closed() && count <= size
      reads this, repr
    {
      seq(count, i requires 0 <= i < count && Closed() && count <= size reads this, repr => PieceAt(i))
    }

    lemma {:induction false} Facts()
      requires Valid()
      ensures Closed() && count <= size && mss > 0 && sent <= count == |Contents()|
    {
    }

    lemma {:induction false} NextOf(i: nat)
      requires Closed() && i < size
      ensures ring[i].next == if i + 1 < size then ring[i + 1] else ring[0]
    {
    }

    constructor (size: nat, mss: nat)
      requires size > 0 && mss > 0
      ensures Valid() && Contents() == [] && sent == 0 && nextMsgNo == 1 && this.mss == mss
      ensures fresh(repr)
    {
      var head, tail, blocks := NewChain(size);
      tail.next := head;
      this.size, this.mss, unitSize := size, mss, size;
      first, curr, last := head, head, head;
      ring, sent, repr := blocks, 0, set b | b in blocks;
      count, nextMsgNo := 0, 1;
    }

    /** increase: new blocks go in behind the one after the last used block. */
    method Increase()
      requires Valid()
      modifies this`size, this`ring, this`repr, last
      ensures Valid() && Contents() == old(Contents()) && size == old(size) + unitSize
      ensures fresh(repr - old(repr))
    {
      hide Chain;
      var head, tail, blocks := NewChain(unitSize);
      Splice(head, tail, blocks);
      size := size + unitSize;
      repr := repr + set b | b in blocks;
      assert forall i :: 0 <= i < |old(ring)| ==> old(ring)[i] in old(repr);
      assert Contents() == old(Contents());
    }

    method Splice(head: Block, tail: Block, ghost blocks: seq<Block>)
      requires Valid() && Chain(blocks) && blocks != [] && head == blocks[0] && tail == blocks[|blocks| - 1]
      requires forall b :: b in blocks ==> b !in repr
      modifies this`ring, last`next, tail`next
      ensures ring == old(ring)[..count + 1] + blocks + old(ring)[count + 1..]
      ensures Chain(ring) && ring[|ring| - 1].next == ring[0]
    {
      NextOf(count);
      tail.next := last.next;
      last.next := head;
      Spliced(ring, blocks, count);
      hide Chain;
      ring := ring[..count + 1] + blocks + ring[count + 1..];
    }

    method AddBuffer(data: seq<Byte>, inOrder: bool)
      requires Valid()
      modifies this, repr
      ensures Valid() && sent == old(sent)
      ensures Contents() == old(Contents()) + Pieces(data, mss, old(nextMsgNo), inOrder)
      ensures nextMsgNo == NextMsgNo(old(nextMsgNo))
      ensures fresh(repr - old(repr))
    {
      var n := |data| / mss;
      if |data| % mss != 0 {
        n := n + 1;
      }
      ChunkCount(data, mss);
      Grow(n);
      Fill(data, n, inOrder);
      Commit(data, n, inOrder, Contents());
    }

    method Grow(n: nat)
      requires Valid()
      modifies this`size, this`ring, this`repr, repr
      ensures Valid() && n + count < size && Contents() == old(Contents()) && fresh(repr - old(repr))
    {
      while n + count >= size
        invariant Valid() && Contents() == old(Contents()) && last in old(repr)
        invariant fresh(repr - old(repr))
        decreases n + count - size
      {
        Increase();
      }
    }

    method Commit(data: seq<Byte>, n: nat, inOrder: bool, ghost was: seq<Piece>)
      requires Closed() && 0 <= sent <= count && n + count < size && mss > 0 && unitSize > 0
      requires first == ring[0] && curr == ring[sent] && last == ring[count + n]
      requires was == Contents() && n == |Chunks(data, mss)|
      requires forall i :: 0 <= i < n ==> PieceAt(count + i) == Pieces(data, mss, nextMsgNo, inOrder)[i]
      modifies this`count, this`nextMsgNo
      ensures Valid() && count == old(count) + n
      ensures Contents() == was + Pieces(data, mss, old(nextMsgNo), inOrder)
      ensures nextMsgNo == NextMsgNo(old(nextMsgNo))
    {
      hide Chain, Chunks;
      ghost var from := count;
      count := count + n;
      nextMsgNo := nextMsgNo + 1;
      if nextMsgNo == MaxMsgNo {
        nextMsgNo := 1;
      }
      forall i | 0 <= i < count ensures Contents()[i] == (was + Pieces(data, mss, old(nextMsgNo), inOrder))[i] {
        if i >= from {
          assert PieceAt(from + (i - from)) == Pieces(data, mss, old(nextMsgNo), inOrder)[i - from];
        }
      }
    }

    method Fill(data: seq<Byte>, n: nat, inOrder: bool)
      requires Valid() && n == |Chunks(data, mss)| && n + count < size
      modifies this`last, repr
      ensures Closed() && last == ring[count + n]
      ensures forall i :: 0 <= i < count ==> PieceAt(i) == old(PieceAt(i))
      ensures forall i :: 0 <= i < n ==> PieceAt(count + i) == Pieces(data, mss, nextMsgNo, inOrder)[i]
    {
      hide Chain, Chunks;
      assert |Pieces(data, mss, nextMsgNo, inOrder)| == n;
      hide Pieces;
      var s := last;
      for i := 0 to n
        invariant Closed() && s == ring[count + i]
        invariant forall k :: 0 <= k < count ==> PieceAt(k) == old(PieceAt(k))
        invariant forall k :: 0 <= k < i ==> PieceAt(count + k) == Pieces(data, mss, nextMsgNo, inOrder)[k]
      {
        PieceIs(data, mss, nextMsgNo, inOrder, i);
        NextOf(count + i);
        var pktlen := |data| - i * mss;
        if pktlen > mss {
          pktlen := mss;
        }
        Write(s, count + i, data[i * mss..i * mss + pktlen], Header(i == 0, i == n - 1, inOrder, nextMsgNo));
        s := s.next;
      }
      last := s;
    }

    method Write(s: Block, ghost k: nat, data: Payload, header: Header)
      requires Closed() && k < size && s == ring[k]
      modifies s`data, s`header
      ensures Closed() && PieceAt(k) == Piece(data, header)
      ensures forall i :: 0 <= i < size && i != k ==> PieceAt(i) == old(PieceAt(i))
    {
      s.data := data;
      s.header := header;
    }

    /** readData for a fresh packet: nothing when all blocks have been sent once. */
    method ReadNew() returns (p: Option<Piece>)
      requires Valid()
      modifies this`curr, this`sent
      ensures Valid() && Contents() == old(Contents())
      ensures if old(sent) == |Contents()| then p == None && sent == old(sent)
              else p == Some(Contents()[old(sent)]) && sent == old(sent) + 1
    {
      if curr == last { return None; }
      NextOf(sent);
      p := Some(Piece(curr.data, curr.header));
      curr := curr.next;
      sent := sent + 1;
    }

    /** readData for a retransmission: the block at a distance from the first. */
    method ReadAt(offset: nat) returns (p: Piece)
      requires Valid() && offset < |Contents()|
      ensures p == Contents()[offset]
    {
      var b := first;
      for i := 0 to offset
        invariant b == ring[i]
      {
        NextOf(i);
        b := b.next;
      }
      p := Piece(b.data, b.header);
    }

    /** ackData: the blocks before the acknowledged one are free again. */
    method AckData(offset: nat)
      requires Valid() && offset <= sent
      modifies this`first, this`count, this`ring, this`sent
      ensures Valid() && Contents() == old(Contents())[offset..] && sent == old(sent) - offset
    {
      for i := 0 to offset
        invariant first == ring[i]
        modifies this`first
      {
        NextOf(i);
        first := first.next;
      }
      count := count - offset;
      Turn(offset);
    }

    /** The ring is seen from another block on. */
    ghost method Turn(offset: nat)
      requires Closed() && offset <= sent <= count + offset < size
      modifies this`ring, this`sent
      ensures Closed() && sent == old(sent) - offset
      ensures ring[0] == old(ring)[offset]
      ensures ring[sent] == old(ring)[old(sent)]
      ensures ring[count] == old(ring)[count + offset]
      ensures forall i :: 0 <= i < count ==> ring[i] == old(ring)[i + offset]
    {
      Rotated(ring, offset);
      ring := ring[offset..] + ring[..offset];
      sent := sent - offset;
    }
  }
}
