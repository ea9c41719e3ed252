/** Byte strings, packet payloads, and the cutting of a user buffer into payloads. */
module Bytes {
  import opened Numbers

  type Byte = b: int | 0 <= b < 256
  type Payload = seq<Byte>

  /** All the bytes of a sequence of payloads, in order. */
  function Flatten(ps: seq<Payload>): seq<Byte>
  {
    if ps == [] then [] else ps[0] + Flatten(ps[1..])
  }

  lemma {:induction false} FlattenAppend(a: seq<Payload>, b: seq<Payload>)
    ensures Flatten(a + b) == Flatten(a) + Flatten(b)
  {
    if a == [] {
      assert a + b == b;
    } else {
      var t := a + b;
      assert t[0] == a[0] && t[1..] == a[1..] + b;
      FlattenAppend(a[1..], b);
      assert Flatten(t) == a[0] + Flatten(t[1..]);
      assert a[0] + (Flatten(a[1..]) + Flatten(b)) == a[0] + Flatten(a[1..]) + Flatten(b);
    }
  }

  lemma FlattenOne(p: Payload)
    ensures Flatten([p]) == p
  {
    assert Flatten([p]) == p + Flatten([]);
  }

  /** The packets addBuffer makes of one user buffer: full ones, then what is left. */
  function Chunks(data: seq<Byte>, mss: nat): seq<Payload>
    requires mss > 0
  {
    if |data| == 0 then []
    else if |data| <= mss then [data]
    else [data[..mss]] + Chunks(data[mss..], mss)
  }

  lemma {:induction false} ChunksFlatten(data: seq<Byte>, mss: nat)
    requires mss > 0
    ensures Flatten(Chunks(data, mss)) == data
    ensures forall p :: p in Chunks(data, mss) ==> 1 <= |p| <= mss
  {
    if 0 < |data| <= mss {
      FlattenOne(data);
    } else if |data| > mss {
      ChunksFlatten(data[mss..], mss);
      assert data == data[..mss] + data[mss..];
      assert Chunks(data, mss)[1..] == Chunks(data[mss..], mss);
    }
  }

  /** The count computed with / and %, as in the code, is the number of chunks. */
  lemma {:induction false} ChunkCount(data: seq<Byte>, mss: nat)
    requires mss > 0
    ensures |Chunks(data, mss)| == |data| / mss + (if |data| % mss != 0 then 1 else 0)
  {
    if |data| == 0 {
      DivUnique(0, mss, 0, 0);
    } else if |data| < mss {
      DivUnique(|data|, mss, 0, |data|);
    } else {
      DivSub(|data|, mss);
      if |data| > mss {
        ChunkCount(data[mss..], mss);
      } else {
        DivUnique(0, mss, 0, 0);
      }
    }
  }
}
