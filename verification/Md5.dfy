/** The streaming MD5 state: md5_init, md5_append and md5_finish. */
module Md5 {
  import opened Bytes
  import opened Md5Model

  class Md5State {
    const process: Process     // md5_process
    var count0: Word32           // message length in bits, low word
    var count1: Word32
    var abcd: Abcd
    const buf: array<Byte>

    ghost predicate Valid()
      reads this
    {
      buf.Length == 64 && count0 % 8 == 0
    }

    ghost function Abs(): Stream
      reads this, buf
      requires Valid()
    {
      Stream(abcd, count1 * Two32 + count0, buf[..count0 / 8 % 64])
    }

    /** md5_init */
    constructor (process: Process)
      ensures Valid() && fresh(buf) && this.process == process
      ensures Abs() == StateOf(process, [])
    {
      this.process := process;
      count0, count1 := 0, 0;
      abcd := Abcd(0x67452301, 0xefcdab89, 0x98badcfe, 0x10325476);
      buf := new Byte[64];
    }

    /** memcpy into the block buffer */
    method Copy(offset: nat, data: seq<Byte>)
      requires buf.Length == 64 && offset + |data| <= 64
      modifies buf
      ensures buf[..offset + |data|] == old(buf[..offset]) + data
    {
      for i := 0 to |data|
        invariant buf[..offset + i] == old(buf[..offset]) + data[..i]
      {
        buf[offset + i] := data[i];
        assert buf[..offset + i + 1] == buf[..offset + i] + [data[i]];
      }
      assert data[..|data|] == data;
    }

    /** The bit count over two words, with the carry from the low one. */
    method AddLength(nbytes: nat)
      requires nbytes < 0x8000_0000 && count0 % 8 == 0
      modifies this`count0, this`count1
      ensures count1 * Two32 + count0 == (old(count1) * Two32 + old(count0) + 8 * nbytes) % Two64
      ensures count0 % 8 == 0 && count0 / 8 % 64 == (old(count0) / 8 % 64 + nbytes) % 64
    {
      TwoWords(count0, count1, nbytes);
      LowBits(count0, nbytes);
      var nbits: Word32 := nbytes * 8 % Two32;
      count1 := (count1 + nbytes / 0x2000_0000) % Two32;
      count0 := (count0 + nbits) % Two32;
      if count0 < nbits {
        count1 := (count1 + 1) % Two32;
      }
    }

    /** md5_append */
    method Append(data: seq<Byte>)
      requires Valid() && count0 / 8 % 64 + |data| < 0x8000_0000
      modifies this`count0, this`count1, this`abcd, buf
      ensures Valid() && Abs() == Absorb(process, old(Abs()), data)
    {
      hide Rest, Absorb;
      if |data| == 0 {
        NothingAbsorbed();
        assert data == [];
        return;
      }
      var offset := count0 / 8 % 64;
      ghost var t := buf[..offset] + data;
      ghost var goal := Rest(process, abcd, t);
      RestStep(process, abcd, t);
      AddLength(|data|);
      var p := data;
      if offset != 0 {
        var more;
        p, more := FillBlock(offset, data);
        if !more {
          Absorbed(old(Abs()), data, goal);
          return;
        }
      } else {
        assert t == p;
      }
      p := Blocks(p);
      if |p| != 0 {
        Copy(0, p);
      }
      assert buf[..|p|] == p;
      Absorbed(old(Abs()), data, goal);
    }

    /** The unfinished block is filled up; if that completes it, it is processed and the rest of the data remains. */
    method FillBlock(offset: nat, data: seq<Byte>) returns (p: seq<Byte>, more: bool)
      requires 0 < offset < 64 == buf.Length
      modifies this`abcd, buf
      ensures more == (offset + |data| >= 64)
      ensures !more ==> abcd == old(abcd) && buf[..offset + |data|] == old(buf[..offset]) + data
      ensures more ==> var t := old(buf[..offset]) + data; abcd == process(old(abcd), t[..64]) && p == t[64..]
    {
      var copy := if offset + |data| > 64 then 64 - offset else |data|;
      ghost var t := buf[..offset] + data;
      Copy(offset, data[..copy]);
      p := data[copy..];
      more := offset + copy >= 64;
      if more {
        assert buf[..] == buf[..offset + copy];
        assert buf[..] == t[..64];
        abcd := process(abcd, buf[..]);
        assert p == t[64..];
      } else {
        assert data[..copy] == data;
      }
    }

    method Blocks(data: seq<Byte>) returns (p: seq<Byte>)
      modifies this`abcd
      ensures (abcd, p) == Rest(process, old(abcd), data)
    {
      p := data;
      hide Rest;
      while |p| >= 64
        invariant Rest(process, abcd, p) == Rest(process, old(abcd), data)
      {
        RestStep(process, abcd, p);
        abcd := process(abcd, p[..64]);
        p := p[64..];
      }
      RestStep(process, abcd, p);
    }

    /** What to show at the end of an append. */
    lemma {:induction false} Absorbed(s: Stream, data: seq<Byte>, goal: (Abcd, seq<Byte>))
      requires Valid() && goal == Rest(process, s.abcd, s.tail + data)
      requires goal == (abcd, buf[..|goal.1|]) && |goal.1| == count0 / 8 % 64
      requires count1 * Two32 + count0 == (s.bits + 8 * |data|) % Two64
      ensures Abs() == Absorb(process, s, data)
    {
    }

    lemma {:induction false} NothingAbsorbed()
      requires Valid()
      ensures Absorb(process, Abs(), []) == Abs()
    {
      AbsorbNothing(process, Abs());
    }

    /** md5_finish: pads, appends the length, and writes the digest. */
    method Finish() returns (digest: seq<Byte>)
      requires Valid()
      modifies this`count0, this`count1, this`abcd, buf
      ensures |digest| == 16
      ensures abcd == Abcd(WordAt(digest, 0), WordAt(digest, 4), WordAt(digest, 8), WordAt(digest, 12))
      ensures forall message :: old(Abs()) == StateOf(process, message) ==>
                digest == Md5(process, message) && abcd == Fold(process, Start, message + Padding(|message|))
    {
      hide Absorb, StateOf, Fold, LittleEndian, WordBytes, Digest, Padding, Md5Model.Md5;
      ghost var s := Abs();
      var data := LengthBytes();
      PaddingLength(count0, count1);
      var padLen := (55 - count0 / 8) % 64 + 1;
      Append([0x80] + Zeros(padLen - 1));
      Append(data);
      digest := WordBytes(abcd.a) + WordBytes(abcd.b) + WordBytes(abcd.c) + WordBytes(abcd.d);
      WordsAreLittleEndian(abcd);
      DigestWords(abcd);
      forall message | s == StateOf(process, message)
        ensures digest == Md5(process, message) && abcd == Fold(process, Start, message + Padding(|message|)) {
        FinishIs(process, message);
      }
    }

    /** The eight bytes of the bit count, low byte of the low word first. */
    method LengthBytes() returns (data: seq<Byte>)
      requires Valid()
      ensures data == LittleEndian(Abs().bits, 8)
    {
      data := WordBytes(count0) + WordBytes(count1);
      TwoWordBytes(count0, count1);
    }
  }

  /** CMD5::compute: the whole message in one call. */
  method Compute(process: Process, input: seq<Byte>) returns (digest: seq<Byte>)
    requires |input| < 0x8000_0000
    ensures digest == Md5(process, input)
  {
    var state := new Md5State(process);
    state.Append(input);
    AbsorbIs(process, [], input);
    assert [] + input == input;
    digest := state.Finish();
  }
}
