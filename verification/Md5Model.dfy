/** MD5 as RFC 1321 defines it over a whole message, and the state a streaming implementation keeps. */
module Md5Model {
  import opened Bytes
  import opened Numbers

  const Two32 := 0x1_0000_0000
  const Two64 := 0x1_0000_0000_0000_0000

  type Word32 = w: int | 0 <= w < 0x1_0000_0000

  datatype Abcd = Abcd(a: Word32, b: Word32, c: Word32, d: Word32)

  /** The compression function of one 64-byte block: section 3.4 of RFC 1321. */
  type Process = (Abcd, seq<Byte>) -> Abcd

  /** Section 3.3 of RFC 1321. */
  const Start := Abcd(0x67452301, 0xefcdab89, 0x98badcfe, 0x10325476)

  function Fold(process: Process, s: Abcd, data: seq<Byte>): Abcd
    decreases |data|
  {
    if |data| < 64 then s else Fold(process, process(s, data[..64]), data[64..])
  }

  function LittleEndian(v: nat, n: nat): (r: seq<Byte>)
    ensures |r| == n
  {
    if n == 0 then [] else [v % 256] + LittleEndian(v / 256, n - 1)
  }

  function Zeros(n: nat): (r: seq<Byte>)
  {
    seq(n, _ => 0)
  }

  /** Sections 3.1 and 3.2 of RFC 1321: a one bit, as few zero bits as bring the length to 448 modulo 512 bits,
      and the length in bits as two 32-bit words, low-order word and low-order byte first. */
  function Padding(n: nat): (r: seq<Byte>)
  {
    [0x80] + Zeros((55 - n) % 64) + LittleEndian(8 * n % Two64, 8)
  }

  /** The padded message fills whole blocks, and no fewer zeros would leave room for exactly the length. */
  lemma {:induction false} PaddingFits(n: nat, k: nat)
    ensures (n + |Padding(n)|) % 64 == 0
    ensures (n + 1 + k) % 64 == 56 ==> (55 - n) % 64 <= k
  {
    var z, q, r := (55 - n) % 64, (55 - n) / 64, (n + 1 + k) / 64;
    assert 55 - n == 64 * q + z;
    assert n + |Padding(n)| == 64 * (1 - q);
    if (n + 1 + k) % 64 == 56 {
      assert k == 64 * (r + q) + z;
    }
  }

  function Digest(s: Abcd): seq<Byte>
  {
    LittleEndian(s.a, 4) + LittleEndian(s.b, 4) + LittleEndian(s.c, 4) + LittleEndian(s.d, 4)
  }

  function Md5(process: Process, message: seq<Byte>): seq<Byte>
  {
    Digest(Fold(process, Start, message + Padding(|message|)))
  }

  // ---------- streaming ----------

  /** The state between two calls: the blocks folded so far, the bit count modulo 2^64, the bytes of the unfinished
      block. */
  datatype Stream = Stream(abcd: Abcd, bits: nat, tail: seq<Byte>)

  function Full(n: nat): (r: nat)
    ensures r <= n && r % 64 == 0 && n - r < 64
  {
    n / 64 * 64
  }

  function StateOf(process: Process, message: seq<Byte>): Stream
  {
    var k := Full(|message|);
    Stream(Fold(process, Start, message[..k]), 8 * |message| % Two64, message[k..])
  }

  function Absorb(process: Process, s: Stream, data: seq<Byte>): Stream
  {
    var t := s.tail + data;
    var k := Full(|t|);
    Stream(Fold(process, s.abcd, t[..k]), (s.bits + 8 * |data|) % Two64, t[k..])
  }

  lemma {:induction false} FoldAppend(process: Process, s: Abcd, a: seq<Byte>, b: seq<Byte>)
    requires |a| % 64 == 0
    ensures Fold(process, s, a + b) == Fold(process, Fold(process, s, a), b)
    decreases |a|
  {
    if |a| < 64 {
      assert a + b == b;
    } else {
      assert (a + b)[..64] == a[..64];
      assert (a + b)[64..] == a[64..] + b;
      FoldAppend(process, process(s, a[..64]), a[64..], b);
    }
  }

  /** Folding whole blocks, and what remains. */
  function Rest(process: Process, s: Abcd, t: seq<Byte>): (Abcd, seq<Byte>)
  {
    (Fold(process, s, t[..Full(|t|)]), t[Full(|t|)..])
  }

  lemma {:induction false} RestStep(process: Process, s: Abcd, t: seq<Byte>)
    ensures |t| >= 64 ==> Rest(process, s, t) == Rest(process, process(s, t[..64]), t[64..])
    ensures |t| < 64 ==> Rest(process, s, t) == (s, t)
    ensures |Rest(process, s, t).1| == |t| % 64
  {
    if |t| >= 64 {
      var k := Full(|t|);
      FullSplit(64, |t|);
      assert t[..k][..64] == t[..64] && t[..k][64..] == t[64..][..k - 64] && t[k..] == t[64..][k - 64..];
    } else {
      assert Full(|t|) == 0 && t[..0] == [] && t[0..] == t;
    }
  }

  lemma {:induction false} AbsorbNothing(process: Process, s: Stream)
    requires s.bits < Two64 && |s.tail| < 64
    ensures Absorb(process, s, []) == s
  {
    assert s.tail + [] == s.tail;
    RestStep(process, s.abcd, s.tail);
    hide Fold;
    DivUnique(s.bits, Two64, 0, s.bits);
  }

  /** A bit count kept in two words: the high bits of the length go to the high word, and a carry with them. */
  lemma {:induction false} TwoWords(count0: Word32, count1: Word32, n: nat)
    requires n < 0x8000_0000
    ensures var nbits := n * 8 % Two32;
            var low := (count0 + nbits) % Two32;
            var high := (count1 + n / 0x2000_0000) % Two32;
            var carried := if low < nbits then (high + 1) % Two32 else high;
            carried * Two32 + low == (count1 * Two32 + count0 + 8 * n) % Two64
  {
    var h := n / 0x2000_0000;
    var nbits := n * 8 % Two32;
    assert 8 * n == h * Two32 + nbits;
    var c := if count0 + nbits >= Two32 then 1 else 0;
    assert (count0 + nbits) % Two32 == count0 + nbits - c * Two32;
    var total, low := count1 + h + c, count0 + nbits - c * Two32;
    assert count1 * Two32 + count0 + 8 * n == total * Two32 + low;
    var over := if total >= Two32 then 1 else 0;
    DivUnique(total, Two32, over, total - over * Two32);
    DivUnique(total * Two32 + low, Two64, over, (total - over * Two32) * Two32 + low);
  }

  lemma {:induction false} LowBits(count0: Word32, n: nat)
    requires count0 % 8 == 0
    ensures var low := (count0 + n * 8 % Two32) % Two32;
            low % 8 == 0 && low / 8 % 64 == (count0 / 8 % 64 + n) % 64
  {
    var q, r := n * 8 / Two32, (count0 + n * 8 % Two32) / Two32;
    var low := (count0 + n * 8 % Two32) % Two32;
    assert low == count0 + n * 8 - (q + r) * Two32;
    var c, k := count0 / 8, (q + r) * 0x80_0000;
    assert low == 8 * (c + n - 64 * k);
    var w, x := (c % 64 + n) / 64, (c % 64 + n) % 64;
    assert c + n - 64 * k == (c / 64 + w - k) * 64 + x;
    DivUnique(low / 8, 64, c / 64 + w - k, x);
  }

  lemma {:induction false} FullSplit(k: nat, n: nat)
    requires k % 64 == 0 && k <= n
    ensures Full(n) == k + Full(n - k)
  {
    DivUnique(n, 64, k / 64 + (n - k) / 64, (n - k) % 64);
  }

  lemma {:induction false} WholeBlocks(n: nat)
    requires n % 64 == 0
    ensures Full(n) == n
  {
  }

  /** The state depends on the bytes absorbed, not on how they were cut. */
  lemma {:induction false} AbsorbIs(process: Process, message: seq<Byte>, data: seq<Byte>)
    ensures Absorb(process, StateOf(process, message), data) == StateOf(process, message + data)
  {
    var k, all := Full(|message|), message + data;
    var t := message[k..] + data;
    FullSplit(k, |all|);
    var j := Full(|t|);
    assert all == message[..k] + t;
    assert all[..k + j] == message[..k] + t[..j];
    assert all[k + j..] == t[j..];
    FoldAppend(process, Start, message[..k], t[..j]);
    ModWalk(Two64, 8 * |message|, 8 * |data|);
    hide Fold, Full;
  }

  function AbsorbAll(process: Process, s: Stream, chunks: seq<seq<Byte>>): Stream
    decreases |chunks|
  {
    if chunks == [] then s else AbsorbAll(process, Absorb(process, s, chunks[0]), chunks[1..])
  }

  /** Any sequence of md5_append calls on a fresh state. */
  lemma {:induction false} AnyCut(process: Process, message: seq<Byte>, chunks: seq<seq<Byte>>)
    ensures AbsorbAll(process, StateOf(process, message), chunks) == StateOf(process, message + Flatten(chunks))
    decreases |chunks|
  {
    if chunks == [] {
      assert message + [] == message;
    } else {
      AbsorbIs(process, message, chunks[0]);
      AnyCut(process, message + chunks[0], chunks[1..]);
      assert message + chunks[0] + Flatten(chunks[1..]) == message + (chunks[0] + Flatten(chunks[1..]));
    }
  }

  lemma {:induction false} SameMod(x: int, y: int, k: int)
    requires x == y + 64 * k
    ensures x % 64 == y % 64
  {
    DivUnique(x, 64, y / 64 + k, y % 64);
  }

  /** The bit count modulo 2^64 is enough to pad: the zeros depend on the length modulo 64 only. */
  lemma {:induction false} BitsPad(n: nat)
    ensures (55 - 8 * n % Two64 / 8) % 64 == (55 - n) % 64
  {
    var q := n / 0x2000_0000_0000_0000;
    var r := n - 0x2000_0000_0000_0000 * q;
    DivUnique(8 * n, Two64, q, 8 * r);
    DivUnique(8 * r, 8, r, 0);
    SameMod(55 - r, 55 - n, 0x80_0000_0000_0000 * q);
  }

  /** What md5_finish does to the state of any message gives the digest of the message. */
  lemma {:induction false} FinishIs(process: Process, message: seq<Byte>)
    ensures var s := StateOf(process, message);
            var padded := Absorb(process, s, [0x80] + Zeros((55 - s.bits / 8) % 64));
            var last := Absorb(process, padded, LittleEndian(s.bits, 8)).abcd;
            Digest(last) == Md5(process, message) && last == Fold(process, Start, message + Padding(|message|))
  {
    hide Fold, Absorb, Full, LittleEndian, Zeros, Digest;
    var s, n := StateOf(process, message), |message|;
    BitsPad(n);
    var pad, len := [0x80] + Zeros((55 - n) % 64), LittleEndian(s.bits, 8);
    AbsorbIs(process, message, pad);
    AbsorbIs(process, message + pad, len);
    var all := message + pad + len;
    assert all == message + Padding(n);
    PaddingFits(n, 0);
    WholeBlocks(|all|);
    assert all[..|all|] == all;
  }

  // ---------- what the bytes are ----------

  /** The number that bytes stand for, low byte first. */
  function Value(bytes: seq<Byte>): nat
  {
    if bytes == [] then 0 else bytes[0] + 256 * Value(bytes[1..])
  }

  /** The word that four bytes stand for. */
  function WordAt(bytes: seq<Byte>, i: nat): int
    requires i + 4 <= |bytes|
  {
    bytes[i] as int + 0x100 * bytes[i + 1] as int + 0x1_0000 * bytes[i + 2] as int + 0x100_0000 * bytes[i + 3] as int
  }

  lemma {:induction false} ValueOfFour(b: seq<Byte>)
    requires |b| == 4
    ensures Value(b) == WordAt(b, 0)
  {
    var c := b[1..];
    var d := c[1..];
    assert Value(b) == b[0] + 256 * Value(c) && Value(c) == c[0] + 256 * Value(d);
    assert Value(d) == d[0] + 256 * Value(d[1..]) && Value(d[1..]) == d[1..][0] + 256 * Value(d[1..][1..]);
  }

  /** n bytes of a number stand for its remainder modulo 256^n. */
  lemma {:induction false} LittleEndianValue(v: nat, n: nat)
    ensures Value(LittleEndian(v, n)) == v % Pow256(n)
  {
    if n > 0 {
      LittleEndianValue(v / 256, n - 1);
      var b, m := LittleEndian(v, n), Pow256(n - 1);
      assert b[0] == v % 256 && b[1..] == LittleEndian(v / 256, n - 1);
      RemainderStep(v, m);
    }
  }

  lemma {:induction false} RemainderStep(v: nat, m: nat)
    requires m > 0
    ensures v % (256 * m) == v % 256 + 256 * (v / 256 % m)
  {
    var h, l := v / 256, v % 256;
    var q, r := h / m, h % m;
    assert v == 256 * h + l && h == q * m + r;
    assert q * (256 * m) == 256 * (q * m);
    DivUnique(v, 256 * m, q, 256 * r + l);
  }

  lemma {:induction false} WordValue(w: Word32)
    ensures WordAt(LittleEndian(w, 4), 0) == w
  {
    LittleEndianValue(w, 4);
    ValueOfFour(LittleEndian(w, 4));
    assert Pow256(1) == 256 && Pow256(2) == 0x1_0000 && Pow256(3) == 0x100_0000 && Pow256(4) == Two32;
  }

  /** The sixteen bytes of a digest are the words a, b, c and d in this order, low byte first. */
  lemma {:induction false} DigestWords(s: Abcd)
    ensures var d := Digest(s);
            |d| == 16 && Abcd(WordAt(d, 0), WordAt(d, 4), WordAt(d, 8), WordAt(d, 12)) == s
  {
    WordValue(s.a);
    WordValue(s.b);
    WordValue(s.c);
    WordValue(s.d);
    hide LittleEndian;
  }

  /** A message is padded by the byte 0x80, then zeros, then its length in bits as two words. */
  lemma {:induction false} PaddingBytes(n: nat)
    ensures var p := Padding(n);
            && 9 <= |p| <= 72 && p[0] == 0x80 && (forall k :: 0 < k < |p| - 8 ==> p[k] == 0)
            && WordAt(p, |p| - 8) + Two32 * WordAt(p, |p| - 4) == 8 * n % Two64
  {
    var bits := 8 * n % Two64;
    var low, high := bits % Two32, bits / Two32;
    assert bits == high * Two32 + low;
    TwoWordBytes(low, high);
    WordIsLittleEndian(low);
    WordIsLittleEndian(high);
    WordValue(low);
    WordValue(high);
    hide LittleEndian, WordBytes;
    var p := Padding(n);
    assert p[|p| - 8..] == LittleEndian(low, 4) + LittleEndian(high, 4);
    forall k | 0 <= k < 4
      ensures p[|p| - 8 + k] == LittleEndian(low, 4)[k] && p[|p| - 4 + k] == LittleEndian(high, 4)[k] {
      assert p[|p| - 8 + k] == p[|p| - 8..][k] && p[|p| - 4 + k] == p[|p| - 8..][4 + k];
    }
  }

  /** One more block is one more application of the compression function, to the state before it. */
  lemma {:induction false} FoldBlock(process: Process, s: Abcd, a: seq<Byte>, b: seq<Byte>)
    requires |a| % 64 == 0 && |b| == 64
    ensures Fold(process, s, []) == s
    ensures Fold(process, s, a + b) == process(Fold(process, s, a), b)
  {
    FoldAppend(process, s, a, b);
    assert b[..64] == b && b[64..] == [];
  }

  /** The state before the first block, byte by byte as section 3.3 of RFC 1321 lists it. */
  lemma {:induction false} StartBytes()
    ensures Digest(Start) ==
            [0x01, 0x23, 0x45, 0x67] + [0x89, 0xab, 0xcd, 0xef] + [0xfe, 0xdc, 0xba, 0x98] + [0x76, 0x54, 0x32, 0x10]
  {
    hide LittleEndian, Digest;
    WordsAreLittleEndian(Start);
    assert WordBytes(Start.a) == [0x01, 0x23, 0x45, 0x67];
    assert WordBytes(Start.b) == [0x89, 0xab, 0xcd, 0xef];
    assert WordBytes(Start.c) == [0xfe, 0xdc, 0xba, 0x98];
    assert WordBytes(Start.d) == [0x76, 0x54, 0x32, 0x10];
    hide WordBytes;
  }

  // ---------- bytes of words ----------

  /** Bytes of a word by shifting, low byte first. */
  function WordBytes(w: Word32): seq<Byte>
  {
    [w % 256, w / 0x100 % 256, w / 0x1_0000 % 256, w / 0x100_0000 % 256]
  }

  lemma {:induction false} WordIsLittleEndian(w: Word32)
    ensures WordBytes(w) == LittleEndian(w, 4)
  {
    assert LittleEndian(w, 4) == [w % 256] + LittleEndian(w / 256, 3);
    assert LittleEndian(w / 256, 3) == [w / 256 % 256] + LittleEndian(w / 256 / 256, 2);
    assert LittleEndian(w / 256 / 256, 2) == [w / 256 / 256 % 256] + LittleEndian(w / 256 / 256 / 256, 1);
    assert LittleEndian(w / 256 / 256 / 256, 1) ==
        [w / 256 / 256 / 256 % 256] + LittleEndian(w / 256 / 256 / 256 / 256, 0);
    assert w / 256 / 256 == w / 0x1_0000 && w / 256 / 256 / 256 == w / 0x100_0000;
  }

  lemma {:induction false} WordsAreLittleEndian(s: Abcd)
    ensures Digest(s) == WordBytes(s.a) + WordBytes(s.b) + WordBytes(s.c) + WordBytes(s.d)
  {
    WordIsLittleEndian(s.a);
    WordIsLittleEndian(s.b);
    WordIsLittleEndian(s.c);
    WordIsLittleEndian(s.d);
  }

  /** A number's bytes split where the number does. */
  lemma {:induction false} TopByte(lo: nat, hi: nat, m: nat)
    ensures var v := hi * (256 * m) + lo; v / 256 == hi * m + lo / 256 && v % 256 == lo % 256
  {
    var v, x := hi * (256 * m) + lo, hi * m;
    assert hi * (256 * m) == 256 * x;
    assert v == 256 * (x + lo / 256) + lo % 256;
    DivUnique(v, 256, x + lo / 256, lo % 256);
  }

  lemma {:induction false} LittleEndianSplit(lo: nat, hi: nat, k: nat, n: nat, m: nat)
    requires m == Pow256(k) && lo < m
    ensures LittleEndian(hi * m + lo, k + n) == LittleEndian(lo, k) + LittleEndian(hi, n)
    decreases k
  {
    if k > 0 {
      var m' := Pow256(k - 1);
      var v := hi * m + lo;
      TopByte(lo, hi, m');
      LittleEndianSplit(lo / 256, hi, k - 1, n, m');
    } else {
      assert hi * m == hi;
    }
  }

  function Pow256(k: nat): (p: nat)
    ensures p > 0
  {
    if k == 0 then 1 else 256 * Pow256(k - 1)
  }

  lemma {:induction false} TwoWordBytes(low: Word32, high: Word32)
    ensures WordBytes(low) + WordBytes(high) == LittleEndian(high * Two32 + low, 8)
  {
    WordIsLittleEndian(low);
    WordIsLittleEndian(high);
    assert Pow256(1) == 256 && Pow256(2) == 0x1_0000 && Pow256(3) == 0x100_0000 && Pow256(4) == Two32;
    LittleEndianSplit(low, high, 4, 4, Two32);
  }

  lemma {:induction false} PaddingLength(low: Word32, high: Word32)
    requires low % 8 == 0
    ensures (55 - low / 8) % 64 == (55 - (high * Two32 + low) / 8) % 64
  {
    var n := low / 8;
    DivUnique(high * Two32 + low, 8, high * 0x2000_0000 + n, 0);
    SameMod(55 - n, 55 - (high * 0x2000_0000 + n), high * 0x80_0000);
  }
}
