/** Wrapped 31-bit sequence numbers (class CSeqNo) and the unbounded numbers they stand for. */
module SeqNo {
  const MAX_SEQ_NO: int := 0x7FFF_FFFF
  const SEQ_NO_TH: int := 0x3FFF_FFFF
  const MODULUS: int := 0x8000_0000

  /** A number as it is stored in a packet header. */
  type Seq31 = s: int | 0 <= s <= MAX_SEQ_NO

  /** The wrapped form of an unbounded sequence number. */
  function Wrap(n: int): (s: Seq31)
  {
    n % MODULUS
  }

  function Abs(x: int): int
  {
    if x < 0 then -x else x
  }

  function SeqCmp(s1: Seq31, s2: Seq31): int
  {
    if Abs(s1 - s2) < SEQ_NO_TH then s1 - s2 else s2 - s1
  }

  function SeqLen(s1: Seq31, s2: Seq31): int
  {
    if s1 <= s2 then s2 - s1 + 1 else s2 - s1 + MAX_SEQ_NO + 2
  }

  function SeqOff(s1: Seq31, s2: Seq31): int
  {
    if Abs(s1 - s2) < SEQ_NO_TH then s2 - s1
    else if s1 < s2 then s2 - s1 - MAX_SEQ_NO - 1
    else s2 - s1 + MAX_SEQ_NO + 1
  }

  function IncSeq(s: Seq31): Seq31
  {
    if s == MAX_SEQ_NO then 0 else s + 1
  }

  function DecSeq(s: Seq31): Seq31
  {
    if s == 0 then MAX_SEQ_NO else s - 1
  }

  function IncSeqBy(s: Seq31, inc: Seq31): Seq31
  {
    if MAX_SEQ_NO - s >= inc then s + inc else s - MAX_SEQ_NO + inc - 1
  }

  /** Two unbounded numbers that the wrapped comparison can still tell apart. */
  predicate Near(a: int, b: int)
  {
    -SEQ_NO_TH < a - b < SEQ_NO_TH
  }

  predicate SameSign(x: int, y: int)
  {
    (x > 0 <==> y > 0) && (x < 0 <==> y < 0)
  }

  /** How the difference of two wrapped numbers relates to the true difference. */
  lemma WrapDifference(a: int, b: int)
    requires -MODULUS < a - b < MODULUS
    ensures || Wrap(a) - Wrap(b) == a - b
            || Wrap(a) - Wrap(b) == a - b - MODULUS
            || Wrap(a) - Wrap(b) == a - b + MODULUS
  {
  }

  lemma WrapInjective(a: int, b: int)
    requires -MODULUS < a - b < MODULUS
    ensures Wrap(a) == Wrap(b) <==> a == b
  {
    WrapDifference(a, b);
  }

  /** seqcmp has the sign of the true difference. */
  lemma CmpRefines(a: int, b: int)
    requires Near(a, b)
    ensures SameSign(SeqCmp(Wrap(a), Wrap(b)), a - b)
  {
    WrapDifference(a, b);
  }

  /** The window of CmpRefines cannot be widened: seqcmp orders two numbers d apart correctly at
      every place on the circle exactly when |d| is below the threshold. */
  lemma CmpExact(d: int)
    requires -MODULUS < d < MODULUS
    ensures (forall b: int :: SameSign(SeqCmp(Wrap(b + d), Wrap(b)), d)) <==> Near(d, 0)
  {
    if Near(d, 0) {
      forall b: int ensures SameSign(SeqCmp(Wrap(b + d), Wrap(b)), d) {
        CmpRefines(b + d, b);
      }
    } else {
      var b := if d > 0 then 0 else -d;
      assert !SameSign(SeqCmp(Wrap(b + d), Wrap(b)), d);
    }
  }

  /** seqcmp of a number with one d before it, for any d up to a full circle: it is positive up to the threshold, and
      past it only where the circle closes in between, up to two numbers more. */
  lemma CmpAhead(b: int, d: int)
    requires 0 <= d < MODULUS
    ensures SeqCmp(Wrap(b + d), Wrap(b)) > 0 <==>
            d > 0 && (if Wrap(b) + d < MODULUS then d < SEQ_NO_TH else d <= SEQ_NO_TH + 2)
  {
    WrapDifference(b + d, b);
  }

  /** So it is positive at every place of the circle exactly below the threshold, and nowhere more than two past it. */
  lemma CmpRange(d: int)
    requires 0 <= d < MODULUS
    ensures (forall b: int :: SeqCmp(Wrap(b + d), Wrap(b)) > 0) <==> 0 < d < SEQ_NO_TH
    ensures (exists b: int :: SeqCmp(Wrap(b + d), Wrap(b)) > 0) <==> 0 < d <= SEQ_NO_TH + 2
  {
    forall b: int ensures SeqCmp(Wrap(b + d), Wrap(b)) > 0 <==>
                          d > 0 && (if Wrap(b) + d < MODULUS then d < SEQ_NO_TH else d <= SEQ_NO_TH + 2) {
      CmpAhead(b, d);
    }
    assert SeqCmp(Wrap(0 + d), Wrap(0)) > 0 <==> 0 < d < SEQ_NO_TH;
    var last := MAX_SEQ_NO;
    assert SeqCmp(Wrap(last + d), Wrap(last)) > 0 <==> 0 < d <= SEQ_NO_TH + 2;
  }

  /** On a set of numbers that are pairwise near, seqcmp is a strict total order: the usual one. */
  lemma CmpTotalOrder(a: int, b: int, c: int)
    requires Near(a, b) && Near(b, c) && Near(a, c)
    ensures SeqCmp(Wrap(a), Wrap(b)) == 0 <==> Wrap(a) == Wrap(b)
    ensures SeqCmp(Wrap(a), Wrap(b)) < 0 <==> SeqCmp(Wrap(b), Wrap(a)) > 0
    ensures SeqCmp(Wrap(a), Wrap(b)) < 0 && SeqCmp(Wrap(b), Wrap(c)) < 0
            ==> SeqCmp(Wrap(a), Wrap(c)) < 0
  {
    CmpRefines(a, b);
    CmpRefines(b, a);
    CmpRefines(b, c);
    CmpRefines(a, c);
    WrapInjective(a, b);
  }

  /** seqoff recovers the true difference. */
  lemma OffRefines(a: int, b: int)
    requires Near(a, b)
    ensures SeqOff(Wrap(a), Wrap(b)) == b - a
  {
    WrapDifference(a, b);
  }

  lemma LenRefines(a: int, b: int)
    requires a <= b < a + MODULUS
    ensures SeqLen(Wrap(a), Wrap(b)) == b - a + 1
  {
    WrapDifference(a, b);
  }

  lemma IncRefines(a: int)
    ensures IncSeq(Wrap(a)) == Wrap(a + 1)
    ensures DecSeq(Wrap(a)) == Wrap(a - 1)
  {
    WrapDifference(a + 1, a);
    WrapDifference(a, a - 1);
  }

  lemma IncByRefines(a: int, inc: Seq31)
    ensures IncSeqBy(Wrap(a), inc) == Wrap(a + inc)
  {
    WrapDifference(a + inc, a);
  }

  predicate Int32(x: int)
  {
    -0x8000_0000 <= x <= 0x7FFF_FFFF
  }

  /** No intermediate result leaves a 32-bit signed word, except in seqlen of a full circle. */
  lemma NoOverflow(s1: Seq31, s2: Seq31)
    ensures Int32(s1 - s2) && Int32(s2 - s1) && Int32(Abs(s1 - s2))
    ensures Abs(s1 - s2) >= SEQ_NO_TH && s1 < s2
            ==> Int32(s2 - s1 - MAX_SEQ_NO) && Int32(s2 - s1 - MAX_SEQ_NO - 1)
    ensures Abs(s1 - s2) >= SEQ_NO_TH && s1 > s2
            ==> Int32(s2 - s1 + MAX_SEQ_NO) && Int32(s2 - s1 + MAX_SEQ_NO + 1)
    ensures Int32(SeqLen(s1, s2)) <==> IncSeq(s2) != s1
    ensures MAX_SEQ_NO - s1 < s2 ==> Int32(s1 - MAX_SEQ_NO) && Int32(s1 - MAX_SEQ_NO + s2)
  {
  }
}
