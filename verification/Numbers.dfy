/** Finite sets of integers, optional values, and what is used of sequences everywhere. */
module Numbers {
  datatype Option<+T> = None | Some(value: T)

  function Min(a: int, b: int): int
  {
    if a < b then a else b
  }

  function Max(a: int, b: int): int
  {
    if a < b then b else a
  }

  function Without<T>(s: seq<T>, k: int): seq<T>
    requires 0 <= k < |s|
  {
    s[..k] + s[k + 1..]
  }

  /** One element less, and the others in their order. */
  lemma {:induction false} WithoutIs<T>(s: seq<T>, k: int)
    requires 0 <= k < |s|
    ensures |Without(s, k)| == |s| - 1
    ensures forall i :: 0 <= i < |s| - 1 ==> Without(s, k)[i] == s[if i < k then i else i + 1]
  {
  }

  /** The numbers from lo to hi. */
  function Span(lo: int, hi: int): (s: set<int>)
    ensures forall n :: n in s <==> lo <= n <= hi
    ensures |s| == if lo <= hi then hi - lo + 1 else 0
    decreases hi - lo
  {
    if lo > hi then {} else {lo} + Span(lo + 1, hi)
  }

  /** Some member of a non-empty set. */
  ghost function Pick<T>(s: set<T>): (m: T)
    requires s != {}
    ensures m in s
  {
    var m :| m in s;
    m
  }

  ghost function MinOf(s: set<int>): (m: int)
    requires s != {}
    ensures m in s && forall n :: n in s ==> m <= n
  {
    MinExists(s);
    var m :| m in s && forall n :: n in s ==> m <= n;
    m
  }

  lemma {:induction false} MinExists(s: set<int>)
    requires s != {}
    ensures exists m :: m in s && forall n :: n in s ==> m <= n
  {
    var x := Pick(s);
    if s != {x} {
      MinExists(s - {x});
      var m :| m in s - {x} && forall n :: n in s - {x} ==> m <= n;
      var k := if m < x then m else x;
      assert forall n :: n in s ==> n == x || n in s - {x};
      assert k in s && forall n :: n in s ==> k <= n;
    } else {
      assert x in s && forall n :: n in s ==> x <= n;
    }
  }

  // ---------- division by a symbolic divisor ----------

  lemma MulPos(k: int, m: int)
    requires m > 0 && k >= 1
    ensures k * m >= m
  {
  }

  lemma DivUnique(x: int, m: int, q: int, r: int)
    requires m > 0 && 0 <= r < m && x == q * m + r
    ensures x / m == q && x % m == r
  {
    var q', r' := x / m, x % m;
    assert x == m * q' + r';
    assert (q - q') * m == r' - r;
    assert (q' - q) * m == r - r';
    if q > q' { MulPos(q - q', m); }
    if q < q' { MulPos(q' - q, m); }
  }

  lemma DivSub(x: int, m: int)
    requires m > 0
    ensures x / m == (x - m) / m + 1 && x % m == (x - m) % m
  {
    var q, r := (x - m) / m, (x - m) % m;
    assert (q + 1) * m == q * m + m;
    DivUnique(x, m, q + 1, r);
  }

  /** x reduced to the range of a circular array's indices, one turn at a time. */
  function Turn(size: int, x: int): int
    requires size > 0
    decreases if x < 0 then size - x else x
  {
    if x < 0 then Turn(size, x + size) else if x < size then x else Turn(size, x - size)
  }

  lemma {:induction false} TurnIsMod(size: int, x: int)
    requires size > 0
    ensures Turn(size, x) == x % size
    ensures 0 <= Turn(size, x) < size
    decreases if x < 0 then size - x else x
  {
    if x < 0 {
      TurnIsMod(size, x + size);
      DivSub(x + size, size);
    } else if x < size {
      DivUnique(x, size, 0, x);
    } else {
      TurnIsMod(size, x - size);
      DivSub(x, size);
    }
  }

  lemma {:induction false} ModWalk(size: int, x: int, d: int)
    requires size > 0
    ensures (x % size + d) % size == (x + d) % size
    ensures (x % size + d + size) % size == (x + d) % size
  {
    var q := x / size;
    assert x == q * size + x % size;
    var y := x % size + d;
    var q', r := y / size, y % size;
    assert y == q' * size + r;
    assert (q + q') * size == q * size + q' * size;
    DivUnique(x + d, size, q + q', r);
    DivSub(y + size, size);
  }

  lemma {:induction false} ModInjective(size: int, x: int, y: int)
    requires size > 0 && -size < x - y < size
    ensures x % size == y % size <==> x == y
  {
    var q, q', r := x / size, y / size, x % size;
    assert x == q * size + r && y == q' * size + y % size;
    if y % size == r {
      assert (q - q') * size == x - y && (q' - q) * size == y - x;
      if q > q' { MulPos(q - q', size); }
      if q < q' { MulPos(q' - q, size); }
    }
  }
}
