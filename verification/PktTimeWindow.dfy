/** CPktTimeWindow::getPktRcvSpeed: the arrival rate from the intervals near their median. */
module PktTimeWindows {
  import opened Numbers
  import opened SeqNo

  /** The first n entries are the smallest ones, in order. */
  ghost predicate Leading(s: seq<int>, n: int)
  {
    forall i, j :: 0 <= i < n && i <= j < |s| ==> s[i] <= s[j]
  }

  /** The samples strictly between two bounds. */
  function Between(s: seq<int>, lower: int, upper: int): seq<int>
  {
    if s == [] then []
    else (if lower < s[0] < upper then [s[0]] else []) + Between(s[1..], lower, upper)
  }

  function Sum(s: seq<int>): int
  {
    if s == [] then 0 else s[0] + Sum(s[1..])
  }

  /** The mean of the two middle entries, rounded down. */
  function Middle(s: seq<int>): int
    requires |s| >= 2
  {
    (s[|s| / 2 - 1] + s[|s| / 2]) / 2
  }

  function CeilDiv(x: int, y: int): int
    requires y > 0
  {
    (x + y - 1) / y
  }

  /** The reported rate: packets a second, from the mean of the kept intervals in microseconds. */
  function Rate(kept: seq<int>, size: nat): int
    requires |kept| > size / 2 ==> Sum(kept) / |kept| > 0
  {
    if |kept| > size / 2 then CeilDiv(1000000, Sum(kept) / |kept|) else 0
  }

  // ---------- the same in 32-bit integers ----------

  /** A value that has left the range of a signed 32-bit word comes back in at the other end. */
  function W32(x: int): (w: int)
    ensures Int32(w) && (Int32(x) <==> w == x)
  {
    (x + 0x8000_0000) % 0x1_0000_0000 - 0x8000_0000
  }

  /** Division that rounds toward zero. */
  function TruncDiv(x: int, y: int): int
    requires y > 0
  {
    if x >= 0 then x / y else -(-x / y)
  }

  /** The quotient rounded up, for a divisor of either sign. */
  function CeilQuotient(x: nat, y: int): int
    requires y != 0
  {
    if y > 0 then CeilDiv(x, y) else -(x / -y)
  }

  function Middle32(s: seq<int>): int
    requires |s| >= 2
  {
    W32(s[|s| / 2 - 1] + s[|s| / 2]) / 2
  }

  function Kept32(s: seq<int>): seq<int>
    requires |s| >= 2
  {
    Between(s, Middle32(s) / 8, W32(Middle32(s) * 8))
  }

  /** What the code returns for a sorted window; None when it divides by zero. */
  function Speed32(s: seq<int>): Option<int>
    requires |s| >= 2
  {
    var kept := Kept32(s);
    if |kept| > |s| / 2 then
      var mean := TruncDiv(W32(Sum(kept)), |kept|);
      if mean == 0 then None else Some(CeilQuotient(1000000, mean))
    else Some(0)
  }

  function KeptOf(s: seq<int>): seq<int>
    requires |s| >= 2
  {
    Between(s, Middle(s) / 8, Middle(s) * 8)
  }

  /** The samples do not make any intermediate value leave its word. */
  ghost predicate Fits32(s: seq<int>)
    requires |s| >= 2
  {
    Int32(s[|s| / 2 - 1] + s[|s| / 2]) && Int32(Middle(s) * 8) && Int32(Sum(KeptOf(s)))
  }

  // ---------- facts about the specification ----------

  /** Two orderings of the same samples agree on their leading entries; so the middle entries, and the
      median, depend on the samples alone. */
  lemma {:induction false} LeadingUnique(p: seq<int>, q: seq<int>, n: int)
    requires multiset(p) == multiset(q) && 0 <= n <= |p| && Leading(p, n) && Leading(q, n)
    ensures |p| == |q| && p[..n] == q[..n]
    decreases n
  {
    SameLength(p, q);
    if n > 0 {
      var k := n - 1;
      LeadingUnique(p, q, k);
      SameTails(p, q, k);
      LeastOfTail(p, q, k);
      LeastOfTail(q, p, k);
      assert p[..n] == p[..k] + [p[k]] && q[..n] == q[..k] + [q[k]];
    }
  }

  lemma {:induction false} SameLength(p: seq<int>, q: seq<int>)
    requires multiset(p) == multiset(q)
    ensures |p| == |q|
  {
    assert |multiset(p)| == |p| && |multiset(q)| == |q|;
  }

  lemma {:induction false} SameTails(p: seq<int>, q: seq<int>, k: int)
    requires multiset(p) == multiset(q) && 0 <= k <= |p| == |q| && p[..k] == q[..k]
    ensures multiset(p[k..]) == multiset(q[k..])
  {
    assert p == p[..k] + p[k..] && q == q[..k] + q[k..];
    assert multiset(p[..k] + p[k..]) == multiset(p[..k]) + multiset(p[k..]);
    assert multiset(q[..k] + q[k..]) == multiset(q[..k]) + multiset(q[k..]);
    assert multiset(p[k..]) == multiset(p) - multiset(p[..k]);
    assert multiset(q[k..]) == multiset(q) - multiset(q[..k]);
  }

  lemma {:induction false} LeastOfTail(p: seq<int>, q: seq<int>, k: int)
    requires 0 <= k < |p| == |q| && Leading(p, k + 1) && multiset(p[k..]) == multiset(q[k..])
    ensures p[k] <= q[k]
  {
    assert q[k..][0] in multiset(q[k..]);
    assert q[k] in p[k..];
    var j :| 0 <= j < |p[k..]| && p[k..][j] == q[k];
    assert p[k + j] == q[k];
  }

  lemma {:induction false} MedianUnique(p: seq<int>, q: seq<int>)
    requires |p| >= 2 && multiset(p) == multiset(q)
    requires Leading(p, |p| / 2 + 1) && Leading(q, |p| / 2 + 1)
    ensures |q| == |p| && Middle(p) == Middle(q)
  {
    var n := |p| / 2 + 1;
    LeadingUnique(p, q, n);
    assert p[..n][n - 1] == q[..n][n - 1] && p[..n][n - 2] == q[..n][n - 2];
  }

  /** What is kept lies strictly between the bounds, and so does its mean, rounded down, from below. */
  lemma {:induction false} KeptBounds(s: seq<int>, lower: int, upper: int)
    ensures |Between(s, lower, upper)| <= |s|
    ensures forall x :: x in Between(s, lower, upper) ==> x in s && lower < x < upper
    ensures forall x :: x in s && lower < x < upper ==> x in Between(s, lower, upper)
  {
    if s != [] {
      KeptBounds(s[1..], lower, upper);
      assert forall x :: x in s <==> x == s[0] || x in s[1..];
    }
  }

  lemma {:induction false} SumBounds(s: seq<int>, lower: int, upper: int)
    requires forall x :: x in s ==> lower < x < upper
    ensures (lower + 1) * |s| <= Sum(s) <= (upper - 1) * |s|
  {
    if s != [] {
      assert s[0] in s && forall x :: x in s[1..] ==> x in s;
      SumBounds(s[1..], lower, upper);
      OneMore(lower + 1, |s|);
      OneMore(upper - 1, |s|);
    }
  }

  lemma OneMore(a: int, n: int)
    ensures a * n == a * (n - 1) + a
  {
  }

  /** Samples are kept only around a positive median; then their mean is positive, between the same bounds. */
  lemma {:induction false} MeanBounds(s: seq<int>, median: int)
    requires Between(s, median / 8, median * 8) != []
    ensures var kept := Between(s, median / 8, median * 8);
            && median > 0 && Sum(kept) / |kept| >= 1 && median / 8 < Sum(kept) / |kept| < median * 8
  {
    var kept := Between(s, median / 8, median * 8);
    KeptBounds(s, median / 8, median * 8);
    assert kept[0] in kept;
    SumBounds(kept, median / 8, median * 8);
    QuotientBounds(Sum(kept), |kept|, median / 8 + 1, median * 8 - 1);
  }

  lemma {:induction false} QuotientBounds(x: int, y: int, a: int, b: int)
    requires y > 0 && a * y <= x <= b * y
    ensures a <= x / y <= b
  {
    var q, r := x / y, x % y;
    assert x == q * y + r;
    assert (q + 1) * y == q * y + y && (b + 1) * y == b * y + y;
    if q < a { MulLess(q + 1, a, y); }
    if q > b { MulLess(b + 1, q, y); }
  }

  lemma MulLess(a: int, b: int, y: int)
    requires a <= b && y > 0
    ensures a * y <= b * y
  {
  }

  lemma {:induction false} BetweenAppend(s: seq<int>, x: int, lower: int, upper: int)
    ensures Between(s + [x], lower, upper) == Between(s, lower, upper) + (if lower < x < upper then [x] else [])
  {
    if s != [] {
      BetweenAppend(s[1..], x, lower, upper);
      assert (s + [x])[1..] == s[1..] + [x];
    }
  }

  lemma {:induction false} SumAppend(s: seq<int>, x: int)
    ensures Sum(s + [x]) == Sum(s) + x
  {
    if s != [] {
      SumAppend(s[1..], x);
      assert (s + [x])[1..] == s[1..] + [x];
    }
  }

  // ---------- the filter ----------

  /** One pass of the sort: the least of the entries from i on comes to i. */
  method SelectAt(a: array<int>, i: int)
    requires 0 <= i < a.Length && Leading(a[..], i)
    modifies a
    ensures multiset(a[..]) == multiset(old(a[..])) && Leading(a[..], i + 1)
  {
    var j := i;
    while j < a.Length
      invariant i <= j <= a.Length
      invariant multiset(a[..]) == multiset(old(a[..])) && Leading(a[..], i)
      invariant forall k :: i <= k < j ==> a[i] <= a[k]
    {
      if a[i] > a[j] {
        Exchange(a, i, j);
      }
      j := j + 1;
    }
  }

  method Exchange(a: array<int>, i: int, j: int)
    requires 0 <= i <= j < a.Length && Leading(a[..], i)
    modifies a
    ensures a[..] == old(a[..])[i := old(a[j])][j := old(a[i])]
    ensures multiset(a[..]) == multiset(old(a[..])) && Leading(a[..], i)
  {
    SwapLeading(a[..], i, j);
    a[i], a[j] := a[j], a[i];
  }

  /** Swapping two entries after the first i keeps those leading. */
  lemma {:induction false} SwapLeading(s: seq<int>, i: int, j: int)
    requires 0 <= i <= j < |s| && Leading(s, i)
    ensures multiset(s[i := s[j]][j := s[i]]) == multiset(s) && Leading(s[i := s[j]][j := s[i]], i)
  {
    var t := s[i := s[j]][j := s[i]];
    forall k, m | 0 <= k < i && k <= m < |t| ensures t[k] <= t[m] {
      assert t[k] == s[k] && (t[m] == s[m] || t[m] == s[i] || t[m] == s[j]);
    }
  }

  /** The half-length sort leaves the smaller half, and the next entry, in order at the front. */
  method SortHalf(a: array<int>)
    requires a.Length >= 2
    modifies a
    ensures multiset(a[..]) == multiset(old(a[..])) && Leading(a[..], a.Length / 2 + 1)
  {
    var i, n := 0, a.Length / 2 + 1;
    while i < n
      invariant 0 <= i <= n <= a.Length
      invariant multiset(a[..]) == multiset(old(a[..])) && Leading(a[..], i)
    {
      SelectAt(a, i);
      i := i + 1;
    }
  }

  /** Count of the samples strictly between the bounds, and their sum in a 32-bit word. */
  method CountBetween(a: array<int>, lower: int, upper: int) returns (count: int, sum: int)
    ensures count == |Between(a[..], lower, upper)| && sum == W32(Sum(Between(a[..], lower, upper)))
  {
    count, sum := 0, 0;
    var k := 0;
    while k < a.Length
      invariant 0 <= k <= a.Length
      invariant count == |Between(a[..k], lower, upper)| && sum == W32(Sum(Between(a[..k], lower, upper)))
    {
      assert a[..k + 1] == a[..k] + [a[k]];
      BetweenAppend(a[..k], a[k], lower, upper);
      SumAppend(Between(a[..k], lower, upper), a[k]);
      WrapAgain(Sum(Between(a[..k], lower, upper)), a[k]);
      assert Between(a[..k], lower, upper) + [] == Between(a[..k], lower, upper);
      if a[k] < upper && a[k] > lower {
        count := count + 1;
        sum := W32(sum + a[k]);
      }
      k := k + 1;
    }
    assert a[..a.Length] == a[..];
  }

  /** Wrapping on the way changes nothing at the end. */
  lemma {:induction false} WrapAgain(x: int, y: int)
    ensures W32(W32(x) + y) == W32(x + y)
  {
    var m := 0x1_0000_0000;
    ModWalk(m, x + 0x8000_0000, y);
  }

  /** getPktRcvSpeed: permutes the window with its smaller half in order, and returns what the 32-bit arithmetic makes
      of it, or None where it divides by zero. */
  method GetPktRcvSpeed(window: array<int>) returns (speed: Option<int>)
    requires window.Length >= 2
    modifies window
    ensures multiset(window[..]) == multiset(old(window[..])) && Leading(window[..], window.Length / 2 + 1)
    ensures speed == Speed32(window[..])
    ensures var kept := KeptOf(window[..]);
            && (|kept| > window.Length / 2 ==> Sum(kept) / |kept| > 0)
            && (Fits32(window[..]) ==> speed == Some(Rate(kept, window.Length)))
    ensures RateOf(window[..], speed)
  {
    SortHalf(window);
    FitsIsRight(window[..]);
    RateIsRight(window[..]);
    var median := W32(window[window.Length / 2 - 1] + window[window.Length / 2]) / 2;
    var upper, lower := W32(median * 8), median / 8;
    var count, sum := CountBetween(window, lower, upper);
    if count > window.Length / 2 {
      var mean := TruncDiv(sum, count);
      speed := if mean == 0 then None else Some(CeilQuotient(1000000, mean));
    } else {
      speed := Some(0);
    }
  }

  // ---------- when the 32-bit result is right ----------

  /** While no intermediate value leaves its word, the result r is the least one with r * mean >= 1000000, for the mean
      of the samples within a factor of eight of the median; it is 0 if these are not more than half of all
      samples. */
  ghost predicate RateOf(s: seq<int>, speed: Option<int>)
    requires |s| >= 2
  {
    var middle := s[|s| / 2 - 1] + s[|s| / 2];
    var kept := Between(s, middle / 2 / 8, middle / 2 * 8);
    Int32(middle) && Int32(middle / 2 * 8) && Int32(Sum(kept)) ==>
      speed.Some? &&
      if |kept| > |s| / 2 then
        var mean := Sum(kept) / |kept|;
        mean > 0 && (speed.value - 1) * mean < 1000000 <= speed.value * mean
      else speed.value == 0
  }

  lemma {:induction false} RateIsRight(s: seq<int>)
    requires |s| >= 2
    ensures RateOf(s, Speed32(s))
  {
    FitsIsRight(s);
    var kept := KeptOf(s);
    if |kept| > |s| / 2 {
      RoundsUp(1000000, Sum(kept) / |kept|);
    }
    hide Between, Sum, CeilDiv, Speed32;
  }

  /** The quotient rounded up is the least integer not below the true one. */
  lemma {:induction false} RoundsUp(x: nat, y: int)
    requires y != 0
    ensures var r := CeilQuotient(x, y); if y > 0 then (r - 1) * y < x <= r * y else r * y <= x < (r - 1) * y
    ensures y > 0 ==> CeilDiv(x, y) == CeilQuotient(x, y)
  {
    if y > 0 {
      var q, m := (x + y - 1) / y, (x + y - 1) % y;
      assert x + y - 1 == q * y + m;
      assert (q - 1) * y == q * y - y;
    } else {
      var z := -y;
      var q, m := x / z, x % z;
      assert x == q * z + m;
      assert -q * y == q * z && (-q - 1) * y == q * z + z;
    }
  }

  /** Division as in the code rounds toward zero. */
  lemma {:induction false} RoundsToZero(x: int, y: int)
    requires y > 0
    ensures var r := TruncDiv(x, y);
            if x >= 0 then r >= 0 && r * y <= x < (r + 1) * y else r <= 0 && (r - 1) * y < x <= r * y
  {
    var z := if x >= 0 then x else -x;
    var q, m := z / y, z % y;
    assert z == q * y + m;
    assert (q + 1) * y == q * y + y && -q * y == -(q * y) && (-q - 1) * y == -(q * y) - y;
    QuotientNat(z, y);
  }

  lemma {:induction false} QuotientNat(z: nat, y: int)
    requires y > 0
    ensures z / y >= 0
  {
  }

  /** Wrapping changes a value by whole turns of the word only. */
  lemma {:induction false} WrapsByTurns(x: int)
    ensures (x - W32(x)) % 0x1_0000_0000 == 0
  {
    var y, m := x + 0x8000_0000, 0x1_0000_0000;
    var q := y / m;
    assert y == q * m + y % m;
    assert x - W32(x) == q * m;
    DivUnique(q * m, m, q, 0);
  }

  /** The 32-bit median, bounds and sum are the true ones if and only if none of them leaves its word. */
  lemma {:induction false} FitsExactly(s: seq<int>)
    requires |s| >= 2
    ensures Fits32(s) <==>
            && W32(s[|s| / 2 - 1] + s[|s| / 2]) == s[|s| / 2 - 1] + s[|s| / 2]
            && W32(Middle32(s) * 8) == Middle(s) * 8 && W32(Sum(KeptOf(s))) == Sum(KeptOf(s))
  {
  }

  /** Then the result is the rate of the mean of the kept samples, which lie within a factor of eight of the median
      and have a positive mean within the same bounds: nothing is divided by zero. */
  lemma {:induction false} FitsIsRight(s: seq<int>)
    requires |s| >= 2
    ensures |KeptOf(s)| > |s| / 2 ==> Sum(KeptOf(s)) / |KeptOf(s)| > 0
    ensures Fits32(s) ==> Speed32(s) == Some(Rate(KeptOf(s), |s|)) && Rate(KeptOf(s), |s|) >= 0
  {
    var kept := KeptOf(s);
    if |kept| > |s| / 2 {
      MeanBounds(s, Middle(s));
      var mean := Sum(kept) / |kept|;
      CeilPositive(mean);
      NotNegative(Sum(kept), |kept|);
    }
  }

  lemma {:induction false} NotNegative(x: int, y: int)
    requires y > 0 && x / y > 0
    ensures x >= 0
  {
    assert x == x / y * y + x % y;
    MulLess(0, x / y, y);
  }

  /** The code divides by zero exactly when it keeps more than half of the samples and their sum, wrapped, is smaller in
      size than their number. */
  lemma {:induction false} ZeroDivisor(s: seq<int>)
    requires |s| >= 2
    ensures Speed32(s) == None <==>
            |Kept32(s)| > |s| / 2 && -|Kept32(s)| < W32(Sum(Kept32(s))) < |Kept32(s)|
  {
    var kept := Kept32(s);
    if |kept| > |s| / 2 {
      TruncZero(W32(Sum(kept)), |kept|);
    }
  }

  lemma {:induction false} TruncZero(x: int, y: int)
    requires y > 0
    ensures TruncDiv(x, y) == 0 <==> -y < x < y
  {
    var z := if x >= 0 then x else -x;
    assert z == z / y * y + z % y;
    if z < y {
      DivUnique(z, y, 0, z);
    } else {
      QuotientBounds1(z, y);
    }
  }

  /** What the code returns for any samples, once their middle, its bounds and their sum have wrapped: nothing if that
      sum is smaller in size than the number of samples kept, and else the quotient by its mean rounded toward zero,
      rounded up. */
  lemma {:induction false} SpeedInWords(s: seq<int>)
    requires |s| >= 2
    ensures var middle := W32(s[|s| / 2 - 1] + s[|s| / 2]);
            var kept := Between(s, middle / 2 / 8, W32(middle / 2 * 8));
            var sum := W32(Sum(kept));
            match Speed32(s)
            case None => |kept| > |s| / 2 && -|kept| < sum < |kept|
            case Some(r) =>
              if |kept| <= |s| / 2 then r == 0
              else
                var m := TruncDiv(sum, |kept|);
                if m > 0 then (r - 1) * m < 1000000 <= r * m else m < 0 && r * m <= 1000000 < (r - 1) * m
  {
    ZeroDivisor(s);
    var kept := Kept32(s);
    if |kept| > |s| / 2 {
      var m := TruncDiv(W32(Sum(kept)), |kept|);
      if m != 0 {
        RoundsUp(1000000, m);
      }
    }
    hide Between, Sum, CeilDiv, CeilQuotient, TruncDiv, W32;
  }

  lemma {:induction false} AllBetween(s: seq<int>, lower: int, upper: int)
    requires forall i :: 0 <= i < |s| ==> lower < s[i] < upper
    ensures Between(s, lower, upper) == s
  {
    if s != [] {
      AllBetween(s[1..], lower, upper);
    }
  }

  function Copies(n: nat, x: int): (s: seq<int>)
    ensures |s| == n && forall i :: 0 <= i < n ==> s[i] == x
  {
    seq(n, _ => x)
  }

  lemma {:induction false} SumCopies(s: seq<int>, n: nat, x: int)
    ensures Sum(s + Copies(n, x)) == Sum(s) + n * x
  {
    if n == 0 {
      assert s + Copies(0, x) == s;
    } else {
      SumCopies(s, n - 1, x);
      assert s + Copies(n, x) == s + Copies(n - 1, x) + [x];
      SumAppend(s + Copies(n - 1, x), x);
      assert n * x == (n - 1) * x + x;
    }
  }

  lemma {:induction false} OneTurn(x: int)
    requires Int32(x)
    ensures W32(0x1_0000_0000 + x) == x
  {
  }

  /** Sixteen gaps of about 268 seconds whose sum wraps to 1: the code divides by zero. */
  lemma {:induction false} DividesByZero()
    ensures var s := Copies(9, 268435446) + Copies(7, 268435469);
            Leading(s, |s| / 2 + 1) && Sum(KeptOf(s)) == 0x1_0000_0001 && Speed32(s) == None
  {
    hide Between, Speed32, Copies, W32;
    var s := Copies(9, 268435446) + Copies(7, 268435469);
    OneTurn(1);
    AllBetween(s, Middle(s) / 8, Middle(s) * 8);
    assert [] + Copies(9, 268435446) == Copies(9, 268435446);
    SumCopies([], 9, 268435446);
    SumCopies(Copies(9, 268435446), 7, 268435469);
    ZeroDivisor(s);
  }

  /** Sixteen gaps of 140 seconds make the sum negative: the code returns 0 although the rate, rounded up, is 1. */
  lemma {:induction false} NegativeSum()
    ensures var s := Copies(16, 140000000);
            && Leading(s, |s| / 2 + 1) && Speed32(s) == Some(0)
            && |KeptOf(s)| > |s| / 2 && Sum(KeptOf(s)) / |KeptOf(s)| == 140000000 && Rate(KeptOf(s), |s|) == 1
  {
    var s := Copies(16, 140000000);
    assert Middle(s) == 140000000 && Middle32(s) == 140000000;
    AllBetween(s, Middle(s) / 8, Middle(s) * 8);
    assert [] + s == s;
    SumCopies([], 16, 140000000);
    assert Kept32(s) == KeptOf(s);
    hide Between, Sum, Copies, Kept32, KeptOf;
    var x := 2240000000;
    assert Sum(KeptOf(s)) == x && |KeptOf(s)| == 16;
    assert W32(x) == -2054967296 && TruncDiv(W32(x), 16) == -128435456;
    assert CeilQuotient(1000000, -128435456) == 0 && CeilDiv(1000000, 140000000) == 1;
  }

  lemma {:induction false} CeilPositive(y: int)
    requires y > 0
    ensures CeilDiv(1000000, y) >= 1
  {
    assert 1 * y <= 1000000 + y - 1;
    QuotientBounds1(1000000 + y - 1, y);
  }

  lemma {:induction false} QuotientBounds1(x: int, y: int)
    requires y > 0 && x >= y
    ensures x / y >= 1
  {
    var q, r := x / y, x % y;
    assert x == q * y + r;
    if q < 1 { MulLess(q, 0, y); }
  }
}
