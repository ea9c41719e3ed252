/** The loss report (NAK): how intervals are written into an array of 32-bit words, and read back. */
module LossReport {
  import opened Numbers
  import opened SeqNo
  import opened Intervals
  import opened LossArrays

  /** A 32-bit signed word. */
  type Word = w: int | -MODULUS <= w <= MAX_SEQ_NO

  /** A sequence number with the top bit of its 32-bit word set, read as a signed word. */
  function Flag(s: Seq31): Word
  {
    s - MODULUS
  }

  /** A 32-bit word as an unsigned number. */
  function Unsigned(w: Word): int
  {
    if w < 0 then w + 2 * MODULUS else w
  }

  /** A flagged number has the top bit set and itself in the bits below; an unflagged one has the top bit clear. */
  lemma {:induction false} FlagIsTopBit(s: Seq31)
    ensures Unsigned(s) / MODULUS == 0 && Unsigned(s) % MODULUS == s
    ensures Unsigned(Flag(s)) / MODULUS == 1 && Unsigned(Flag(s)) % MODULUS == s
  {
    DivUnique(Unsigned(s), MODULUS, 0, s);
    DivUnique(Unsigned(Flag(s)), MODULUS, 1, s);
  }

  /** One interval as words: its start flagged and then its end, or a single number. */
  function Words(n: Node): seq<Word>
  {
    if n.lo == n.hi then [Wrap(n.lo)] else [Flag(Wrap(n.lo)), Wrap(n.hi)]
  }

  /** A number alone is one word without the flag; a longer interval is its flagged first number and its last one. */
  lemma {:induction false} WordsAre(n: Node)
    requires n.lo <= n.hi
    ensures var w := Words(n);
            if n.lo == n.hi then |w| == 1 && Unsigned(w[0]) == Wrap(n.lo)
            else |w| == 2 && Unsigned(w[0]) == MODULUS + Wrap(n.lo) && Unsigned(w[1]) == Wrap(n.hi)
  {
  }

  /** The words getLossArray writes after len words, given the array's limit. */
  function Report(ns: seq<Node>, limit: int, len: nat): seq<Word>
  {
    if ns == [] || len >= limit - 1 then []
    else Words(ns[0]) + Report(ns[1..], limit, len + |Words(ns[0])|)
  }

  /** How many intervals that reports. */
  function Reported(ns: seq<Node>, limit: int, len: nat): (t: nat)
    ensures t <= |ns|
  {
    if ns == [] || len >= limit - 1 then 0
    else 1 + Reported(ns[1..], limit, len + |Words(ns[0])|)
  }

  datatype WireRange = WireRange(lo: Seq31, hi: Seq31)

  /** The loop of processCtrl type 3 as a parser: a flagged word starts a pair. */
  function Decode(words: seq<Word>): Option<seq<WireRange>>
  {
    if words == [] then Some([])
    else if words[0] >= 0 then
      match Decode(words[1..])
      case None => None
      case Some(rest) => Some([WireRange(words[0], words[0])] + rest)
    else if |words| == 1 || words[1] < 0 then None
    else
      match Decode(words[2..])
      case None => None
      case Some(rest) => Some([WireRange(words[0] + MODULUS, words[1])] + rest)
  }

  function Wire(n: Node): WireRange
  {
    WireRange(Wrap(n.lo), Wrap(n.hi))
  }

  /** The report never exceeds the limit, and stops early only when the limit is near. */
  lemma {:induction false} ReportFits(ns: seq<Node>, limit: int, len: nat)
    requires len <= limit
    ensures len + |Report(ns, limit, len)| <= limit
    ensures Reported(ns, limit, len) < |ns| ==> len + |Report(ns, limit, len)| >= limit - 1
    ensures Report(ns, limit, len) == [] <==> ns == [] || len >= limit - 1
  {
    if ns != [] && len < limit - 1 {
      ReportFits(ns[1..], limit, len + |Words(ns[0])|);
    }
  }

  /** Reading a report back gives exactly the intervals reported. */
  lemma {:induction false} RoundTrip(ns: seq<Node>, limit: int, len: nat)
    requires len <= limit
    ensures var t := Reported(ns, limit, len);
            Decode(Report(ns, limit, len)) == Some(seq(t, i requires 0 <= i < t => Wire(ns[i])))
  {
    ReportFits(ns, limit, len);
    var t := Reported(ns, limit, len);
    var all := seq(t, i requires 0 <= i < t => Wire(ns[i]));
    if ns != [] && len < limit - 1 {
      var len' := len + |Words(ns[0])|;
      RoundTrip(ns[1..], limit, len');
      DecodeWords(ns[0], Report(ns[1..], limit, len'));
      hide Report, Reported, Decode;
      var tail := seq(t - 1, i requires 0 <= i < t - 1 => Wire(ns[1..][i]));
      assert all == [Wire(ns[0])] + tail;
    } else {
      assert all == [];
    }
  }

  /** Reading the words of one interval, and then the rest. */
  lemma {:induction false} DecodeWords(n: Node, rest: seq<Word>)
    ensures Decode(rest).Some? ==> Decode(Words(n) + rest) == Some([Wire(n)] + Decode(rest).value)
  {
    var words, all := Words(n), Words(n) + rest;
    assert all[|words|..] == rest && all[0] == words[0] && (|words| == 2 ==> all[1] == words[1]);
  }

  /** What is reported is the lowest part of the set: every reported number is below every other one. */
  lemma {:induction false} BelowRest(ns: seq<Node>, t: nat, x: int, y: int)
    requires Ordered(ns) && t <= |ns| && x in Members(ns[..t]) && y in Members(ns[t..])
    ensures x < y
  {
    hide Members;
    InMembers(ns[..t], x);
    InMembers(ns[t..], y);
    var i :| 0 <= i < |ns[..t]| && ns[..t][i].lo <= x <= ns[..t][i].hi;
    var j :| 0 <= j < |ns[t..]| && ns[t..][j].lo <= y <= ns[t..][j].hi;
    assert ns[..t][i] == ns[i] && ns[t..][j] == ns[t + j];
  }

  lemma {:induction false} LowestPart(ns: seq<Node>, t: nat)
    requires Ordered(ns) && t <= |ns|
    ensures Members(ns[..t]) <= Members(ns)
    ensures forall x, y :: x in Members(ns[..t]) && y in Members(ns) - Members(ns[..t]) ==> x < y
    ensures t == |ns| ==> Members(ns[..t]) == Members(ns)
  {
    hide Members, Ordered;
    assert ns == ns[..t] + ns[t..];
    MembersAppend(ns[..t], ns[t..]);
    forall x, y | x in Members(ns[..t]) && y in Members(ns[t..]) ensures x < y {
      BelowRest(ns, t, x, y);
    }
    if t == |ns| { assert ns[..t] == ns; }
  }
}
