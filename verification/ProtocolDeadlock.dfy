/** When the two sides can no longer go on: the ACKs the receiver could still send all look old to it, because the last
    one it knows to have arrived is too far back. */
module ProtocolDeadlock {
  import opened Bytes
  import opened Numbers
  import opened SeqNo
  import opened AckHistory
  import opened Protocol
  import opened ProtocolRun
  import opened ProtocolSafety
  import opened ProtocolWidth
  import opened ProtocolProgress

  // ---------- once stuck, always stuck ----------

  /** No number that can come to be acknowledged up to this one is news. */
  ghost predicate NoNews(r: Receiver, most: int)
  {
    forall n :: Low(r) <= n <= most && n !in r.ahead ==> !Newer(r, n)
  }

  /** State x came about from st, and is not ahead of it in any way that matters. */
  ghost predicate Stuck(st: State, x: State)
  {
    && Inv(x) && x.isn == st.isn && st.input <= x.input
    && Reach(x.s) <= Reach(st.s) && NoNews(x.r, Reach(st.s))
    && (forall k, a, w :: Ack(k, a, w) !in x.net)
    && (forall k :: Ack2(k) !in x.net)
  }

  /** A receiver that still lacks what it lacked, or has more. */
  lemma {:induction false} NoNewsStays(r: Receiver, r': Receiver, most: int)
    requires NoNews(r, most) && Low(r) <= Low(r') && r'.lastAckAck == r.lastAckAck
    requires forall n :: n >= Low(r') && n in r.ahead ==> n in r'.ahead
    ensures NoNews(r', most)
  {
    hide Low, SeqCmp, Wrap;
  }

  lemma {:induction false} NoneSent(x: State, now: int, expired: bool, most: int)
    requires Inv(x) && NoNews(x.r, most) && Reach(x.s) <= most
    requires forall n :: x.r.lastAck <= n < Low(x.r) ==> n in x.r.ahead
    ensures SendAck(x.r, now, expired).1 == None
  {
    LowIs(x.isn, x.input, x.r);
    assert !Newer(x.r, Low(x.r));
    hide Inv, Low, SeqCmp, Wrap, Stored, AheadFrom, Store;
  }

  lemma {:induction false} SilentAck(st: State, x: State, now: int, expired: bool)
    requires Stuck(st, x)
    ensures SendAck(x.r, now, expired).1 == None && Stuck(st, Do(x, EmitAck(now, expired)))
  {
    hide NoNews, Low, SeqCmp, Wrap, Stored, AheadFrom, Advance, Store, Do, SendAck, InputOk, NotchOk, DeliveryOk;
    hide HistoryOk;
    hide PacketOk, SenderOk;
    StepKeeps(x, EmitAck(now, expired));
    DoEmit(x, now, expired);
    SendAckBooks(x, now, expired);
    AckStores(x.r, now, expired);
    NoneSent(x, now, expired, Reach(st.s));
    NoNewsStays(x.r, Do(x, EmitAck(now, expired)).r, Reach(st.s));
  }

  lemma {:induction false} DataStays(r: Receiver, n: int, p: Payload)
    ensures var (r', report) := OnData(r, n, p);
            && r'.lastAckAck == r.lastAckAck && (report.Some? ==> report.value.Nak?)
            && forall m :: m in r.ahead ==> m in r'.ahead
  {
  }

  lemma {:induction false} StuckData(st: State, x: State, n: int, p: Payload)
    requires Stuck(st, x) && Enabled(x, RecvData(n, p))
    ensures Stuck(st, Do(x, RecvData(n, p)))
  {
    hide ReceiverOk, Low, NoNews, Do, SeqCmp, Wrap, OnData, InputOk, NotchOk, DeliveryOk, HistoryOk, PacketOk, SenderOk;
    StepKeeps(x, RecvData(n, p));
    DoData(x, n, p);
    var (r, report) := OnData(x.r, n, p);
    DataMovesForward(x.isn, x.input, x.r, n, p);
    DataStays(x.r, n, p);
    NoNewsStays(x.r, r, Reach(st.s));
  }

  lemma {:induction false} StuckRead(st: State, x: State, len: nat)
    requires Stuck(st, x)
    ensures Stuck(st, Do(x, Read(len)))
  {
    StepKeeps(x, Read(len));
    NoNewsStays(x.r, Do(x, Read(len)).r, Reach(st.s));
  }

  /** The sender's steps, of which only a fresh packet moves its greatest number, and only inside the window. */
  lemma {:induction false} StuckSender(st: State, x: State, x': State)
    requires Stuck(st, x) && Inv(x') && x'.isn == x.isn && x.input <= x'.input && x'.r == x.r
    requires Reach(x'.s) <= Reach(x.s)
    requires forall p :: p in x'.net && p !in x.net ==> p.Data? || p.LiteAck? || p.Nak?
    ensures Stuck(st, x')
  {
    hide Inv, NoNews, Reach;
  }

  lemma {:induction false} SenderSide(x: State, step: Step)
    requires Inv(x) && Enabled(x, step)
    requires !step.EmitAck? && !step.RecvData? && !step.Read? && !step.RecvAck? && !step.RecvAck2?
    ensures var x' := Do(x, step);
            && x'.isn == x.isn && x.input <= x'.input && x'.r == x.r && Reach(x'.s) <= Reach(x.s)
            && forall p :: p in x'.net && p !in x.net ==> p.Data? || p.LiteAck? || p.Nak?
  {
    hide Span, SeqCmp, Wrap, Low, Chunks, OnNak, SendAck, OnAck, ReceiverPart, InputOk, SenderOk;
    if step.RecvNak? {
      SenderFacts(x);
      assert PacketOk(x, Nak(step.ranges));
      NakIsHonest(x.s, step.ranges);
    }
  }

  lemma {:induction false} StuckStep(st: State, x: State, step: Step)
    requires Stuck(st, x) && Enabled(x, step)
    ensures Stuck(st, Do(x, step))
  {
    match step
    case EmitAck(now, expired) => SilentAck(st, x, now, expired);
    case RecvData(n, p) => StuckData(st, x, n, p);
    case Read(len) => StuckRead(st, x, len);
    case RecvAck(_, _, _, _) =>
    case RecvAck2(_, _) =>
    case _ =>
      hide Do, Inv, NoNews, Reach;
      SenderSide(x, step);
      StepKeeps(x, step);
      StuckSender(st, x, Do(x, step));
  }

  lemma {:induction false} StuckRuns(st: State, x: State, more: seq<Step>)
    requires Stuck(st, x) && Runs(x, more)
    ensures Stuck(st, After(x, more))
    decreases |more|
  {
    if more != [] {
      StuckStep(st, x, more[0]);
      StuckRuns(st, Do(x, more[0]), more[1..]);
    }
  }

  lemma {:induction false} FlattenShorter(ps: seq<Payload>, k: nat)
    requires k < |ps| && forall p :: p in ps ==> p != []
    ensures |Flatten(ps[..k])| < |Flatten(ps)|
  {
    assert ps == ps[..k] + ps[k..];
    FlattenAppend(ps[..k], ps[k..]);
    assert ps[k..][0] == ps[k] && ps[k] in ps;
  }

  /** A stuck pair never hands over the last of the data. */
  lemma {:induction false} StuckLacks(st: State, x: State)
    requires Inv(st) && Stuck(st, x) && !CanGoOn(st)
    ensures |x.delivered| < |st.app|
  {
    LowIs(x.isn, x.input, x.r);
    var k := x.r.lastAck - x.isn;
    assert k <= Reach(st.s) - st.isn < |st.input|;
    assert x.input[..k] == st.input[..k];
    FlattenShorter(st.input, k);
    assert |x.delivered| <= |Flatten(x.input[..k])|;
  }

  lemma {:induction false} StuckHere(st: State)
    requires Inv(st) && st.net == {} && !CanGoOn(st)
    ensures Stuck(st, st)
  {
    forall n | Low(st.r) <= n <= Reach(st.s) && n !in st.r.ahead ensures !Newer(st.r, n) {
      assert !News(st, n);
    }
  }

  /** With nothing in flight, everything can still be delivered exactly if the two sides can go on. */
  lemma {:induction false} DeliversIff(st: State)
    requires Good(st) && PickedLately(st) && st.net == {}
    ensures (exists more :: Runs(st, more) && After(st, more).delivered == st.app) <==> CanGoOn(st)
  {
    if CanGoOn(st) {
      var b := GoOn(st);
      assert exists more :: Runs(st, more) && After(st, more) == b;
    } else {
      StuckHere(st);
      NeverDelivers(st);
    }
  }

  lemma {:induction false} NeverDelivers(st: State)
    requires Inv(st) && Stuck(st, st) && !CanGoOn(st)
    ensures forall more :: Runs(st, more) ==> After(st, more).delivered != st.app
  {
    forall more | Runs(st, more) ensures After(st, more).delivered != st.app {
      StuckRuns(st, st, more);
      StuckLacks(st, After(st, more));
    }
  }

  /** While an ACK of all that was sent would still be news, or is confirmed already, they can go on. */
  lemma {:induction false} AnsweredGoesOn(st: State)
    requires Good(st) && st.s.currSeq + 1 - st.r.lastAckAck < SEQ_NO_TH
    ensures CanGoOn(st)
  {
    LowIs(st.isn, st.input, st.r);
    if Low(st.r) > st.r.lastAckAck {
      NewsAt(Low(st.r), st.r.lastAckAck);
      assert News(st, Low(st.r));
    } else {
      var m := if st.s.currSeq + 1 > Low(st.r) then st.s.currSeq + 1 else Low(st.r) + 1;
      NewsAt(m, st.r.lastAckAck);
      assert News(st, m);
    }
  }
}
