/**
 What the receiver makes of the line: when receptions and collisions end, which frames are received,
 and how the time is counted.
 */
module EtherMacReceiver {
  import opened EtherMacSpec
  import opened EtherMacRuns
  import opened Options

  lemma {:induction false} LongerTakesLonger(p: Params, a: nat, b: nat)
    requires p.Ok() && a <= b
    ensures Duration(p, a) <= Duration(p, b)
    decreases b
  {
    if a < b {
      LongerTakesLonger(p, a, b - 1);
    }
  }

  // ---------------------------------------------------------------------------
  // The receiver's state diagram
  // ---------------------------------------------------------------------------

  /** A frame that begins now is received: the line was silent, or the frame before it is as good as over. */
  predicate Clear(s: Mac, t: real) {
    && (s.cfg.duplex || !s.tx.Transmitting?)
    && (s.rx.Silent? || (s.rx.Receiving? && s.rx.at - t < s.cfg.bitTime))
  }

  predicate ReceiverMoves(s: Mac, t: real, e: Event, s': Mac)
    requires s.auto.None? ==> s.cfg.Ok()
    requires Arriving(e) != [] || (e.Net? && e.msg.WireJam?) ==> s.auto.None? && (s.rx.Silent? ==> Arriving(e) != [])
  {
    match e
    case Net(WireFrame(f), _) =>
      var end := t + Duration(s.cfg, WireBits(f));
      s'.rx == if Clear(s, t) then Receiving(f, end)
               else Collision(if s.rx.Silent? then end else Max(s.rx.at, end))
    case Net(WireJam, _) =>
      s'.rx == Collision(if s.concurrent == 1 then t + Duration(s.cfg, JAM_BITS) else s.rx.at)
    case EndRx => s'.rx.Silent?
    case EndIfg => s'.rx == if s.cfg.duplex || s.rx.Silent? then s.rx else Collision(s.rx.at)
    case _ => s'.rx == s.rx
  }

  lemma {:induction false} FrameMoves(s: Mac, f: Frame, e: Event)
    requires s.auto.None? && Core(s) && e.Net? && e.msg == WireFrame(f)
    ensures ReceiverMoves(s, s.now, e, OnFrame(s, f))
  {
    LongerTakesLonger(s.cfg, JAM_BITS, WireBits(f));
  }

  /** Which state the receiver is in after each event, and until when. */
  lemma {:induction false} ReceiverDiagram(s: Mac, t: real, e: Event)
    requires Core(s) && Next(s, t, e)
    ensures ReceiverMoves(s, t, e, Step(s, t, e))
  {
    var s1 := s.(now := t);
    match e
    case Net(WireFrame(f), _) => FrameMoves(s1, f, e);
    case _ =>
  }

  /**
   Whenever a reception or a collision begins or its end is moved, it ends with the frame that arrives now,
   or with the jam that arrives now.
   */
  lemma {:induction false} ReceptionLasts(s: Mac, t: real, e: Event)
    requires Core(s) && Next(s, t, e)
    ensures var s' := Step(s, t, e);
      !s'.rx.Silent? && (s.rx.Silent? || s'.rx.at != s.rx.at) ==>
        || (Arriving(e) != [] && s'.rx.at == t + BitTimes(s.cfg, WireBits(Arriving(e)[0])))
        || (e.Net? && e.msg.WireJam? && s.concurrent == 1 && s'.rx.at == t + BitTimes(s.cfg, JAM_BITS))
  {
    ReceiverDiagram(s, t, e);
    if s.auto.None? {
      DurationIs(s.cfg, JAM_BITS);
      if Arriving(e) != [] {
        DurationIs(s.cfg, WireBits(Arriving(e)[0]));
      }
    }
  }

  // ---------------------------------------------------------------------------
  // The receiver is busy exactly until the last transmission ends
  // ---------------------------------------------------------------------------

  /** The end is that of the transmission that ends last; if all were aborted, that of the jam. */
  predicate EndsWithLast(s: Mac, ends: seq<real>) {
    && (s.concurrent > 0 ==> !s.rx.Silent? && s.rx.at in ends && forall x :: x in ends ==> x <= s.rx.at)
    && (s.concurrent == 0 && !s.rx.Silent? ==>
          s.auto.None? && s.cfg.Ok() && s.rx.at <= s.now + Duration(s.cfg, JAM_BITS))
  }

  lemma {:induction false} ArrivalEndsWithLast(s: Mac, h: History, f: Frame, e: Event, s': Mac)
    requires s.auto.None? && Core(s) && Next(s, s.now, e) && e.Net? && e.msg == WireFrame(f) && s' == OnFrame(s, f)
    requires WaitsForAll(s.rx, s.concurrent, h.ends) && EndsWithLast(s, h.ends)
    ensures EndsWithLast(s', Log(h, s, s.now, e, s').ends)
  {
    FrameMoves(s, f, e);
    LongerTakesLonger(s.cfg, JAM_BITS, WireBits(f));
    assert s.concurrent == 0 ==> h.ends == [];
    var end := s.now + Duration(s.cfg, WireBits(f));
    assert end in h.ends + [end];
    assert Log(h, s, s.now, e, s').ends == if s'.concurrent == 0 then [] else h.ends + [end];
  }

  lemma {:induction false} OtherEndsWithLast(s: Mac, h: History, t: real, e: Event, s': Mac)
    requires Core(s) && Next(s, t, e) && s' == Step(s, t, e) && Arriving(e) == []
    requires EndsWithLast(s, h.ends)
    ensures EndsWithLast(s', Log(h, s, t, e, s').ends)
  {
    ReceiverDiagram(s, t, e);
    match e
    case Net(WireJam, _) =>
    case EndRx =>
    case _ =>
  }

  lemma {:induction false} StepEndsWithLast(s: Mac, h: History, t: real, e: Event)
    requires Core(s) && Next(s, t, e) && WaitsForAll(s.rx, s.concurrent, h.ends) && EndsWithLast(s, h.ends)
    ensures var s' := Step(s, t, e); EndsWithLast(s', Log(h, s, t, e, s').ends)
  {
    if Arriving(e) != [] {
      ArrivalEndsWithLast(s.(now := t), h, e.msg.frame, e, Step(s, t, e));
    } else {
      OtherEndsWithLast(s, h, t, e, Step(s, t, e));
    }
  }

  /**
   In every run: while a transmission is counted, the receiver is busy until the latest end of those that
   began since the counter was last 0, neither longer nor shorter.
   */
  lemma {:induction false} BusyUntilLastEnd(ss: seq<Mac>, es: seq<Stamped>)
    requires IsRun(ss, es)
    ensures EndsWithLast(ss[|es|], HistoryOf(ss, es).ends)
  {
    if es != [] {
      var n := |es| - 1;
      BusyUntilLastEnd(ss[..n + 1], es[..n]);
      ReachableInv(ss[..n + 1], es[..n]);
      StepEndsWithLast(ss[n], HistoryOf(ss[..n + 1], es[..n]), es[n].t, es[n].e);
    }
  }

  // ---------------------------------------------------------------------------
  // Which frames are received
  // ---------------------------------------------------------------------------

  /** An event that ends or spoils a reception in progress. */
  predicate Touches(s: Mac, e: Event) {
    e.EndRx? || Arriving(e) != [] || (e.Net? && e.msg.WireJam?) || (e.EndIfg? && !s.cfg.duplex)
  }

  /** Event `i` began frame `f`, which is to end at `end`, on a clear line, and nothing has touched it since. */
  ghost predicate Undisturbed(ss: seq<Mac>, es: seq<Stamped>, i: nat, f: Frame, end: real)
    requires |ss| == |es| + 1
  {
    && i < |es| && Arriving(es[i].e) == [f] && Clear(ss[i], es[i].t)
    && end == es[i].t + BitTimes(ss[i].cfg, WireBits(f))
    && forall j :: i < j < |es| ==> !Touches(ss[j], es[j].e)
  }

  ghost predicate Unspoilt(ss: seq<Mac>, es: seq<Stamped>, f: Frame, end: real)
    requires |ss| == |es| + 1
  {
    exists i: nat :: Undisturbed(ss, es, i, f, end)
  }

  lemma {:induction false} StepReceiving(s: Mac, t: real, e: Event, f: Frame, end: real)
    requires Core(s) && Next(s, t, e)
    ensures Step(s, t, e).rx == Receiving(f, end) <==>
      || (Arriving(e) == [f] && Clear(s, t) && end == t + BitTimes(s.cfg, WireBits(f)))
      || (!Touches(s, e) && s.rx == Receiving(f, end))
  {
    ReceiverDiagram(s, t, e);
    if Arriving(e) != [] {
      DurationIs(s.cfg, WireBits(Arriving(e)[0]));
      assert Arriving(e) == [f] ==> Arriving(e)[0] == f;
    }
  }

  lemma {:induction false} UndisturbedMore(ss: seq<Mac>, es: seq<Stamped>, n: nat, i: nat, f: Frame, end: real)
    requires |ss| == |es| + 1 && |es| == n + 1 && i <= n
    ensures Undisturbed(ss, es, i, f, end) <==>
      if i < n then Undisturbed(ss[..n + 1], es[..n], i, f, end) && !Touches(ss[n], es[n].e)
      else Arriving(es[n].e) == [f] && Clear(ss[n], es[n].t) && end == es[n].t + BitTimes(ss[n].cfg, WireBits(f))
  {
    var (a, b) := (ss[..n + 1], es[..n]);
    assert forall j :: 0 <= j < n ==> a[j] == ss[j] && b[j] == es[j];
  }

  /** In every run: a frame is being received exactly if it began on a clear line and nothing touched it since. */
  lemma {:induction false} ReceivingExactlyWhen(ss: seq<Mac>, es: seq<Stamped>, f: Frame, end: real)
    requires IsRun(ss, es)
    ensures ss[|es|].rx == Receiving(f, end) <==> Unspoilt(ss, es, f, end)
  {
    if es != [] {
      var n := |es| - 1;
      ReceivingExactlyWhen(ss[..n + 1], es[..n], f, end);
      ReachableCore(ss[..n + 1], es[..n]);
      StepReceiving(ss[n], es[n].t, es[n].e, f, end);
      WitnessMoves(ss, es, n, f, end);
    }
  }

  lemma {:induction false} WitnessMoves(ss: seq<Mac>, es: seq<Stamped>, n: nat, f: Frame, end: real)
    requires |ss| == |es| + 1 && |es| == n + 1
    ensures Unspoilt(ss, es, f, end) <==>
      || (Arriving(es[n].e) == [f] && Clear(ss[n], es[n].t) && end == es[n].t + BitTimes(ss[n].cfg, WireBits(f)))
      || (!Touches(ss[n], es[n].e) && Unspoilt(ss[..n + 1], es[..n], f, end))
  {
    forall i: nat | i <= n
      ensures Undisturbed(ss, es, i, f, end) <==>
        if i < n then Undisturbed(ss[..n + 1], es[..n], i, f, end) && !Touches(ss[n], es[n].e)
        else Arriving(es[n].e) == [f] && Clear(ss[n], es[n].t) && end == es[n].t + BitTimes(ss[n].cfg, WireBits(f))
    {
      UndisturbedMore(ss, es, n, i, f, end);
    }
    var (before, stamped) := (ss[..n + 1], es[..n]);
    if !Touches(ss[n], es[n].e) && Unspoilt(before, stamped, f, end) {
      var i: nat :| Undisturbed(before, stamped, i, f, end);
      assert Undisturbed(ss, es, i, f, end);
    }
    if Arriving(es[n].e) == [f] && Clear(ss[n], es[n].t) && end == es[n].t + BitTimes(ss[n].cfg, WireBits(f)) {
      assert Undisturbed(ss, es, n, f, end);
    }
  }

  // ---------------------------------------------------------------------------
  // Each total apart
  // ---------------------------------------------------------------------------

  /** The event ends a successful reception, or a transmission on a shared line. */
  predicate Succeeds(s: Mac, e: Event) {
    (e.EndRx? && s.rx.Receiving?) || (e.EndTx? && !s.cfg.duplex)
  }

  predicate EndsCollision(s: Mac, e: Event) { e.EndRx? && s.rx.Collision? }

  /** The channel activity since a success or a collision last ended. */
  function Activity(ss: seq<Mac>, es: seq<Stamped>): real
    requires |ss| == |es| + 1
    decreases |es|, 0
  {
    if es == [] then 0.0
    else
      var n := |es| - 1;
      if Succeeds(ss[n], es[n].e) || EndsCollision(ss[n], es[n].e) then 0.0 else UpTo(ss, es, n)
  }

  /** The same up to the last event. */
  function UpTo(ss: seq<Mac>, es: seq<Stamped>, n: nat): real
    requires |ss| == |es| + 1 && |es| == n + 1
    decreases n, 1
  {
    Activity(ss[..n + 1], es[..n]) + if Busy(ss[n]) then es[n].t - ss[n].now else 0.0
  }

  /** All the activity that ended in successes, and all that ended in collisions. */
  function Total(ss: seq<Mac>, es: seq<Stamped>, ends: (Mac, Event) -> bool): real
    requires |ss| == |es| + 1
    decreases |es|
  {
    if es == [] then 0.0
    else
      var n := |es| - 1;
      Total(ss[..n + 1], es[..n], ends) + if ends(ss[n], es[n].e) then UpTo(ss, es, n) else 0.0
  }

  predicate Since(s: Mac, activity: real) {
    activity == if Busy(s) then s.now - s.busySince else 0.0
  }

  lemma FrameTotals(s: Mac, f: Frame, a: real)
    requires s.auto.None? && Core(s) && Since(s, a)
    ensures var s' := OnFrame(s, f); Since(s', a) && s'.okTime == s.okTime && s'.collisionTime == s.collisionTime
  {
  }

  lemma EndRxTotals(s: Mac, a: real)
    requires s.auto.None? && Core(s) && !s.rx.Silent? && Since(s, a)
    ensures var s' := OnEndRx(s);
      && Since(s', 0.0)
      && s'.okTime == s.okTime + (if s.rx.Receiving? then a else 0.0)
      && s'.collisionTime == s.collisionTime + if s.rx.Collision? then a else 0.0
  {
  }

  lemma EndTxTotals(s: Mac, a: real)
    requires s.auto.None? && Core(s) && s.tx.Transmitting? && Since(s, a)
    ensures var s' := OnEndTx(s);
      && Since(s', if s.cfg.duplex then a else 0.0)
      && s'.okTime == s.okTime + (if s.cfg.duplex then 0.0 else a) && s'.collisionTime == s.collisionTime
  {
  }

  /** One step, with the activity `a` up to its time. */
  lemma {:induction false} StepTotals(s: Mac, t: real, e: Event, a: real)
    requires Core(s) && Next(s, t, e) && Since(s.(now := t), a)
    ensures var s' := Step(s, t, e);
      && Since(s', if Succeeds(s, e) || EndsCollision(s, e) then 0.0 else a)
      && s'.okTime == s.okTime + (if Succeeds(s, e) then a else 0.0)
      && s'.collisionTime == s.collisionTime + if EndsCollision(s, e) then a else 0.0
  {
    var s1 := s.(now := t);
    match e
    case Net(WireFrame(f), _) => FrameTotals(s1, f, a);
    case EndRx => EndRxTotals(s1, a);
    case EndTx => EndTxTotals(s1, a);
    case _ =>
  }

  /**
   In every run: one total is the channel activity that ended in a reception or a transmission, the other
   that which ended with a collision.
   */
  lemma {:induction false} TotalsApart(ss: seq<Mac>, es: seq<Stamped>)
    requires IsRun(ss, es)
    ensures var s := ss[|es|];
      s.okTime == Total(ss, es, Succeeds) && s.collisionTime == Total(ss, es, EndsCollision) && Since(s, Activity(ss, es))
  {
    if es != [] {
      var n := |es| - 1;
      TotalsApart(ss[..n + 1], es[..n]);
      ReachableCore(ss[..n + 1], es[..n]);
      StepTotals(ss[n], es[n].t, es[n].e, UpTo(ss, es, n));
    }
  }
}
