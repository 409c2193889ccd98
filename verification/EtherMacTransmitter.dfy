/**
 What the transmitter does and when: its state diagram, carrier sense, and the limits of frames and queue.
 */
module EtherMacTransmitter {
  import opened EtherMacSpec
  import opened EtherMacRuns
  import opened Options

  // ---------------------------------------------------------------------------
  // The transmitter's state diagram
  // ---------------------------------------------------------------------------

  predicate Free(s: Mac) { s.cfg.duplex || s.rx.Silent? }

  predicate PausedFor(s: Mac, t: real, units: int, s': Mac) {
    units > 0 && s'.tx == Paused(t + BitTimes(s.cfg, units * PAUSE_BITTIME))
  }

  predicate TransmitterMoves(s: Mac, t: real, e: Event, s': Mac) {
    var done := CompletedPause(s, t, e);
    match s.tx
    case Idle =>
      if done.Some? && done.value > 0 then PausedFor(s, t, done.value, s')
      else if s'.auto.None? && s'.queue != [] && Free(s') && (e.Upper? || e.EndRx? || e.EndAutoconfig?) then s'.tx.WaitIfg?
      else s'.tx.Idle?
    case WaitIfg(_) =>
      if !e.EndIfg? then s'.tx == s.tx
      else if Free(s) then s'.tx.Transmitting? else s'.tx.Jamming?
    case Transmitting(_) =>
      if e.EndTx? then
        if s.pauseReq > 0 then PausedFor(s, t, s.pauseReq, s')
        else if |s.queue| == 1 then s'.tx.Idle?
        else if s.cfg.frameBursting then s'.tx.Transmitting? else s'.tx.WaitIfg?
      else if Arriving(e) != [] && !s.cfg.duplex then s'.tx.Jamming?
      else s'.tx == s.tx
    case Jamming(_) =>
      if !e.EndJam? then s'.tx == s.tx
      else if s.backoffs == 16 then s'.tx.Idle? else s'.tx.Backoff?
    case Backoff(_) =>
      if !e.EndBackoff? then s'.tx == s.tx
      else if s.rx.Silent? then s'.tx.WaitIfg? else s'.tx.Idle?
    case Paused(_) =>
      if e.EndPause? then if s.queue == [] then s'.tx.Idle? else s'.tx.WaitIfg?
      else if done.None? then s'.tx == s.tx
      else if done.value > 0 then PausedFor(s, t, done.value, s') else s'.tx.PausedForever?
    case PausedForever =>
      if done.Some? && done.value > 0 then PausedFor(s, t, done.value, s') else s'.tx.PausedForever?
  }

  lemma {:induction false} PausesFor(s: Mac, units: int)
    requires s.cfg.Ok() && units > 0
    ensures PausedFor(s, s.now, units, PauseFor(s, units))
  {
    DurationIs(s.cfg, units * PAUSE_BITTIME);
  }

  lemma {:induction false} FrameMovesTx(s: Mac, f: Frame, e: Event)
    requires s.auto.None? && Core(s) && e.Net? && e.msg == WireFrame(f)
    ensures TransmitterMoves(s, s.now, e, OnFrame(s, f))
  {
    var done := CompletedPause(s, s.now, e);
    if done.Some? && done.value > 0 {
      PausesFor(s, done.value);
    }
  }

  lemma {:induction false} EndRxMovesTx(s: Mac)
    requires s.auto.None? && Core(s) && !s.rx.Silent?
    ensures TransmitterMoves(s, s.now, EndRx, OnEndRx(s))
  {
    var done := CompletedPause(s, s.now, EndRx);
    if done.Some? && done.value > 0 {
      PausesFor(s, done.value);
    }
  }

  lemma {:induction false} EndTxMovesTx(s: Mac)
    requires s.auto.None? && Core(s) && s.tx.Transmitting? && Sizes(s.queue, s.burstBytes)
    ensures TransmitterMoves(s, s.now, EndTx, OnEndTx(s))
  {
    if s.pauseReq > 0 {
      PausesFor(Sent(s), s.pauseReq);
    }
  }

  lemma {:induction false} MovesNow(s: Mac, e: Event)
    requires Core(s) && Next(s, s.now, e) && Sizes(s.queue, s.burstBytes)
    ensures TransmitterMoves(s, s.now, e, Step(s, s.now, e))
  {
    match e
    case Net(WireFrame(f), _) => FrameMovesTx(s, f, e);
    case EndRx => EndRxMovesTx(s);
    case EndTx => EndTxMovesTx(s);
    case _ =>
  }

  /** The time of the state before does not matter. */
  lemma MovesFrom(s: Mac, t: real, e: Event, s': Mac)
    requires TransmitterMoves(s.(now := t), t, e, s')
    ensures TransmitterMoves(s, t, e, s')
  {
  }

  lemma {:induction false} StepMovesTx(s: Mac, t: real, e: Event)
    requires Core(s) && Next(s, t, e) && Sizes(s.queue, s.burstBytes)
    ensures TransmitterMoves(s, t, e, Step(s, t, e))
  {
    StepFromNow(s, t, e);
    MovesNow(s.(now := t), e);
    MovesFrom(s, t, e, Step(s, t, e));
  }

  /**
   Which state the transmitter is in after each event, in every state that is reached; with `StateLasts`,
   also for how long. A PAUSE received during a pause replaces it from now.
   */
  lemma {:induction false} TransmitterDiagram(ss: seq<Mac>, es: seq<Stamped>, t: real, e: Event)
    requires IsRun(ss, es) && Next(ss[|es|], t, e)
    ensures TransmitterMoves(ss[|es|], t, e, Step(ss[|es|], t, e))
  {
    ReachableInv(ss, es);
    StepMovesTx(ss[|es|], t, e);
  }

  // ---------------------------------------------------------------------------
  // Carrier sense
  // ---------------------------------------------------------------------------

  /** A gap begins on a busy shared line exactly if it begins at the end of a pause. */
  lemma GapOnBusyLineExactlyWhen(s: Mac, t: real, e: Event)
    requires Core(s) && Next(s, t, e)
    ensures var s' := Step(s, t, e);
      s'.tx.WaitIfg? && !s.tx.WaitIfg? && !Free(s') <==> e.EndPause? && s.queue != [] && !Free(s)
  {
  }

  /** The event with which the present gap began. */
  ghost predicate GapSince(ss: seq<Mac>, es: seq<Stamped>, i: nat)
    requires |ss| == |es| + 1
  {
    i < |es| && !ss[i].tx.WaitIfg? && forall j :: i < j <= |es| ==> ss[j].tx.WaitIfg? && ss[j].cfg == ss[i + 1].cfg
  }

  lemma StepGap(s: Mac, t: real, e: Event)
    requires Core(s) && Next(s, t, e)
    ensures var s' := Step(s, t, e);
      && (s.tx.WaitIfg? && s'.tx.WaitIfg? ==> s'.tx == s.tx && s'.cfg == s.cfg)
      && (s.rx.Silent? && !s'.rx.Silent? ==> Arriving(e) != [])
  {
  }

  lemma {:induction false} GapBegan(ss: seq<Mac>, es: seq<Stamped>) returns (i: nat)
    requires IsRun(ss, es) && ss[|es|].tx.WaitIfg?
    ensures GapSince(ss, es, i)
  {
    var n := |es| - 1;
    if ss[n].tx.WaitIfg? {
      i := GapBegan(ss[..n + 1], es[..n]);
      ReachableCore(ss[..n + 1], es[..n]);
      StepGap(ss[n], es[n].t, es[n].e);
      assert forall j :: i < j <= n ==> ss[..n + 1][j] == ss[j];
    } else {
      i := n;
    }
  }

  /** A receiver that was silent and no longer is has had an arrival. */
  lemma {:induction false} ArrivalBetween(ss: seq<Mac>, es: seq<Stamped>, i: nat) returns (j: nat)
    requires IsRun(ss, es) && i <= |es| && ss[i].rx.Silent? && !ss[|es|].rx.Silent?
    ensures i <= j < |es| && ss[j].rx.Silent? && Arriving(es[j].e) != []
  {
    var n := |es| - 1;
    if ss[n].rx.Silent? {
      j := n;
      ReachableCore(ss[..n + 1], es[..n]);
      StepGap(ss[n], es[n].t, es[n].e);
    } else {
      j := ArrivalBetween(ss[..n + 1], es[..n], i);
    }
  }

  /**
   In every run: a transmission collides with a reception at its very beginning only if a frame arrived
   during the gap before it, when the hardware does not listen, or if that gap followed a pause.
   */
  lemma {:induction false} CollidesAtOnceOnlyIf(ss: seq<Mac>, es: seq<Stamped>, t: real) returns (i: nat, j: nat)
    requires IsRun(ss, es) && Next(ss[|es|], t, EndIfg) && Step(ss[|es|], t, EndIfg).tx.Jamming?
    ensures GapSince(ss, es, i)
    ensures
      || (es[i].e.EndPause? && !ss[i].rx.Silent?)
      || (i < j < |es| && ss[j].rx.Silent? && Arriving(es[j].e) != [])
  {
    i := GapBegan(ss, es);
    j := 0;
    JamsAtOnce(ss[|es|], t);
    ReachableCore(ss[..i + 1], es[..i]);
    GapOnBusyLineExactlyWhen(ss[i], es[i].t, es[i].e);
    if ss[i + 1].rx.Silent? {
      j := ArrivalBetween(ss, es, i + 1);
    }
  }

  /** It does so exactly on a busy shared line. */
  lemma JamsAtOnce(s: Mac, t: real)
    requires Next(s, t, EndIfg)
    ensures Step(s, t, EndIfg).tx.Jamming? <==> !Free(s)
  {
  }

  const SHARED := EXAMPLE.(cfg := Params(false, 1.0, 1.0, false, false))
  const OTHER := Net(WireFrame(Frame(3, Data, 64)), 0.0)

  const PAUSED := SHARED.(now := 576.0, tx := Paused(1088.0), okTime := 576.0, received := [PAUSE_ONE.msg.frame])

  lemma {:induction false} PausedOnShared() returns (s1: Mac)
    ensures Next(SHARED, 0.0, PAUSE_ONE) && s1 == Step(SHARED, 0.0, PAUSE_ONE)
    ensures Next(s1, 576.0, EndRx) && PAUSED == Step(s1, 576.0, EndRx)
  {
    TimesIsProduct(576, 1.0);
    TimesIsProduct(512, 1.0);
    s1 := Step(SHARED, 0.0, PAUSE_ONE);
    assert s1.rx == Receiving(PAUSE_ONE.msg.frame, 576.0);
  }

  /** A frame is queued, and another is being received. */
  predicate QueuedWhileReceiving(s: Mac) {
    && s.cfg == SHARED.cfg && s.auto.None? && s.now == 1000.0 && s.tx == Paused(1088.0)
    && s.rx == Receiving(OTHER.msg.frame, 1576.0) && s.queue == [DATA_FRAME]
  }

  lemma {:induction false} QueuesWhileReceiving() returns (s1: Mac, s2: Mac)
    ensures Next(PAUSED, 576.0, Upper(DATA_FRAME, false)) && s1 == Step(PAUSED, 576.0, Upper(DATA_FRAME, false))
    ensures Next(s1, 1000.0, OTHER) && s2 == Step(s1, 1000.0, OTHER) && QueuedWhileReceiving(s2)
  {
    TimesIsProduct(576, 1.0);
    s1 := Step(PAUSED, 576.0, Upper(DATA_FRAME, false));
    s2 := Step(s1, 1000.0, OTHER);
  }

  lemma {:induction false} ResumesOnBusyLine(s: Mac) returns (s1: Mac, s2: Mac)
    requires QueuedWhileReceiving(s)
    ensures Next(s, 1088.0, EndPause) && s1 == Step(s, 1088.0, EndPause) && s1.rx == s.rx
    ensures Next(s1, 1184.0, EndIfg) && s2 == Step(s1, 1184.0, EndIfg) && s2.tx.Jamming?
  {
    TimesIsProduct(96, 1.0);
    s1 := Step(s, 1088.0, EndPause);
    s2 := Step(s1, 1184.0, EndIfg);
  }

  lemma {:induction false} ReceivingWhenPauseEnds() returns (ss: seq<Mac>, es: seq<Stamped>)
    ensures IsRun(ss, es) && |es| == 4 && QueuedWhileReceiving(ss[4])
  {
    var s1 := PausedOnShared();
    var s3, s4 := QueuesWhileReceiving();
    ss, es := [SHARED], [];
    ss, es := Extend(ss, es, 0.0, PAUSE_ONE);
    ss, es := Extend(ss, es, 576.0, EndRx);
    ss, es := Extend(ss, es, 576.0, Upper(DATA_FRAME, false));
    ss, es := Extend(ss, es, 1000.0, OTHER);
  }

  /** The second way happens: at the end of a pause the carrier is not looked at, and a frame is sent into another. */
  lemma {:induction false} PauseIgnoresCarrier() returns (ss: seq<Mac>, es: seq<Stamped>)
    ensures IsRun(ss, es) && |es| == 6 && es[4].e.EndPause? && es[5].e.EndIfg?
    ensures ss[4].rx == ss[5].rx == Receiving(OTHER.msg.frame, 1576.0) && ss[6].tx.Jamming?
  {
    ss, es := ReceivingWhenPauseEnds();
    var s5, s6 := ResumesOnBusyLine(ss[4]);
    ss, es := Extend(ss, es, 1088.0, EndPause);
    ss, es := Extend(ss, es, 1184.0, EndIfg);
  }

  // ---------------------------------------------------------------------------
  // Frame sizes and queue limit
  // ---------------------------------------------------------------------------

  /** A frame begun at the end of a gap is the head; with carrier extension it is filled up to 512 bytes. */
  lemma {:induction false} BeginsExtended(s: Mac, t: real)
    requires Core(s) && Next(s, t, EndIfg)
    ensures var (begun, head) := (Begun(s, Step(s, t, EndIfg)), s.queue[0]);
      && begun.Some? && begun.value.id == head.id && begun.value.kind == head.kind
      && begun.value.bytes == (if s.cfg.carrierExtension && head.bytes < 512 then 512 else head.bytes)
      && (s.cfg.carrierExtension ==> begun.value.bytes >= 512)
  {
    StepTransmits(s, t, EndIfg);
  }

  /** What a run tells about its environment: frames fit, and on a shared line no cable is too long. */
  lemma {:induction false} EnvironmentKept(ss: seq<Mac>, es: seq<Stamped>, i: nat)
    requires IsRun(ss, es) && i < |es|
    ensures es[i].e.Upper? ==> !es[i].e.toSelf && es[i].e.frame.bytes <= 1518
    ensures es[i].e.Net? && ss[i].auto.None? && !ss[i].cfg.duplex ==>
      es[i].e.propagation < if ss[i].cfg.carrierExtension then 512.0 else 64.0
  {
    assert Next(ss[i], es[i].t, es[i].e);
  }

  /** And no more than that: on a point-to-point line cables may be of any length, on a shared one up to the limit. */
  lemma {:induction false} CableLengths(extension: bool, propagation: real)
    ensures var e := Net(WireFrame(DATA_FRAME), propagation);
      && Next(EXAMPLE.(cfg := Params(true, 1.0, 1.0, false, extension)), 0.0, e)
      && (Next(EXAMPLE.(cfg := Params(false, 1.0, 1.0, false, extension)), 0.0, e) <==>
            propagation < if extension then 512.0 else 64.0)
  {
  }

  predicate WithinLimit(s: Mac) { s.limit > 0 ==> |DataIds(s.queue)| <= s.limit + 1 }

  lemma {:induction false} DataIdsFewer(fs: seq<Frame>)
    ensures |DataIds(fs)| <= |fs|
  {
    if fs != [] {
      DataIdsFewer(fs[1..]);
    }
  }

  lemma {:induction false} StepWithinLimit(s: Mac, t: real, e: Event)
    requires Core(s) && Next(s, t, e) && WithinLimit(s)
    ensures WithinLimit(Step(s, t, e)) && Step(s, t, e).limit == s.limit
  {
    StepQueue(s, t, e);
    StepLimit(s, t, e);
    var q := Step(s, t, e).queue;
    if e.Upper? {
      DataIdsFewer(s.queue);
      DataIdsConcat(s.queue, [e.frame]);
      DataIdsConcat([e.frame], s.queue);
      assert DataIds([e.frame]) == if e.frame.kind.Data? then [e.frame.id] else [];
    } else if q != s.queue && !TakesOff(s, e) {
      assert q[1..] == s.queue[1..];
    }
  }

  lemma StepLimit(s: Mac, t: real, e: Event)
    requires Core(s) && Next(s, t, e)
    ensures Step(s, t, e).limit == s.limit
  {
  }

  /** In every run at most one data frame more than the limit is queued. */
  lemma {:induction false} QueueLimited(ss: seq<Mac>, es: seq<Stamped>)
    requires IsRun(ss, es)
    ensures WithinLimit(ss[|es|])
  {
    if es != [] {
      var n := |es| - 1;
      QueueLimited(ss[..n + 1], es[..n]);
      ReachableCore(ss[..n + 1], es[..n]);
      StepWithinLimit(ss[n], es[n].t, es[n].e);
    }
  }

  lemma {:induction false} OneMoreFits(limit: nat, n: nat, s: Mac)
    requires limit >= n && s.limit == limit && |s.queue| == |DataIds(s.queue)| == n && s.now == 0.0
    requires s.cfg == EXAMPLE.cfg && s.auto.None? && s.rx.Silent? && (if n == 0 then s.tx.Idle? else s.tx == WaitIfg(96.0))
    ensures Next(s, 0.0, Upper(DATA_FRAME, false))
    ensures var s' := Step(s, 0.0, Upper(DATA_FRAME, false));
      && s'.limit == limit && |s'.queue| == |DataIds(s'.queue)| == n + 1 && s'.now == 0.0
      && s'.cfg == EXAMPLE.cfg && s'.auto.None? && s'.rx.Silent? && s'.tx == WaitIfg(96.0)
  {
    TimesIsProduct(96, 1.0);
    DataIdsConcat(s.queue, [DATA_FRAME]);
    assert DataIds([DATA_FRAME]) == [1];
  }

  lemma {:induction false} FillsQueue(limit: nat, n: nat) returns (ss: seq<Mac>, es: seq<Stamped>)
    requires n <= limit + 1
    ensures IsRun(ss, es) && var s := ss[|es|];
      && s.limit == limit && |s.queue| == |DataIds(s.queue)| == n && s.now == 0.0
      && s.cfg == EXAMPLE.cfg && s.auto.None? && s.rx.Silent? && (if n == 0 then s.tx.Idle? else s.tx == WaitIfg(96.0))
  {
    if n == 0 {
      ss, es := [EXAMPLE.(limit := limit)], [];
    } else {
      ss, es := FillsQueue(limit, n - 1);
      OneMoreFits(limit, n - 1, ss[|es|]);
      ss, es := Extend(ss, es, 0.0, Upper(DATA_FRAME, false));
    }
  }

  /** And that many are accepted: then, and not before, the next is refused. */
  lemma {:induction false} LimitIsReached(limit: nat) returns (ss: seq<Mac>, es: seq<Stamped>)
    requires limit > 0
    ensures IsRun(ss, es) && |DataIds(ss[|es|].queue)| == limit + 1 && Fault(ss[|es|], Upper(DATA_FRAME, false))
  {
    ss, es := FillsQueue(limit, limit + 1);
  }
}
