/**
 What holds in every reachable state of the MAC, and over whole runs.
 */
module EtherMacRuns {
  import opened EtherMacSpec
  import opened Options

  // ---------------------------------------------------------------------------
  // What has happened so far
  // ---------------------------------------------------------------------------

  datatype History = History(
    accepted: seq<Frame>,      // from the upper layer
    finished: seq<Frame>,      // taken off the queue: sent, or given up after too many collisions
    attempts: nat,             // transmissions begun since a frame was last taken off
    onWire: Option<Frame>,     // the frame transmitted last
    overtaken: nat,            // frames put before the head since that transmission began
    arrived: seq<Frame>,       // from the network
    lost: seq<Frame>,          // destroyed by a collision
    ends: seq<real>)           // ends of the receptions begun since the counter was last 0

  const NO_HISTORY := History([], [], 0, None, 0, [], [], [])

  /** An event that the kernel may deliver and that the environment may cause. */
  predicate Next(s: Mac, t: real, e: Event) {
    Ready(s) && Enabled(s, t, e) && !Fault(s, e)
  }

  function Current(r: Rx): seq<Frame> {
    if r.Receiving? then [r.frame] else []
  }

  function Arriving(e: Event): seq<Frame> {
    if e.Net? && e.msg.WireFrame? then [e.msg.frame] else []
  }

  /** The frame, if any, whose transmission began between two states. */
  function Begun(s: Mac, s': Mac): Option<Frame> {
    if |s.wire| < |s'.wire| && s'.wire[|s.wire|].WireFrame? then Some(s'.wire[|s.wire|].frame) else None
  }

  predicate TakesOff(s: Mac, e: Event) {
    e.EndTx? || (e.EndJam? && s.backoffs == MAX_ATTEMPTS)
  }

  /** The history after the step from `s` to `s'`, read off the event and the two states. */
  function Log(h: History, s: Mac, t: real, e: Event, s': Mac): History
    requires s.auto.None? ==> s.cfg.Ok()
    requires TakesOff(s, e) ==> s.queue != []
    requires Arriving(e) != [] ==> s.auto.None?
  {
    var begun := Begun(s, s');
    History(
      if e.Upper? then h.accepted + [e.frame] else h.accepted,
      if TakesOff(s, e) then h.finished + [s.queue[0]] else h.finished,
      (if TakesOff(s, e) then 0 else h.attempts) + (if begun.Some? then 1 else 0),
      if begun.Some? then begun else h.onWire,
      if begun.Some? then 0 else if e.Upper? && e.frame.kind.Pause? then h.overtaken + 1 else h.overtaken,
      h.arrived + Arriving(e),
      if s'.rx.Collision? then h.lost + Arriving(e) + Current(s.rx) else h.lost,
      if s'.concurrent == 0 then []
      else if Arriving(e) != [] then h.ends + [t + Duration(s.cfg, WireBits(Arriving(e)[0]))] else h.ends)
  }

  // ---------------------------------------------------------------------------
  // The invariant
  // ---------------------------------------------------------------------------

  /** Modes and timers: which states may occur together. */
  predicate Modes(s: Mac) {
    && Ready(s)
    && (!s.cfg.duplex && s.tx.Transmitting? ==> s.rx.Silent?)
    && (s.cfg.duplex ==> !s.tx.Jamming? && !s.tx.Backoff?)
    && TimersFrom(s, s.now)
  }

  /** The collision counter. */
  predicate Counter(s: Mac) {
    && (s.rx.Silent? ==> s.concurrent == 0)
    && (s.rx.Receiving? ==> s.concurrent == 1)
  }

  predicate Core(s: Mac) {
    Modes(s) && Counter(s) && s.backoffs <= MAX_ATTEMPTS
  }

  /** While the counter is positive, the MAC waits at least until every counted reception ends. */
  predicate WaitsForAll(rx: Rx, concurrent: nat, ends: seq<real>) {
    && (concurrent == 0 ==> ends == [])
    && (!rx.Silent? ==> forall i :: 0 <= i < |ends| ==> ends[i] <= rx.at)
  }

  /** The collisions counted, and the transmission in progress. */
  function Tries(s: Mac): nat {
    s.backoffs + if s.tx.Transmitting? || s.tx.Jamming? then 1 else 0
  }

  function DataIds(fs: seq<Frame>): seq<nat> {
    if fs == [] then []
    else (if fs[0].kind.Data? then [fs[0].id] else []) + DataIds(fs[1..])
  }

  /** Data frames leave the queue in the order in which they came, none lost or doubled. */
  predicate InOrder(accepted: seq<Frame>, finished: seq<Frame>, queue: seq<Frame>) {
    DataIds(accepted) == DataIds(finished) + DataIds(queue)
  }

  /** Every frame that arrived was received once, or collided, or is being received. */
  predicate Accounted(arrived: seq<Frame>, received: seq<Frame>, lost: seq<Frame>, current: seq<Frame>) {
    multiset(arrived) == multiset(received) + multiset(lost) + multiset(current)
  }

  /** Where in the queue the frame on the wire is. */
  predicate OnTheWire(tx: Tx, queue: seq<Frame>, onWire: Option<Frame>, overtaken: nat) {
    tx.Transmitting? ==>
      && overtaken < |queue|
      && onWire == Some(queue[overtaken])
      && forall i :: 0 <= i < overtaken ==> queue[i].kind.Pause?
  }

  /** Frames are small, and the burst counter holds no more than one. */
  predicate Sizes(queue: seq<Frame>, burstBytes: nat) {
    && (forall i :: 0 <= i < |queue| ==> queue[i].bytes <= MAX_ETHERNET_FRAME)
    && burstBytes <= MAX_ETHERNET_FRAME + OVERHEAD_BYTES
  }

  predicate Inv(s: Mac, h: History) {
    && Core(s)
    && WaitsForAll(s.rx, s.concurrent, h.ends)
    && h.attempts == Tries(s)
    && InOrder(h.accepted, h.finished, s.queue)
    && Accounted(h.arrived, s.received, h.lost, Current(s.rx))
    && OnTheWire(s.tx, s.queue, h.onWire, h.overtaken)
    && Sizes(s.queue, s.burstBytes)
  }

  predicate Initial(s: Mac) {
    && s.now == 0.0 && (if s.auto.Some? then s.auto.value >= 0.0 else s.cfg.Ok())
    && s.tx.Idle? && s.rx.Silent? && s.queue == []
    && s.backoffs == 0 && s.concurrent == 0 && s.pauseReq == 0 && s.burstBytes == 0
    && s.okTime == 0.0 && s.collisionTime == 0.0
    && s.wire == [] && s.received == []
  }

  // ---------------------------------------------------------------------------
  // Every step keeps it, part by part
  // ---------------------------------------------------------------------------

  lemma FrameCore(s: Mac, f: Frame)
    requires s.auto.None? && Core(s)
    ensures Core(OnFrame(s, f))
  {
  }

  lemma EndRxCore(s: Mac)
    requires s.auto.None? && Core(s) && !s.rx.Silent?
    ensures Core(OnEndRx(s))
  {
  }

  lemma EndTxCore(s: Mac)
    requires s.auto.None? && Core(s) && s.tx.Transmitting?
    ensures Core(OnEndTx(s))
  {
  }

  lemma {:induction false} StepCore(s: Mac, t: real, e: Event)
    requires Core(s) && Next(s, t, e)
    ensures Core(Step(s, t, e))
  {
    var s1 := s.(now := t);
    match e
    case Net(WireFrame(f), _) => FrameCore(s1, f);
    case EndRx => EndRxCore(s1);
    case EndTx => EndTxCore(s1);
    case _ =>
  }

  /** The receiver's timer only ever moves back when the last counted transmission has ended. */
  lemma StepReceiver(s: Mac, t: real, e: Event)
    requires Core(s) && Next(s, t, e)
    ensures var s' := Step(s, t, e);
      && (Arriving(e) != [] ==> !s'.rx.Silent? && t + Duration(s.cfg, WireBits(Arriving(e)[0])) <= s'.rx.at)
      && (s'.concurrent > 0 && !s.rx.Silent? ==> !s'.rx.Silent? && s.rx.at <= s'.rx.at)
  {
  }

  /** Every transmission that is counted has begun, and has neither been completed nor ended by a jam. */
  lemma StepCounter(s: Mac, t: real, e: Event)
    requires Core(s) && Next(s, t, e)
    ensures var s' := Step(s, t, e);
      !s'.rx.Silent? ==>
        s'.concurrent == s.concurrent + |Arriving(e)| - (|s'.received| - |s.received|)
                         - if e.Net? && e.msg.WireJam? then 1 else 0
  {
  }

  lemma {:induction false} StepWaitsForAll(s: Mac, h: History, t: real, e: Event)
    requires Core(s) && Next(s, t, e) && WaitsForAll(s.rx, s.concurrent, h.ends)
    ensures var s' := Step(s, t, e); WaitsForAll(s'.rx, s'.concurrent, Log(h, s, t, e, s').ends)
  {
    StepReceiver(s, t, e);
  }

  /** The only ways in which a step transmits a frame. */
  lemma StepTransmits(s: Mac, t: real, e: Event)
    requires Core(s) && Next(s, t, e)
    ensures var s' := Step(s, t, e); var begun := Begun(s, s');
      && (begun.Some? ==> (s'.tx.Transmitting? || s'.tx.Jamming?) && s'.queue != [] && begun.value == s'.queue[0]
                          && (s.tx.WaitIfg? || e.EndTx?))
      && (begun.None? ==> (s'.tx.Transmitting? || s'.tx.Jamming? ==> s.tx.Transmitting? || s.tx.Jamming?))
      && (begun.None? && s'.tx.Transmitting? ==> s.tx.Transmitting? && !TakesOff(s, e))
  {
  }

  /** Frames go out as transmissions begin, and a jam exactly when jamming begins, after the frame if both do. */
  lemma StepWire(s: Mac, t: real, e: Event)
    requires Core(s) && Next(s, t, e)
    ensures var s' := Step(s, t, e); var begun := Begun(s, s');
      s'.wire == s.wire + (if begun.Some? then [WireFrame(begun.value)] else [])
                        + (if s'.tx.Jamming? && !s.tx.Jamming? then [WireJam] else [])
  {
  }

  lemma FrameTries(s: Mac, f: Frame)
    requires s.auto.None? && Core(s)
    ensures var s' := OnFrame(s, f); Tries(s') == Tries(s) && Begun(s, s').None?
  {
  }

  lemma EndTxTries(s: Mac)
    requires s.auto.None? && Core(s) && s.tx.Transmitting?
    ensures var s' := OnEndTx(s); Tries(s') == if Begun(s, s').Some? then 1 else 0
  {
  }

  lemma EndRxTries(s: Mac)
    requires s.auto.None? && Core(s) && !s.rx.Silent?
    ensures var s' := OnEndRx(s); Tries(s') == Tries(s) && Begun(s, s').None?
  {
  }

  lemma {:induction false} StepTries(s: Mac, t: real, e: Event)
    requires Core(s) && Next(s, t, e)
    ensures var s' := Step(s, t, e);
      Tries(s') == (if TakesOff(s, e) then 0 else Tries(s)) + if Begun(s, s').Some? then 1 else 0
  {
    var s1 := s.(now := t);
    match e
    case Net(WireFrame(f), _) => FrameTries(s1, f);
    case EndRx => EndRxTries(s1);
    case EndTx => EndTxTries(s1);
    case _ =>
  }

  /** `backoffs` counts the collisions since a frame was last taken off the queue. */
  lemma {:induction false} StepAttempts(s: Mac, h: History, t: real, e: Event)
    requires Core(s) && Next(s, t, e) && h.attempts == Tries(s)
    ensures var s' := Step(s, t, e); Log(h, s, t, e, s').attempts == Tries(s')
  {
    StepTries(s, t, e);
  }

  /** The only ways in which a step changes the transmit queue. */
  predicate QueueStep(s: Mac, e: Event, s': Mac) {
    if e.Upper? then
      s'.queue == if e.frame.kind.Data? then s.queue + [e.frame] else [e.frame] + s.queue
    else if TakesOff(s, e) then
      s.queue != [] && s'.queue == s.queue[1..]
    else
      || s'.queue == s.queue
      || (e.EndIfg? && s.queue != [] && s'.queue == [Extended(s.cfg, s.queue[0])] + s.queue[1..])
  }

  /** The head leaves the queue only when its transmission ends or its attempts are used up. */
  lemma StepQueue(s: Mac, t: real, e: Event)
    requires Core(s) && Next(s, t, e)
    ensures QueueStep(s, e, Step(s, t, e))
  {
  }

  lemma {:induction false} DataIdsConcat(a: seq<Frame>, b: seq<Frame>)
    ensures DataIds(a + b) == DataIds(a) + DataIds(b)
  {
    if a == [] {
      assert a + b == b;
    } else {
      assert (a + b)[1..] == a[1..] + b;
      DataIdsConcat(a[1..], b);
    }
  }

  lemma {:induction false} UpperInOrder(acc: seq<Frame>, fin: seq<Frame>, q: seq<Frame>, f: Frame)
    requires InOrder(acc, fin, q)
    ensures f.kind.Data? ==> InOrder(acc + [f], fin, q + [f])
    ensures f.kind.Pause? ==> InOrder(acc + [f], fin, [f] + q)
  {
    DataIdsConcat(acc, [f]);
    DataIdsConcat(q, [f]);
    DataIdsConcat([f], q);
    assert DataIds([f]) == if f.kind.Data? then [f.id] else [];
  }

  lemma {:induction false} PopInOrder(acc: seq<Frame>, fin: seq<Frame>, q: seq<Frame>)
    requires InOrder(acc, fin, q) && q != []
    ensures InOrder(acc, fin + [q[0]], q[1..])
  {
    DataIdsConcat(fin, [q[0]]);
    assert q == [q[0]] + q[1..];
    DataIdsConcat([q[0]], q[1..]);
  }

  lemma {:induction false} ExtensionInOrder(p: Params, acc: seq<Frame>, fin: seq<Frame>, q: seq<Frame>)
    requires InOrder(acc, fin, q) && q != []
    ensures InOrder(acc, fin, [Extended(p, q[0])] + q[1..])
  {
    assert ([Extended(p, q[0])] + q[1..])[1..] == q[1..];
  }

  lemma {:induction false} QueueStepInOrder(s: Mac, h: History, t: real, e: Event, s': Mac)
    requires Next(s, t, e) && QueueStep(s, e, s') && InOrder(h.accepted, h.finished, s.queue)
    ensures var h' := Log(h, s, t, e, s'); InOrder(h'.accepted, h'.finished, s'.queue)
  {
    if e.Upper? {
      UpperInOrder(h.accepted, h.finished, s.queue, e.frame);
    } else if s.queue != [] {
      ExtensionInOrder(s.cfg, h.accepted, h.finished, s.queue);
      PopInOrder(h.accepted, h.finished, s.queue);
    }
  }

  /** The only ways in which a step moves received frames. */
  predicate ReceiveStep(s: Mac, e: Event, s': Mac) {
    var (c, c', arriving) := (Current(s.rx), Current(s'.rx), Arriving(e));
    if s'.rx.Collision? then s'.received == s.received
    else
      || (s'.received == s.received && c' == c + arriving)
      || (s'.received == s.received + c && c' == arriving)
  }

  lemma FrameReceive(s: Mac, f: Frame, e: Event)
    requires s.auto.None? && Core(s) && e.Net? && e.msg == WireFrame(f)
    ensures ReceiveStep(s, e, OnFrame(s, f))
  {
  }

  lemma EndRxReceive(s: Mac)
    requires s.auto.None? && Core(s) && !s.rx.Silent?
    ensures ReceiveStep(s, EndRx, OnEndRx(s))
  {
  }

  lemma {:induction false} StepReceive(s: Mac, t: real, e: Event)
    requires Core(s) && Next(s, t, e)
    ensures ReceiveStep(s, e, Step(s, t, e))
  {
    var s1 := s.(now := t);
    match e
    case Net(WireFrame(f), _) => FrameReceive(s1, f, e);
    case EndRx => EndRxReceive(s1);
    case _ =>
  }

  lemma ReceiveStepAccounted(s: Mac, h: History, t: real, e: Event, s': Mac)
    requires Next(s, t, e) && ReceiveStep(s, e, s') && Accounted(h.arrived, s.received, h.lost, Current(s.rx))
    ensures var h' := Log(h, s, t, e, s'); Accounted(h'.arrived, s'.received, h'.lost, Current(s'.rx))
  {
  }

  lemma {:induction false} UpperOnTheWire(tx: Tx, q: seq<Frame>, onWire: Option<Frame>, overtaken: nat, f: Frame)
    requires OnTheWire(tx, q, onWire, overtaken)
    ensures OnTheWire(tx, q + [f], onWire, overtaken)
    ensures f.kind.Pause? ==> OnTheWire(tx, [f] + q, onWire, overtaken + 1)
  {
    assert forall i :: 1 <= i <= |q| ==> ([f] + q)[i] == q[i - 1];
  }

  lemma {:induction false} StepOnTheWire(s: Mac, h: History, t: real, e: Event)
    requires Core(s) && Next(s, t, e) && OnTheWire(s.tx, s.queue, h.onWire, h.overtaken)
    ensures var s' := Step(s, t, e); var h' := Log(h, s, t, e, s');
      OnTheWire(s'.tx, s'.queue, h'.onWire, h'.overtaken)
  {
    StepTransmits(s, t, e);
    StepQueue(s, t, e);
    if e.Upper? {
      UpperOnTheWire(s.tx, s.queue, h.onWire, h.overtaken, e.frame);
    }
  }

  lemma {:induction false} StepSizes(s: Mac, t: real, e: Event)
    requires Next(s, t, e) && Sizes(s.queue, s.burstBytes)
    ensures var s' := Step(s, t, e); Sizes(s'.queue, s'.burstBytes)
  {
    match e
    case Upper(_, _) =>
    case Net(_, _) =>
    case EndIfg =>
    case EndTx =>
    case EndJam(_) =>
    case _ =>
  }

  /** Whatever happens next, and however ties in time are resolved, the invariant is kept. */
  lemma {:induction false} StepInv(s: Mac, h: History, t: real, e: Event)
    requires Inv(s, h) && Next(s, t, e)
    ensures Inv(Step(s, t, e), Log(h, s, t, e, Step(s, t, e)))
  {
    StepCore(s, t, e);
    StepWaitsForAll(s, h, t, e);
    StepAttempts(s, h, t, e);
    StepQueue(s, t, e);
    QueueStepInOrder(s, h, t, e, Step(s, t, e));
    StepReceive(s, t, e);
    ReceiveStepAccounted(s, h, t, e, Step(s, t, e));
    StepOnTheWire(s, h, t, e);
    StepSizes(s, t, e);
  }

  // ---------------------------------------------------------------------------
  // Whole runs
  // ---------------------------------------------------------------------------

  datatype Stamped = Stamped(t: real, e: Event)

  /** `ss` are the states visited from an initial state by the events `es`. */
  ghost predicate IsRun(ss: seq<Mac>, es: seq<Stamped>) {
    && |ss| == |es| + 1
    && Initial(ss[0])
    && forall i :: 0 <= i < |es| ==>
         Next(ss[i], es[i].t, es[i].e) && ss[i + 1] == Step(ss[i], es[i].t, es[i].e)
  }

  lemma {:induction false} Extend(ss: seq<Mac>, es: seq<Stamped>, t: real, e: Event)
    returns (ss': seq<Mac>, es': seq<Stamped>)
    requires IsRun(ss, es) && Next(ss[|es|], t, e)
    ensures IsRun(ss', es') && ss' == ss + [Step(ss[|es|], t, e)] && es' == es + [Stamped(t, e)]
  {
    ss', es' := ss + [Step(ss[|es|], t, e)], es + [Stamped(t, e)];
  }

  ghost function HistoryOf(ss: seq<Mac>, es: seq<Stamped>): History
    requires IsRun(ss, es)
  {
    if es == [] then NO_HISTORY
    else
      var n := |es| - 1;
      Log(HistoryOf(ss[..n + 1], es[..n]), ss[n], es[n].t, es[n].e, ss[n + 1])
  }

  lemma {:induction false} ReachableCore(ss: seq<Mac>, es: seq<Stamped>)
    requires IsRun(ss, es)
    ensures Core(ss[|es|])
  {
    if es != [] {
      var n := |es| - 1;
      ReachableCore(ss[..n + 1], es[..n]);
      StepCore(ss[n], es[n].t, es[n].e);
    }
  }

  lemma {:induction false} ReachableInv(ss: seq<Mac>, es: seq<Stamped>)
    requires IsRun(ss, es)
    ensures Inv(ss[|es|], HistoryOf(ss, es))
  {
    if es != [] {
      var n := |es| - 1;
      ReachableInv(ss[..n + 1], es[..n]);
      StepInv(ss[n], HistoryOf(ss[..n + 1], es[..n]), es[n].t, es[n].e);
    }
  }

  function Ids(fs: seq<Frame>): seq<nat> { seq(|fs|, i requires 0 <= i < |fs| => fs[i].id) }

  predicate AllData(fs: seq<Frame>) { forall i :: 0 <= i < |fs| ==> fs[i].kind.Data? }

  lemma {:induction false} AllDataIds(fs: seq<Frame>)
    requires AllData(fs)
    ensures DataIds(fs) == Ids(fs)
  {
    if fs != [] {
      AllDataIds(fs[1..]);
      assert Ids(fs) == [fs[0].id] + Ids(fs[1..]);
    }
  }

  predicate OnlyData(s: Mac, h: History) {
    AllData(h.accepted) && AllData(h.finished) && AllData(s.queue)
  }

  lemma QueueStepOnlyData(s: Mac, h: History, t: real, e: Event, s': Mac)
    requires Next(s, t, e) && OnlyData(s, h) && QueueStep(s, e, s') && (e.Upper? ==> e.frame.kind.Data?)
    ensures OnlyData(s', Log(h, s, t, e, s'))
  {
  }

  lemma {:induction false} OnlyDataQueued(ss: seq<Mac>, es: seq<Stamped>)
    requires IsRun(ss, es)
    requires forall i :: 0 <= i < |es| && es[i].e.Upper? ==> es[i].e.frame.kind.Data?
    ensures OnlyData(ss[|es|], HistoryOf(ss, es))
  {
    if es != [] {
      var n := |es| - 1;
      ReachableCore(ss[..n + 1], es[..n]);
      OnlyDataQueued(ss[..n + 1], es[..n]);
      StepQueue(ss[n], es[n].t, es[n].e);
      QueueStepOnlyData(ss[n], HistoryOf(ss[..n + 1], es[..n]), es[n].t, es[n].e, ss[n + 1]);
    }
  }

  /**
   When only data frames come from above, the queue is a plain FIFO: what was accepted is
   what has left it, followed by what is still in it.
   */
  lemma {:induction false} DataOnlyFifo(ss: seq<Mac>, es: seq<Stamped>)
    requires IsRun(ss, es)
    requires forall i :: 0 <= i < |es| && es[i].e.Upper? ==> es[i].e.frame.kind.Data?
    ensures var h := HistoryOf(ss, es); Ids(h.accepted) == Ids(h.finished) + Ids(ss[|es|].queue)
  {
    OnlyDataQueued(ss, es);
    ReachableInv(ss, es);
    var h := HistoryOf(ss, es);
    AllDataIds(h.accepted);
    AllDataIds(h.finished);
    AllDataIds(ss[|es|].queue);
  }

  // ---------------------------------------------------------------------------
  // The time totals
  // ---------------------------------------------------------------------------

  predicate Busy(s: Mac) {
    !s.rx.Silent? || (!s.cfg.duplex && s.tx.Transmitting?)
  }

  /** The totals, with the busy period in progress counted up to now. */
  function Counted(s: Mac): real {
    s.okTime + s.collisionTime + if Busy(s) then s.now - s.busySince else 0.0
  }

  function BusyTime(ss: seq<Mac>): real {
    if |ss| <= 1 then 0.0
    else
      var (a, b) := (ss[|ss| - 2], ss[|ss| - 1]);
      BusyTime(ss[..|ss| - 1]) + if Busy(a) then b.now - a.now else 0.0
  }

  lemma {:induction false} BusyTimeMore(ss: seq<Mac>)
    requires |ss| >= 2
    ensures var (a, b) := (ss[|ss| - 2], ss[|ss| - 1]);
      BusyTime(ss) == BusyTime(ss[..|ss| - 1]) + if Busy(a) then b.now - a.now else 0.0
  {
  }

  lemma FrameCounted(s: Mac, f: Frame)
    requires s.auto.None? && Core(s)
    ensures Counted(OnFrame(s, f)) == Counted(s) && OnFrame(s, f).now == s.now
  {
  }

  lemma EndRxCounted(s: Mac)
    requires s.auto.None? && Core(s) && !s.rx.Silent?
    ensures Counted(OnEndRx(s)) == Counted(s) && OnEndRx(s).now == s.now
  {
  }

  lemma {:induction false} StepCounted(s: Mac, t: real, e: Event)
    requires Core(s) && Next(s, t, e)
    ensures var s' := Step(s, t, e);
      s'.now == t && Counted(s') == Counted(s) + if Busy(s) then t - s.now else 0.0
  {
    var s1 := s.(now := t);
    match e
    case Net(WireFrame(f), _) => FrameCounted(s1, f);
    case EndRx => EndRxCounted(s1);
    case _ =>
  }

  /** The two totals count each moment of channel activity exactly once. */
  lemma {:induction false} TotalsExact(ss: seq<Mac>, es: seq<Stamped>)
    requires IsRun(ss, es)
    ensures Counted(ss[|es|]) == BusyTime(ss)
    ensures 0.0 <= BusyTime(ss) <= ss[|es|].now
  {
    if es != [] {
      var n := |es| - 1;
      TotalsExact(ss[..n + 1], es[..n]);
      ReachableCore(ss[..n + 1], es[..n]);
      StepCounted(ss[n], es[n].t, es[n].e);
      BusyTimeMore(ss);
    }
  }

  lemma StepBusySince(s: Mac, t: real, e: Event)
    requires Core(s) && Next(s, t, e) && (Busy(s) ==> s.busySince <= s.now)
    ensures var s' := Step(s, t, e); Busy(s') ==> s'.busySince <= s'.now
  {
  }

  lemma {:induction false} BusySincePast(ss: seq<Mac>, es: seq<Stamped>)
    requires IsRun(ss, es)
    ensures Busy(ss[|es|]) ==> ss[|es|].busySince <= ss[|es|].now
  {
    if es != [] {
      var n := |es| - 1;
      BusySincePast(ss[..n + 1], es[..n]);
      ReachableCore(ss[..n + 1], es[..n]);
      StepBusySince(ss[n], es[n].t, es[n].e);
    }
  }

  /** So the idle time reported at the end of a simulation is never negative. */
  lemma {:induction false} IdleTimeNotNegative(ss: seq<Mac>, es: seq<Stamped>)
    requires IsRun(ss, es)
    ensures var s := ss[|es|]; s.now - s.okTime - s.collisionTime >= 0.0
  {
    TotalsExact(ss, es);
    BusySincePast(ss, es);
  }

  // ---------------------------------------------------------------------------
  // Lost wake-ups
  // ---------------------------------------------------------------------------

  /** Frames are waiting, the channel is free, and no timer will start sending them. */
  predicate Stalled(s: Mac) {
    s.auto.None? && s.tx.Idle? && s.queue != [] && (s.cfg.duplex || s.rx.Silent?)
  }

  /** The frame at the head is given up while the channel is free and others wait behind it. */
  predicate GivesUpWhenFree(s: Mac, e: Event) {
    e.EndJam? && s.backoffs == MAX_ATTEMPTS && s.rx.Silent? && |s.queue| >= 2
  }

  /** That is the one way to stall. */
  lemma StallsExactlyWhen(s: Mac, t: real, e: Event)
    requires Core(s) && Next(s, t, e) && !Stalled(s)
    ensures Stalled(Step(s, t, e)) <==> GivesUpWhenFree(s, e)
  {
  }

  lemma {:induction false} NeverStallsOtherwise(ss: seq<Mac>, es: seq<Stamped>)
    requires IsRun(ss, es) && forall i :: 0 <= i < |es| ==> !GivesUpWhenFree(ss[i], es[i].e)
    ensures !Stalled(ss[|es|])
  {
    if es != [] {
      var n := |es| - 1;
      NeverStallsOtherwise(ss[..n + 1], es[..n]);
      ReachableCore(ss[..n + 1], es[..n]);
      StallsExactlyWhen(ss[n], es[n].t, es[n].e);
    }
  }

  lemma {:induction false} FullDuplexNeverStalls(ss: seq<Mac>, es: seq<Stamped>)
    requires IsRun(ss, es)
    ensures ss[|es|].cfg.duplex ==> !Stalled(ss[|es|])
  {
    if es != [] {
      var n := |es| - 1;
      FullDuplexNeverStalls(ss[..n + 1], es[..n]);
      ReachableCore(ss[..n + 1], es[..n]);
      if !Stalled(ss[n]) {
        StallsExactlyWhen(ss[n], es[n].t, es[n].e);
      }
    }
  }

  // ---------------------------------------------------------------------------
  // PAUSE
  // ---------------------------------------------------------------------------

  /** The pause time of the PAUSE frame whose reception this event completes. */
  function CompletedPause(s: Mac, t: real, e: Event): Option<int> {
    if s.rx.Receiving? && s.rx.frame.kind.Pause? &&
       (e.EndRx? || (e.Net? && e.msg.WireFrame? && s.rx.at - t < s.cfg.bitTime
                     && (s.cfg.duplex || !s.tx.Transmitting?)))
    then Some(s.rx.frame.kind.units) else None
  }

  /** The PAUSE state loses its timer exactly on a PAUSE of no duration, and until one of some duration. */
  lemma PauseTimerLostExactlyWhen(s: Mac, t: real, e: Event)
    requires Core(s) && Next(s, t, e)
    ensures Step(s, t, e).tx.PausedForever? <==>
      && (s.tx.Paused? || s.tx.PausedForever?)
      && match CompletedPause(s, t, e)
         case Some(units) => units <= 0
         case None => s.tx.PausedForever?
  {
  }

  /** A pause asked for while the transmitter is busy is noted, replaces an earlier one, and is obeyed once. */
  lemma StepPauseRequest(s: Mac, t: real, e: Event)
    requires Core(s) && Next(s, t, e)
    ensures var s' := Step(s, t, e); var done := CompletedPause(s, t, e);
      && (done.Some? ==> if HeadStates(s.tx) then s'.pauseReq == done.value else s'.pauseReq == s.pauseReq)
      && (done.None? ==> s'.pauseReq == if e.EndTx? && s.pauseReq > 0 then 0 else s.pauseReq)
      && (e.EndTx? ==> (s'.tx.Paused? <==> s.pauseReq > 0))
  {
  }

  predicate Positive(f: Frame) { f.kind.Pause? ==> f.kind.units > 0 }

  ghost predicate PausesPositive(es: seq<Stamped>) {
    forall i :: 0 <= i < |es| && es[i].e.Net? && es[i].e.msg.WireFrame? ==> Positive(es[i].e.msg.frame)
  }

  predicate ReceivingPositive(s: Mac) { s.rx.Receiving? ==> Positive(s.rx.frame) }

  lemma {:induction false} ReceiveStepPositive(s: Mac, e: Event, s': Mac)
    requires ReceivingPositive(s) && ReceiveStep(s, e, s')
    requires e.Net? && e.msg.WireFrame? ==> Positive(e.msg.frame)
    ensures ReceivingPositive(s')
  {
    if s'.rx.Receiving? {
      assert Current(s'.rx)[0] == s'.rx.frame;
    }
  }

  lemma {:induction false} PositiveInReception(ss: seq<Mac>, es: seq<Stamped>)
    requires IsRun(ss, es) && PausesPositive(es)
    ensures ReceivingPositive(ss[|es|])
  {
    if es != [] {
      var n := |es| - 1;
      PositiveInReception(ss[..n + 1], es[..n]);
      ReachableCore(ss[..n + 1], es[..n]);
      StepReceive(ss[n], es[n].t, es[n].e);
      ReceiveStepPositive(ss[n], es[n].e, ss[n + 1]);
    }
  }

  lemma {:induction false} PositivePausesKeepTimer(ss: seq<Mac>, es: seq<Stamped>)
    requires IsRun(ss, es) && PausesPositive(es)
    ensures !ss[|es|].tx.PausedForever?
  {
    if es != [] {
      var n := |es| - 1;
      PositivePausesKeepTimer(ss[..n + 1], es[..n]);
      PositiveInReception(ss[..n + 1], es[..n]);
      ReachableCore(ss[..n + 1], es[..n]);
      PauseTimerLostExactlyWhen(ss[n], es[n].t, es[n].e);
    }
  }

  /**
   What is taken off the queue when a transmission ends is the frame that was transmitted,
   unless the upper layer put a PAUSE frame before it meanwhile; then that PAUSE frame is
   taken off unsent and the transmitted frame stays queued, to be sent again.
   */
  lemma {:induction false} SentFrameLeavesExactlyWhen(ss: seq<Mac>, es: seq<Stamped>, t: real)
    requires IsRun(ss, es) && Next(ss[|es|], t, EndTx)
    ensures var s := ss[|es|]; var h := HistoryOf(ss, es);
      && Log(h, s, t, EndTx, Step(s, t, EndTx)).finished == h.finished + [s.queue[0]]
      && h.onWire.Some?
      && (h.overtaken == 0 ==> s.queue[0] == h.onWire.value)
      && (h.overtaken > 0 ==>
            s.queue[0].kind.Pause? && h.overtaken < |s.queue| && s.queue[h.overtaken] == h.onWire.value)
      && (h.onWire.value.kind.Data? ==> (s.queue[0] == h.onWire.value <==> h.overtaken == 0))
  {
    var (s, h) := (ss[|es|], HistoryOf(ss, es));
    ReachableInv(ss, es);
    assert OnTheWire(s.tx, s.queue, h.onWire, h.overtaken);
    EndTxFinishes(h, s, t);
  }

  lemma EndTxFinishes(h: History, s: Mac, t: real)
    requires Next(s, t, EndTx)
    ensures Log(h, s, t, EndTx, Step(s, t, EndTx)).finished == h.finished + [s.queue[0]]
  {
  }

  // ---------------------------------------------------------------------------
  // How long a state lasts
  // ---------------------------------------------------------------------------

  function BitTimes(p: Params, bits: nat): real { bits as real * p.bitTime }

  /** The pause time that a pause beginning with this event obeys. */
  function ObeyedPause(s: Mac, t: real, e: Event): Option<int> {
    if e.EndTx? then Some(s.pauseReq) else CompletedPause(s, t, e)
  }

  /** How long a transmit state entered at time `t` is to last. */
  predicate LastsRight(s: Mac, t: real, e: Event, s': Mac) {
    match s'.tx
    case WaitIfg(at) => at == t + BitTimes(s'.cfg, INTERFRAME_GAP_BITS)
    case Transmitting(at) => s'.queue != [] && at == t + BitTimes(s'.cfg, WireBits(s'.queue[0]))
    case Jamming(at) => at == t + BitTimes(s'.cfg, JAM_BITS)
    case Backoff(at) =>
      && e.EndJam? && e.slots < Pow2(if s'.backoffs < 10 then s'.backoffs else 10)
      && at == t + e.slots as real * s'.cfg.slotTime
    case Paused(at) =>
      var units := ObeyedPause(s, t, e);
      units.Some? && units.value > 0 && at == t + BitTimes(s'.cfg, units.value * PAUSE_BITTIME)
    case _ => true
  }

  lemma {:induction false} DurationIs(p: Params, bits: nat)
    requires p.Ok()
    ensures Duration(p, bits) == BitTimes(p, bits)
  {
    TimesIsProduct(bits, p.bitTime);
  }

  lemma {:induction false} Pow2Of10()
    ensures Pow2(10) == 1024
  {
    assert Pow2(5) == 32;
  }

  predicate TimerSet(s: Mac, t: real, e: Event, s': Mac)
    requires s'.cfg.Ok()
  {
    match s'.tx
    case WaitIfg(at) => at == t + Duration(s'.cfg, INTERFRAME_GAP_BITS)
    case Transmitting(at) => s'.queue != [] && at == t + Duration(s'.cfg, WireBits(s'.queue[0]))
    case Jamming(at) => at == t + Duration(s'.cfg, JAM_BITS)
    case Backoff(at) =>
      e.EndJam? && e.slots < BackoffRange(s'.backoffs) && at == t + Times(e.slots, s'.cfg.slotTime)
    case Paused(at) =>
      var units := ObeyedPause(s, t, e);
      units.Some? && units.value > 0 && at == t + Duration(s'.cfg, units.value * PAUSE_BITTIME)
    case _ => true
  }

  lemma FrameSetsTimer(s: Mac, f: Frame, e: Event)
    requires s.auto.None? && Core(s) && e.Net? && e.msg == WireFrame(f) && OnFrame(s, f).tx != s.tx
    ensures TimerSet(s, s.now, e, OnFrame(s, f))
  {
  }

  lemma EndRxSetsTimer(s: Mac)
    requires s.auto.None? && Core(s) && !s.rx.Silent? && OnEndRx(s).tx != s.tx
    ensures TimerSet(s, s.now, EndRx, OnEndRx(s))
  {
  }

  lemma EndTxSetsTimer(s: Mac)
    requires s.auto.None? && Core(s) && s.tx.Transmitting?
    ensures TimerSet(s, s.now, EndTx, OnEndTx(s))
  {
  }

  lemma EndIfgSetsTimer(s: Mac)
    requires s.auto.None? && Core(s) && s.tx.WaitIfg?
    ensures TimerSet(s, s.now, EndIfg, OnEndIfg(s))
  {
  }

  lemma UpperSetsTimer(s: Mac, f: Frame, e: Event)
    requires s.auto.None? && Core(s) && e.Upper? && OnUpper(s, f).tx != s.tx
    ensures TimerSet(s, s.now, e, OnUpper(s, f))
  {
  }

  lemma EndJamSetsTimer(s: Mac, e: Event)
    requires s.auto.None? && Core(s) && s.tx.Jamming? && e.EndJam? && e.slots < BackoffRange(s.backoffs + 1)
    ensures TimerSet(s, s.now, e, OnEndJam(s, e.slots))
  {
  }

  lemma {:induction false} SetsTimerNow(s: Mac, e: Event)
    requires Core(s) && Next(s, s.now, e) && Step(s, s.now, e).tx != s.tx
    ensures Step(s, s.now, e).cfg.Ok() && TimerSet(s, s.now, e, Step(s, s.now, e))
  {
    match e
    case Upper(f, _) => UpperSetsTimer(s, f, e);
    case Net(WireFrame(f), _) => FrameSetsTimer(s, f, e);
    case EndRx => EndRxSetsTimer(s);
    case EndTx => EndTxSetsTimer(s);
    case EndIfg => EndIfgSetsTimer(s);
    case EndJam(_) => EndJamSetsTimer(s, e);
    case _ =>
  }

  lemma {:induction false} StepSetsTimer(s: Mac, t: real, e: Event)
    requires Core(s) && Next(s, t, e) && Step(s, t, e).tx != s.tx
    ensures Step(s, t, e).cfg.Ok() && TimerSet(s, t, e, Step(s, t, e))
  {
    var s1 := s.(now := t);
    StepFromNow(s, t, e);
    SetsTimerNow(s1, e);
    assert ObeyedPause(s1, t, e) == ObeyedPause(s, t, e);
  }

  lemma {:induction false} TimerSetLasts(s: Mac, t: real, e: Event, s': Mac)
    requires s'.cfg.Ok() && TimerSet(s, t, e, s')
    ensures LastsRight(s, t, e, s')
  {
    match s'.tx
    case WaitIfg(_) => DurationIs(s'.cfg, INTERFRAME_GAP_BITS);
    case Transmitting(_) => DurationIs(s'.cfg, WireBits(s'.queue[0]));
    case Jamming(_) => DurationIs(s'.cfg, JAM_BITS);
    case Backoff(_) =>
      Pow2Of10();
      TimesIsProduct(e.slots, s'.cfg.slotTime);
    case Paused(_) => DurationIs(s'.cfg, ObeyedPause(s, t, e).value * PAUSE_BITTIME);
    case _ =>
  }

  /**
   Whenever the transmitter enters a state, from wherever and for whatever reason, its timer is set
   for the time that state takes: the gap, the frame, the jam, the slots drawn, the pause asked for.
   */
  lemma {:induction false} StateLasts(s: Mac, t: real, e: Event)
    requires Core(s) && Next(s, t, e) && Step(s, t, e).tx != s.tx
    ensures LastsRight(s, t, e, Step(s, t, e))
  {
    StepSetsTimer(s, t, e);
    TimerSetLasts(s, t, e, Step(s, t, e));
  }

  // ---------------------------------------------------------------------------
  // Two runs that show the conditions above are needed
  // ---------------------------------------------------------------------------

  const EXAMPLE := Mac(Params(true, 1.0, 1.0, false, false), 0, 0.0, None, Idle, Silent, [], 0, 0, 0, 0,
                       0.0, 0.0, 0.0, [], [])

  const PAUSE_ONE := Net(WireFrame(Frame(1, Pause(1), 64)), 0.0)
  const PAUSE_ZERO := Net(WireFrame(Frame(2, Pause(0), 0)), 0.0)

  lemma {:induction false} PausedOnce() returns (s1: Mac, s2: Mac)
    ensures Next(EXAMPLE, 0.0, PAUSE_ONE) && s1 == Step(EXAMPLE, 0.0, PAUSE_ONE)
    ensures Next(s1, 576.0, EndRx) && s2 == Step(s1, 576.0, EndRx)
    ensures s2 == EXAMPLE.(now := 576.0, tx := Paused(1088.0), okTime := 576.0, received := [PAUSE_ONE.msg.frame])
  {
    TimesIsProduct(576, 1.0);
    TimesIsProduct(512, 1.0);
    s1 := Step(EXAMPLE, 0.0, PAUSE_ONE);
    assert s1.rx == Receiving(PAUSE_ONE.msg.frame, 576.0);
    s2 := Step(s1, 576.0, EndRx);
  }

  lemma {:induction false} PausedForNothing(s: Mac) returns (s1: Mac, s2: Mac)
    requires s == EXAMPLE.(now := 576.0, tx := Paused(1088.0), okTime := 576.0, received := [PAUSE_ONE.msg.frame])
    ensures Next(s, 576.0, PAUSE_ZERO) && s1 == Step(s, 576.0, PAUSE_ZERO)
    ensures Next(s1, 640.0, EndRx) && s2 == Step(s1, 640.0, EndRx) && s2.tx.PausedForever?
  {
    TimesIsProduct(64, 1.0);
    s1 := Step(s, 576.0, PAUSE_ZERO);
    assert s1.rx == Receiving(PAUSE_ZERO.msg.frame, 640.0);
    s2 := Step(s1, 640.0, EndRx);
  }

  /** Two PAUSE frames, the second of no duration, strand the transmitter. */
  lemma {:induction false} ZeroPauseStrands() returns (ss: seq<Mac>, es: seq<Stamped>)
    ensures IsRun(ss, es) && ss[|es|].tx.PausedForever?
  {
    var s1, s2 := PausedOnce();
    var s3, s4 := PausedForNothing(s2);
    ss, es := [EXAMPLE], [];
    ss, es := Extend(ss, es, 0.0, PAUSE_ONE);
    ss, es := Extend(ss, es, 576.0, EndRx);
    ss, es := Extend(ss, es, 576.0, PAUSE_ZERO);
    ss, es := Extend(ss, es, 640.0, EndRx);
  }

  const DATA_FRAME := Frame(1, Data, 64)

  lemma {:induction false} TransmissionStarted() returns (s1: Mac, s2: Mac)
    ensures Next(EXAMPLE, 0.0, Upper(DATA_FRAME, false)) && s1 == Step(EXAMPLE, 0.0, Upper(DATA_FRAME, false))
    ensures Next(s1, 96.0, EndIfg) && s2 == Step(s1, 96.0, EndIfg)
    ensures s2 == EXAMPLE.(now := 96.0, tx := Transmitting(672.0), queue := [DATA_FRAME], wire := [WireFrame(DATA_FRAME)])
  {
    TimesIsProduct(96, 1.0);
    TimesIsProduct(576, 1.0);
    s1 := Step(EXAMPLE, 0.0, Upper(DATA_FRAME, false));
    assert s1.tx == WaitIfg(96.0) && s1.queue == [DATA_FRAME];
    s2 := Step(s1, 96.0, EndIfg);
  }

  /** A PAUSE frame from above during a transmission leaves unsent; the data frame stays to be sent twice. */
  lemma {:induction false} PauseOvertakes() returns (ss: seq<Mac>, es: seq<Stamped>)
    ensures IsRun(ss, es)
    ensures ss[|es|].wire == [WireFrame(DATA_FRAME)] && ss[|es|].queue == [DATA_FRAME]
    ensures |es| == 4 && es[2].e == Upper(Frame(2, Pause(1), 64), false) && es[3].e == EndTx
  {
    var pause := Upper(Frame(2, Pause(1), 64), false);
    es := [Stamped(0.0, Upper(DATA_FRAME, false)), Stamped(96.0, EndIfg), Stamped(96.0, pause), Stamped(672.0, EndTx)];
    var s1, s2 := TransmissionStarted();
    var s3 := Step(s2, 96.0, pause);
    assert s3.queue == [pause.frame, DATA_FRAME];
    ss := [EXAMPLE, s1, s2, s3, Step(s3, 672.0, EndTx)];
  }
}
