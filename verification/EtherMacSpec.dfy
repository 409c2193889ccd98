/**
 The Ethernet MAC as an algebraic state machine.

 Each transmit and receive state carries the expiry time of the one timer that
 belongs to it, so "a state has exactly its own timer pending" cannot even be
 violated here. The class in EtherMac.dfy keeps the raw fields, with one for each
 self-message, and is proved to refine this machine.
 */
module EtherMacSpec {
  import opened Options

  const MAX_ATTEMPTS := 16
  const BACKOFF_RANGE_LIMIT := 10
  const MAX_ETHERNET_FRAME := 1518
  const GIGABIT_MIN_FRAME_WITH_EXT := 512
  const GIGABIT_MAX_BURST_BYTES := 8192
  const OVERHEAD_BYTES := 8      // preamble and start frame delimiter
  const JAM_BITS := 32
  const INTERFRAME_GAP_BITS := 96
  const PAUSE_BITTIME := 512

  datatype Kind = Data | Pause(units: int)

  datatype Frame = Frame(id: nat, kind: Kind, bytes: nat)

  datatype WireMsg = WireFrame(frame: Frame) | WireJam | WireAutoconfig

  /** The parameters fixed when autoconfiguration ends. */
  datatype Params = Params(duplex: bool, bitTime: real, slotTime: real,
                           frameBursting: bool, carrierExtension: bool)
  {
    predicate Ok() { 0.0 <= bitTime && 0.0 <= slotTime }

    function Shortest(): real { if carrierExtension then 512.0 else 64.0 }
  }

  datatype Tx =
    | Idle
    | WaitIfg(at: real)
    | Transmitting(at: real)
    | Jamming(at: real)
    | Backoff(at: real)
    | Paused(at: real)
    | PausedForever            // PAUSE state whose timer was cancelled and not renewed

  datatype Rx =
    | Silent
    | Receiving(frame: Frame, at: real)
    | Collision(at: real)

  datatype Mac = Mac(
    cfg: Params,
    limit: nat,
    now: real,
    auto: Option<real>,        // end of the autoconfiguration period
    tx: Tx,
    rx: Rx,
    queue: seq<Frame>,
    backoffs: nat,
    concurrent: nat,
    pauseReq: int,
    burstBytes: nat,
    busySince: real,
    okTime: real,
    collisionTime: real,
    wire: seq<WireMsg>,        // everything sent to the network
    received: seq<Frame>)      // every frame whose reception was completed

  datatype Event =
    | Upper(frame: Frame, toSelf: bool)
    | Net(msg: WireMsg, propagation: real)
    | EndAutoconfig(chosen: Params)
    | EndIfg
    | EndTx
    | EndRx
    | EndBackoff
    | EndJam(slots: nat)
    | EndPause

  /** `n` times `unit`, as a sum: the solver then sees no products of variables. */
  function Times(n: nat, unit: real): (d: real)
    requires 0.0 <= unit
    ensures 0.0 <= d
    ensures 1 <= n ==> unit <= d
  {
    if n == 0 then 0.0 else unit + Times(n - 1, unit)
  }

  lemma {:induction false} TimesIsProduct(n: nat, unit: real)
    requires 0.0 <= unit
    ensures Times(n, unit) == n as real * unit
  {
    if n > 0 {
      TimesIsProduct(n - 1, unit);
      assert n as real == (n - 1) as real + 1.0;
    }
  }

  function Duration(p: Params, bits: nat): real
    requires p.Ok()
  {
    Times(bits, p.bitTime)
  }

  function WireBits(f: Frame): (n: nat)
    ensures n >= 1
  {
    8 * (f.bytes + OVERHEAD_BYTES)
  }

  function Max(a: real, b: real): real { if a < b then b else a }

  function BackoffRange(attempt: nat): nat {
    if attempt >= BACKOFF_RANGE_LIMIT then 1024 else Pow2(attempt)
  }

  function Pow2(n: nat): (p: nat)
    ensures p >= 1
  {
    if n == 0 then 1 else 2 * Pow2(n - 1)
  }

  // ---------------------------------------------------------------------------
  // When an event can happen, and when it is the environment's fault
  // ---------------------------------------------------------------------------

  predicate TimersFrom(s: Mac, t: real) {
    && (s.auto.Some? ==> t <= s.auto.value)
    && (match s.tx
        case Idle => true
        case PausedForever => true
        case _ => t <= s.tx.at)
    && (s.rx.Silent? || t <= s.rx.at)
  }

  /** The kernel delivers events in time order; ties may be resolved either way. */
  predicate Enabled(s: Mac, t: real, e: Event) {
    && s.now <= t
    && TimersFrom(s, t)
    && match e
       case Upper(_, _) => true
       case Net(_, _) => true
       case EndAutoconfig(p) => s.auto == Some(t) && p.Ok()
       case EndIfg => s.tx == WaitIfg(t)
       case EndTx => s.tx == Transmitting(t)
       case EndRx => !s.rx.Silent? && s.rx.at == t
       case EndBackoff => s.tx == Backoff(t)
       case EndJam(slots) => s.tx == Jamming(t) && slots < BackoffRange(s.backoffs + 1)
       case EndPause => s.tx == Paused(t)
  }

  /** The inputs the MAC rejects: everything here is decided by the environment. */
  predicate Fault(s: Mac, e: Event) {
    match e
    case Upper(f, toSelf) =>
      toSelf || f.bytes > MAX_ETHERNET_FRAME || (f.kind.Data? && 0 < s.limit < |s.queue|)
    case Net(msg, propagation) =>
      if s.auto.Some? then !msg.WireAutoconfig?
      else
        || msg.WireAutoconfig?
        || (!s.cfg.duplex && propagation >= s.cfg.Shortest())
        || (msg.WireJam? && (s.rx.Silent? || s.concurrent == 0))
    case _ => false
  }

  // ---------------------------------------------------------------------------
  // The transitions
  // ---------------------------------------------------------------------------

  function ToWaitIfg(s: Mac): Mac
    requires s.cfg.Ok()
  {
    s.(tx := WaitIfg(s.now + Duration(s.cfg, INTERFRAME_GAP_BITS)))
  }

  function BeginSendFrames(s: Mac): Mac
    requires s.cfg.Ok()
  {
    if s.queue != [] then ToWaitIfg(s) else s.(tx := Idle)
  }

  function SendJam(s: Mac): Mac
    requires s.cfg.Ok()
  {
    s.(tx := Jamming(s.now + Duration(s.cfg, JAM_BITS)), wire := s.wire + [WireJam])
  }

  function StartTransmission(s: Mac): Mac
    requires s.cfg.Ok() && s.queue != []
  {
    var f := s.queue[0];
    var s1 := s.(wire := s.wire + [WireFrame(f)],
                 burstBytes := if s.cfg.frameBursting then f.bytes + OVERHEAD_BYTES else s.burstBytes);
    if !s.cfg.duplex && !s.rx.Silent? then Jammed(s1) else Started(s1, f)
  }

  function Jammed(s: Mac): Mac
    requires s.cfg.Ok() && !s.rx.Silent?
  {
    SendJam(s).(rx := Collision(s.rx.at))
  }

  function Started(s: Mac, f: Frame): Mac
    requires s.cfg.Ok()
  {
    s.(tx := Transmitting(EndOf(s, f)), busySince := if s.cfg.duplex then s.busySince else s.now)
  }

  function Extended(p: Params, f: Frame): Frame {
    if p.carrierExtension && f.bytes < GIGABIT_MIN_FRAME_WITH_EXT
    then f.(bytes := GIGABIT_MIN_FRAME_WITH_EXT) else f
  }

  function PauseFor(s: Mac, units: int): Mac
    requires s.cfg.Ok() && units > 0
  {
    s.(tx := Paused(s.now + Duration(s.cfg, units * PAUSE_BITTIME)))
  }

  function PauseCommand(s: Mac, units: int): Mac
    requires s.cfg.Ok()
  {
    match s.tx
    case Idle => if units > 0 then PauseFor(s, units) else s
    case Paused(_) => if units > 0 then PauseFor(s, units) else s.(tx := PausedForever)
    case PausedForever => if units > 0 then PauseFor(s, units) else s
    case _ => s.(pauseReq := units)
  }

  function ReceptionComplete(s: Mac, f: Frame): Mac
    requires s.cfg.Ok()
  {
    var s1 := s.(received := s.received + [f]);
    if f.kind.Pause? then PauseCommand(s1, f.kind.units) else s1
  }

  function OnUpper(s: Mac, f: Frame): Mac
    requires s.auto.None? ==> s.cfg.Ok()
  {
    var s1 := s.(queue := if f.kind.Data? then s.queue + [f] else [f] + s.queue);
    if s.auto.None? && (s.cfg.duplex || s.rx.Silent?) && s.tx.Idle? then ToWaitIfg(s1) else s1
  }

  function EndOf(s: Mac, f: Frame): real
    requires s.cfg.Ok()
  {
    s.now + Duration(s.cfg, WireBits(f))
  }

  /** A frame arrives while transmitting on a shared line. */
  function Interrupted(s: Mac, f: Frame): Mac
    requires s.cfg.Ok()
  {
    SendJam(s).(rx := Collision(Max(EndOf(s, f), s.now + Duration(s.cfg, JAM_BITS))), concurrent := s.concurrent + 1)
  }

  /** A frame arrives at an idle receiver. */
  function ReceptionBegun(s: Mac, f: Frame): Mac
    requires s.cfg.Ok()
  {
    s.(rx := Receiving(f, EndOf(s, f)), concurrent := s.concurrent + 1, busySince := s.now)
  }

  /** A frame arrives as the reception of another is being completed. */
  function ReceivedBackToBack(s: Mac, f: Frame): Mac
    requires s.cfg.Ok() && s.rx.Receiving?
  {
    ReceptionComplete(s, s.rx.frame).(rx := Receiving(f, EndOf(s, f)))
  }

  /** A frame arrives during a reception or a collision. */
  function Overlapped(s: Mac, f: Frame): Mac
    requires s.cfg.Ok() && !s.rx.Silent?
  {
    s.(rx := Collision(Max(s.rx.at, EndOf(s, f))), concurrent := s.concurrent + 1)
  }

  function OnFrame(s: Mac, f: Frame): Mac
    requires s.cfg.Ok()
  {
    if !s.cfg.duplex && s.tx.Transmitting? then Interrupted(s, f)
    else if s.rx.Silent? then ReceptionBegun(s, f)
    else if s.rx.Receiving? && s.rx.at - s.now < s.cfg.bitTime then ReceivedBackToBack(s, f)
    else Overlapped(s, f)
  }

  function OnJam(s: Mac): Mac
    requires s.cfg.Ok() && !s.rx.Silent? && s.concurrent > 0
  {
    s.(rx := Collision(if s.concurrent == 1 then s.now + Duration(s.cfg, JAM_BITS) else s.rx.at),
       concurrent := s.concurrent - 1)
  }

  function OnEndAutoconfig(s: Mac, p: Params): Mac
    requires p.Ok()
  {
    var s1 := s.(cfg := p, auto := None);
    if s.queue != [] then ToWaitIfg(s1) else s1
  }

  function HeadPrepared(s: Mac): Mac
    requires s.queue != []
  {
    s.(queue := [Extended(s.cfg, s.queue[0])] + s.queue[1..],
       burstBytes := if s.cfg.frameBursting then 0 else s.burstBytes)
  }

  function OnEndIfg(s: Mac): Mac
    requires s.cfg.Ok() && s.queue != []
  {
    StartTransmission(HeadPrepared(s))
  }

  function Pop(s: Mac): Mac
    requires s.queue != []
  {
    s.(queue := s.queue[1..], backoffs := 0)
  }

  function Sent(s: Mac): Mac
    requires s.queue != []
  {
    Pop(s).(okTime := if s.cfg.duplex then s.okTime else s.okTime + (s.now - s.busySince))
  }

  /** What follows a transmission: a pause that was asked for, the rest of a burst, or the next frame. */
  function Continued(s: Mac): Mac
    requires s.cfg.Ok()
  {
    if s.pauseReq > 0 then PauseFor(s, s.pauseReq).(pauseReq := 0)
    else if s.cfg.frameBursting && s.queue != [] && s.burstBytes < GIGABIT_MAX_BURST_BYTES
    then StartTransmission(s)
    else BeginSendFrames(s)
  }

  function OnEndTx(s: Mac): Mac
    requires s.cfg.Ok() && s.queue != []
  {
    Continued(Sent(s))
  }

  /** The bookkeeping at the end of a reception or a collision. */
  function RxCounted(s: Mac): Mac
    requires s.cfg.Ok()
  {
    var dt := s.now - s.busySince;
    if s.rx.Receiving? then ReceptionComplete(s, s.rx.frame).(okTime := s.okTime + dt)
    else s.(collisionTime := s.collisionTime + dt)
  }

  function OnEndRx(s: Mac): Mac
    requires s.cfg.Ok()
  {
    ReceiverIdle(RxCounted(s))
  }

  function ReceiverIdle(s: Mac): Mac
    requires s.cfg.Ok()
  {
    var s1 := s.(rx := Silent, concurrent := 0);
    if s.tx.Idle? && s.queue != [] then ToWaitIfg(s1) else s1
  }

  function OnEndBackoff(s: Mac): Mac
    requires s.cfg.Ok()
  {
    if s.rx.Silent? then ToWaitIfg(s) else s.(tx := Idle)
  }

  function OnEndJam(s: Mac, slots: nat): Mac
    requires s.cfg.Ok() && (s.backoffs >= MAX_ATTEMPTS ==> s.queue != [])
  {
    if s.backoffs + 1 > MAX_ATTEMPTS then Pop(s).(tx := Idle)
    else s.(tx := Backoff(s.now + Times(slots, s.cfg.slotTime)), backoffs := s.backoffs + 1)
  }

  /** What the transitions rely on; EtherMacRuns proves it of every reachable state. */
  predicate Ready(s: Mac) {
    && (s.auto.None? ==> s.cfg.Ok())
    && (s.auto.Some? ==> s.tx.Idle? && s.rx.Silent?)
    && (HeadStates(s.tx) ==> s.queue != [])
  }

  /** The whole transition: `Step(s, t, e)` is the state after event `e` at time `t`. */
  function Step(s: Mac, t: real, e: Event): Mac
    requires Ready(s) && Enabled(s, t, e) && !Fault(s, e)
  {
    var s := s.(now := t);
    match e
    case Upper(f, _) => OnUpper(s, f)
    case Net(WireFrame(f), _) => OnFrame(s, f)
    case Net(WireJam, _) => OnJam(s)
    case Net(WireAutoconfig, _) => s
    case EndAutoconfig(p) => OnEndAutoconfig(s, p)
    case EndIfg => OnEndIfg(s)
    case EndTx => OnEndTx(s)
    case EndRx => OnEndRx(s)
    case EndBackoff => OnEndBackoff(s)
    case EndJam(slots) => OnEndJam(s, slots)
    case EndPause => BeginSendFrames(s)
  }

  lemma StepFromNow(s: Mac, t: real, e: Event)
    requires Ready(s) && Enabled(s, t, e)
    ensures var s1 := s.(now := t);
      Ready(s1) && Enabled(s1, t, e) && Fault(s1, e) == Fault(s, e) && (!Fault(s, e) ==> Step(s1, t, e) == Step(s, t, e))
  {
  }

  /** The transmit states in which the head of the queue is being worked on. */
  predicate HeadStates(tx: Tx) {
    tx.WaitIfg? || tx.Transmitting? || tx.Jamming? || tx.Backoff?
  }
}
