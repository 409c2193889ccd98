/**
 The Ethernet MAC module with the fields, timers and checks it really has.

 Its state codes, its counters and its seven self-messages are separate fields that
 could disagree in many ways, and its handlers start with the checks that end the
 simulation if they do. `HandleMessage` is proved to fail only for what
 `EtherMacSpec.Fault` calls the environment's fault, never to schedule a message
 that is already scheduled, and to step as `EtherMacSpec` says.
 */
module EtherMacModule {
  import opened EtherMacSpec
  import Runs = EtherMacRuns
  import opened Options

  datatype TxState = TX_IDLE | WAIT_IFG | TRANSMITTING | JAMMING | BACKOFF | PAUSE

  datatype RxState = RX_IDLE | RECEIVING | RX_COLLISION

  /** A self-message is `None` while it is not scheduled, else it holds its arrival time. */
  type SelfMsg = Option<real>

  /** The kernel refuses to schedule a scheduled message, or to schedule into the past. */
  function Schedule(m: SelfMsg, now: real, t: real): SelfMsg
    requires m.None? && now <= t
  {
    Some(t)
  }

  function At(m: SelfMsg): real { if m.Some? then m.value else 0.0 }

  function TxOf(st: TxState, ifg: SelfMsg, tx: SelfMsg, jam: SelfMsg, backoff: SelfMsg, pause: SelfMsg): Tx {
    match st
    case TX_IDLE => Idle
    case WAIT_IFG => WaitIfg(At(ifg))
    case TRANSMITTING => Transmitting(At(tx))
    case JAMMING => Jamming(At(jam))
    case BACKOFF => Backoff(At(backoff))
    case PAUSE => if pause.Some? then Paused(pause.value) else PausedForever
  }

  function RxOf(st: RxState, frame: Option<Frame>, end: SelfMsg): Rx {
    match st
    case RX_IDLE => Silent
    case RECEIVING => Receiving(if frame.Some? then frame.value else Frame(0, Data, 0), At(end))
    case RX_COLLISION => Collision(At(end))
  }

  lemma ReceptionIgnoresRx(s: Mac, f: Frame, r: Rx)
    requires s.cfg.Ok()
    ensures ReceptionComplete(s.(rx := r), f) == ReceptionComplete(s, f).(rx := r)
  {
  }

  lemma {:induction false} EndRxIgnoresTime(s: Mac, r: Rx)
    requires s.cfg.Ok() && !s.rx.Silent? && !r.Silent?
    requires if s.rx.Receiving? then r.Receiving? && r.frame == s.rx.frame else r.Collision?
    ensures OnEndRx(s.(rx := r)) == OnEndRx(s)
  {
    if r.Receiving? {
      ReceptionIgnoresRx(s, r.frame, r);
    }
  }

  lemma EndIfgIgnoresTx(s: Mac, x: Tx)
    requires s.cfg.Ok() && s.queue != []
    ensures OnEndIfg(s.(tx := x)) == OnEndIfg(s)
  {
  }

  lemma EndTxIgnoresTx(s: Mac, x: Tx)
    requires s.cfg.Ok() && s.queue != []
    ensures OnEndTx(s.(tx := x)) == OnEndTx(s)
  {
  }

  /** The end of a reception or a collision is moved. */
  function Moved(s: Mac, t: real): Mac
    requires !s.rx.Silent?
  {
    s.(rx := if s.rx.Receiving? then Receiving(s.rx.frame, t) else Collision(t))
  }

  function Spoilt(s: Mac): Mac
    requires !s.rx.Silent?
  {
    s.(rx := Collision(s.rx.at))
  }

  class EtherMac {
    // parameters
    var params: Params
    var txQueueLimit: nat

    // kernel
    var simTime: real
    var endIFGMsg: SelfMsg
    var endTxMsg: SelfMsg
    var endRxMsg: SelfMsg
    var endBackoffMsg: SelfMsg
    var endJammingMsg: SelfMsg
    var endPauseMsg: SelfMsg
    var endAutoconfigMsg: SelfMsg

    // state
    var autoconfigInProgress: bool
    var transmitState: TxState
    var receiveState: RxState
    var txQueue: seq<Frame>
    var backoffs: nat
    var numConcurrentTransmissions: nat
    var frameBeingReceived: Option<Frame>
    var pauseUnitsRequested: int
    var bytesSentInBurst: nat

    // statistics
    var channelBusySince: real
    var totalSuccessfulRxTxTime: real
    var totalCollisionTime: real

    // what went out
    var wire: seq<WireMsg>
    var received: seq<Frame>

    // -------------------------------------------------------------------------
    // The abstract state
    // -------------------------------------------------------------------------

    ghost function AbsTx(): Tx
      reads this
    {
      TxOf(transmitState, endIFGMsg, endTxMsg, endJammingMsg, endBackoffMsg, endPauseMsg)
    }

    ghost function AbsRx(): Rx
      reads this
    {
      RxOf(receiveState, frameBeingReceived, endRxMsg)
    }

    ghost function Abs(): Mac
      reads this
    {
      Mac(params, txQueueLimit, simTime, if autoconfigInProgress then Some(At(endAutoconfigMsg)) else None,
          TxOf(transmitState, endIFGMsg, endTxMsg, endJammingMsg, endBackoffMsg, endPauseMsg),
          RxOf(receiveState, frameBeingReceived, endRxMsg), txQueue, backoffs, numConcurrentTransmissions, pauseUnitsRequested,
          bytesSentInBurst, channelBusySince, totalSuccessfulRxTxTime, totalCollisionTime, wire, received)
    }

    /** No timer of the transmitter is scheduled. */
    ghost predicate TxFree()
      reads this
    {
      && params.Ok() && endIFGMsg.None? && endTxMsg.None? && endJammingMsg.None?
      && endBackoffMsg.None? && endPauseMsg.None?
    }

    /** Of the transmitter's timers, exactly the one of the transmit state is scheduled. */
    ghost predicate TxTimed()
      reads this
    {
      && params.Ok()
      && (endIFGMsg.Some? <==> transmitState == WAIT_IFG)
      && (endTxMsg.Some? <==> transmitState == TRANSMITTING)
      && (endJammingMsg.Some? <==> transmitState == JAMMING)
      && (endBackoffMsg.Some? <==> transmitState == BACKOFF)
      && (endPauseMsg.Some? ==> transmitState == PAUSE)
    }

    /** A frame is held exactly in RECEIVING state. */
    ghost predicate Holding()
      reads this
    {
      frameBeingReceived.Some? <==> receiveState == RECEIVING
    }

    /** The receiver is as it was, except that a reception may have been spoilt. */
    ghost predicate RxKept(rx: RxState, endRx: SelfMsg, endAuto: SelfMsg)
      reads this
    {
      && Holding() && (receiveState == RX_IDLE <==> rx == RX_IDLE)
      && endRxMsg == endRx && endAutoconfigMsg == endAuto
    }

    ghost predicate Consistent()
      reads this
    {
      && TxTimed() && Holding()
      && (endRxMsg.Some? <==> receiveState != RX_IDLE)
      && !autoconfigInProgress && endAutoconfigMsg.None?
    }

    ghost predicate Shape()
      reads this
    {
      if autoconfigInProgress
      then endIFGMsg.None? && endTxMsg.None? && endRxMsg.None? && endBackoffMsg.None? && endJammingMsg.None?
           && endPauseMsg.None? && endAutoconfigMsg.Some? && frameBeingReceived.None?
      else Consistent()
    }

    ghost predicate Valid()
      reads this
    {
      Shape() && Runs.Core(Abs())
    }

    constructor (limit: nat, p: Params, autoconfig: bool, period: real)
      requires p.Ok() && period >= 0.0
      ensures Valid() && Runs.Initial(Abs())
    {
      params, txQueueLimit, simTime := p, limit, 0.0;
      autoconfigInProgress, endAutoconfigMsg := autoconfig, if autoconfig then Some(period) else None;
      endIFGMsg, endTxMsg, endRxMsg := None, None, None;
      endBackoffMsg, endJammingMsg, endPauseMsg := None, None, None;
      transmitState, receiveState := TX_IDLE, RX_IDLE;
      txQueue, backoffs, numConcurrentTransmissions := [], 0, 0;
      frameBeingReceived, pauseUnitsRequested, bytesSentInBurst := None, 0, 0;
      channelBusySince, totalSuccessfulRxTxTime, totalCollisionTime := 0.0, 0.0, 0.0;
      wire, received := [], [];
    }

    // -------------------------------------------------------------------------
    // Transmitter
    // -------------------------------------------------------------------------

    method ScheduleEndIFGPeriod()
      requires TxFree()
      modifies `endIFGMsg, `transmitState
      ensures TxTimed() && Abs() == ToWaitIfg(old(Abs()))
    {
      endIFGMsg := Schedule(endIFGMsg, simTime, simTime + Duration(params, INTERFRAME_GAP_BITS));
      transmitState := WAIT_IFG;
    }

    method ScheduleEndTxPeriod(f: Frame)
      requires TxFree()
      modifies `endTxMsg, `transmitState
      ensures TxTimed() && Abs() == old(Abs()).(tx := Transmitting(simTime + Duration(params, WireBits(f))))
    {
      endTxMsg := Schedule(endTxMsg, simTime, simTime + Duration(params, WireBits(f)));
      transmitState := TRANSMITTING;
    }

    method ScheduleEndPausePeriod(units: int)
      requires TxFree() && units > 0
      modifies `endPauseMsg, `transmitState
      ensures TxTimed() && Abs() == PauseFor(old(Abs()), units)
    {
      endPauseMsg := Schedule(endPauseMsg, simTime, simTime + Duration(params, units * PAUSE_BITTIME));
      transmitState := PAUSE;
    }

    method SendJamSignal()
      requires TxFree()
      modifies `endJammingMsg, `transmitState, `wire
      ensures TxTimed() && Abs() == SendJam(old(Abs()))
    {
      wire := wire + [WireJam];
      endJammingMsg := Schedule(endJammingMsg, simTime, simTime + Duration(params, JAM_BITS));
      transmitState := JAMMING;
    }

    method BeginSendFrames()
      requires TxFree()
      modifies `endIFGMsg, `transmitState
      ensures TxTimed() && Abs() == EtherMacSpec.BeginSendFrames(old(Abs()))
    {
      if txQueue != [] {
        ScheduleEndIFGPeriod();
      } else {
        transmitState := TX_IDLE;
      }
    }

    method CheckAndScheduleEndPausePeriod() returns (paused: bool)
      requires TxFree()
      modifies `endPauseMsg, `transmitState, `pauseUnitsRequested
      ensures paused == (old(pauseUnitsRequested) > 0)
      ensures paused ==> TxTimed() && Abs() == PauseFor(old(Abs()), old(pauseUnitsRequested)).(pauseReq := 0)
      ensures !paused ==> unchanged(this)
    {
      paused := false;
      if pauseUnitsRequested > 0 {
        ScheduleEndPausePeriod(pauseUnitsRequested);
        pauseUnitsRequested := 0;
        paused := true;
      }
    }

    method ProcessPauseCommand(units: int)
      requires TxTimed()
      modifies `endPauseMsg, `transmitState, `pauseUnitsRequested
      ensures TxTimed() && Abs() == PauseCommand(old(Abs()), units)
    {
      if transmitState == TX_IDLE {
        if units > 0 {
          ScheduleEndPausePeriod(units);
        }
      } else if transmitState == PAUSE {
        endPauseMsg := None;
        if units > 0 {
          ScheduleEndPausePeriod(units);
        }
      } else {
        pauseUnitsRequested := units;
      }
    }

    method SendFrame(frame: Frame)
      modifies `wire, `bytesSentInBurst
      ensures Abs() == old(Abs()).(wire := old(wire) + [WireFrame(frame)], burstBytes := bytesSentInBurst)
      ensures bytesSentInBurst == if params.frameBursting then frame.bytes + OVERHEAD_BYTES else old(bytesSentInBurst)
    {
      wire := wire + [WireFrame(frame)];
      if params.frameBursting {
        bytesSentInBurst := frame.bytes + OVERHEAD_BYTES;
      }
    }

    /** The line is busy: the frame and a jam signal go out one after the other. */
    method JamAtOnce()
      requires TxFree() && Holding() && receiveState != RX_IDLE
      modifies `endJammingMsg, `transmitState, `wire, `receiveState, `frameBeingReceived
      ensures TxTimed() && Holding() && receiveState == RX_COLLISION && Abs() == Jammed(old(Abs()))
    {
      SendJamSignal();
      if receiveState == RECEIVING {
        frameBeingReceived := None;
      }
      receiveState := RX_COLLISION;
    }

    method TransmitNow(f: Frame)
      requires TxFree()
      modifies `endTxMsg, `transmitState, `channelBusySince
      ensures TxTimed() && Abs() == Started(old(Abs()), f)
    {
      ScheduleEndTxPeriod(f);
      if !params.duplex {
        channelBusySince := simTime;
      }
    }

    method StartFrameTransmission()
      requires TxFree() && Holding() && txQueue != []
      modifies `wire, `bytesSentInBurst, `endJammingMsg, `endTxMsg, `transmitState, `receiveState,
        `frameBeingReceived, `channelBusySince
      ensures TxTimed() && Holding() && (receiveState == RX_IDLE <==> old(receiveState) == RX_IDLE)
      ensures Abs() == StartTransmission(old(Abs()))
    {
      SendFrame(txQueue[0]);
      if !params.duplex && receiveState != RX_IDLE {
        JamAtOnce();
      } else {
        TransmitNow(txQueue[0]);
      }
    }

    method GiveUp()
      requires TxFree() && txQueue != []
      modifies `txQueue, `transmitState, `backoffs
      ensures TxTimed() && Abs() == Pop(old(Abs())).(tx := Idle)
    {
      txQueue := txQueue[1..];
      transmitState := TX_IDLE;
      backoffs := 0;
    }

    method HandleRetransmission(slots: nat) returns (ok: bool)
      requires TxFree()
      modifies `txQueue, `transmitState, `backoffs, `endBackoffMsg
      ensures ok <==> old(backoffs) < MAX_ATTEMPTS || old(txQueue) != []
      ensures ok ==> TxTimed() && Abs() == OnEndJam(old(Abs()), slots)
    {
      ok := true;
      CountCollision();
      if backoffs > MAX_ATTEMPTS {
        if txQueue == [] {
          return false;
        }
        GiveUp();
        return;
      }
      BeginBackoff(slots);
    }

    method CountCollision()
      modifies `backoffs
      ensures Abs() == old(Abs()).(backoffs := old(Abs()).backoffs + 1)
    {
      backoffs := backoffs + 1;
    }

    method BeginBackoff(slots: nat)
      requires TxFree()
      modifies `endBackoffMsg, `transmitState
      ensures TxTimed() && Abs() == old(Abs()).(tx := Backoff(simTime + Times(slots, params.slotTime)))
    {
      endBackoffMsg := Schedule(endBackoffMsg, simTime, simTime + Times(slots, params.slotTime));
      transmitState := BACKOFF;
    }

    // -------------------------------------------------------------------------
    // Receiver
    // -------------------------------------------------------------------------

    method FrameReceptionComplete(f: Frame)
      requires TxTimed()
      modifies `endPauseMsg, `transmitState, `pauseUnitsRequested, `received
      ensures TxTimed() && Abs() == ReceptionComplete(old(Abs()), f)
    {
      received := received + [f];
      match f.kind
      case Pause(units) => ProcessPauseCommand(units);
      case Data =>
    }

    method CompleteReception()
      requires TxTimed() && Holding() && receiveState == RECEIVING
      modifies `frameBeingReceived, `endPauseMsg, `transmitState, `pauseUnitsRequested, `received
      ensures TxTimed() && frameBeingReceived.None?
      ensures Abs() == ReceptionComplete(old(Abs()), old(frameBeingReceived).value).(rx := AbsRx())
    {
      var frame := frameBeingReceived.value;
      frameBeingReceived := None;
      ReceptionIgnoresRx(old(Abs()), frame, AbsRx());
      FrameReceptionComplete(frame);
    }

    method BecomeReceiverIdle()
      requires TxTimed() && frameBeingReceived.None?
      modifies `receiveState, `numConcurrentTransmissions, `endIFGMsg, `transmitState
      ensures TxTimed() && receiveState == RX_IDLE && Abs() == ReceiverIdle(old(Abs()))
    {
      receiveState := RX_IDLE;
      numConcurrentTransmissions := 0;
      if transmitState == TX_IDLE && txQueue != [] {
        ScheduleEndIFGPeriod();
      }
    }

    method ScheduleEndRxPeriod(f: Frame)
      requires endRxMsg.None? && params.Ok()
      modifies `endRxMsg, `receiveState
      ensures receiveState == RECEIVING && endRxMsg == Some(simTime + Duration(params, WireBits(f)))
    {
      endRxMsg := Schedule(endRxMsg, simTime, simTime + Duration(params, WireBits(f)));
      receiveState := RECEIVING;
    }

    // The pieces of which the handling of arriving frames and jams is made.

    method CountTransmission()
      requires Consistent()
      modifies `numConcurrentTransmissions
      ensures Consistent() && Abs() == old(Abs()).(concurrent := old(Abs()).concurrent + 1)
    {
      numConcurrentTransmissions := numConcurrentTransmissions + 1;
    }

    method CountJam()
      requires Consistent() && numConcurrentTransmissions > 0
      modifies `numConcurrentTransmissions
      ensures Consistent() && Abs() == old(Abs()).(concurrent := old(Abs()).concurrent - 1)
    {
      numConcurrentTransmissions := numConcurrentTransmissions - 1;
    }

    method NoteBusy()
      requires Consistent()
      modifies `channelBusySince
      ensures Consistent() && Abs() == old(Abs()).(busySince := old(Abs()).now)
    {
      channelBusySince := simTime;
    }

    method HoldFrame(f: Frame)
      requires TxTimed() && !autoconfigInProgress && endAutoconfigMsg.None? && endRxMsg.None?
      modifies `frameBeingReceived, `endRxMsg, `receiveState
      ensures Consistent() && Abs() == old(Abs()).(rx := Receiving(f, EndOf(old(Abs()), f)))
    {
      frameBeingReceived := Some(f);
      ScheduleEndRxPeriod(f);
    }

    method AbortTransmission()
      requires Consistent() && transmitState == TRANSMITTING
      modifies `endTxMsg, `endJammingMsg, `transmitState, `wire
      ensures Consistent() && Abs() == SendJam(old(Abs()))
    {
      endTxMsg := None;
      SendJamSignal();
    }

    method BeginCollision(t: real)
      requires Consistent() && receiveState == RX_IDLE && simTime <= t
      modifies `receiveState, `endRxMsg
      ensures Consistent() && Abs() == old(Abs()).(rx := Collision(t))
    {
      receiveState := RX_COLLISION;
      endRxMsg := Schedule(endRxMsg, simTime, t);
    }

    /** Moves the end of a reception or a collision; it may not lie in the past. */
    method RescheduleEndRx(t: real)
      requires Consistent() && receiveState != RX_IDLE && simTime <= t
      modifies `endRxMsg
      ensures Consistent() && Abs() == Moved(old(Abs()), t) && endRxMsg == Some(t)
    {
      endRxMsg := None;
      endRxMsg := Schedule(endRxMsg, simTime, t);
    }

    /** The reception in progress, if any, is spoilt. */
    method Collide()
      requires Consistent() && receiveState != RX_IDLE
      modifies `frameBeingReceived, `receiveState
      ensures Consistent() && Abs() == Spoilt(old(Abs()))
    {
      if receiveState == RECEIVING {
        frameBeingReceived := None;
      }
      receiveState := RX_COLLISION;
    }

    method InterruptTransmission(f: Frame)
      requires Consistent() && !params.duplex && transmitState == TRANSMITTING && receiveState == RX_IDLE
      modifies `endTxMsg, `endJammingMsg, `transmitState, `wire, `receiveState, `numConcurrentTransmissions, `endRxMsg
      ensures Consistent() && Abs() == Interrupted(old(Abs()), f)
    {
      var endRxTime := simTime + Duration(params, WireBits(f));
      var endJamTime := simTime + Duration(params, JAM_BITS);
      AbortTransmission();
      BeginCollision(if endRxTime < endJamTime then endJamTime else endRxTime);
      CountTransmission();
    }

    method BeginReception(f: Frame)
      requires Consistent() && receiveState == RX_IDLE
      modifies `numConcurrentTransmissions, `frameBeingReceived, `endRxMsg, `receiveState, `channelBusySince
      ensures Consistent() && Abs() == ReceptionBegun(old(Abs()), f)
    {
      CountTransmission();
      HoldFrame(f);
      NoteBusy();
    }

    method BackToBack(f: Frame)
      requires Consistent() && receiveState == RECEIVING
      modifies `frameBeingReceived, `endPauseMsg, `transmitState, `pauseUnitsRequested, `received, `endRxMsg, `receiveState
      ensures Consistent() && Abs() == ReceivedBackToBack(old(Abs()), f)
    {
      CompleteReception();
      HoldNext(f);
    }

    /** The timer of the reception just completed is used for the next one. */
    method HoldNext(f: Frame)
      requires TxTimed() && !autoconfigInProgress && endAutoconfigMsg.None?
      modifies `frameBeingReceived, `endRxMsg, `receiveState
      ensures Consistent() && Abs() == old(Abs()).(rx := Receiving(f, EndOf(old(Abs()), f)))
    {
      endRxMsg := None;
      HoldFrame(f);
    }

    method Overlap(f: Frame)
      requires Consistent() && receiveState != RX_IDLE
      modifies `numConcurrentTransmissions, `endRxMsg, `frameBeingReceived, `receiveState
      ensures Consistent() && Abs() == Overlapped(old(Abs()), f)
    {
      CountTransmission();
      var endRxTime := simTime + Duration(params, WireBits(f));
      if endRxMsg.value < endRxTime {
        RescheduleEndRx(endRxTime);
      }
      Collide();
    }

    method JamArrives()
      requires Consistent() && receiveState != RX_IDLE && numConcurrentTransmissions > 0
      modifies `numConcurrentTransmissions, `endRxMsg, `frameBeingReceived, `receiveState
      ensures Consistent() && Abs() == OnJam(old(Abs()))
    {
      CountJam();
      if numConcurrentTransmissions == 0 {
        RescheduleEndRx(simTime + Duration(params, JAM_BITS));
      }
      Collide();
    }

    // -------------------------------------------------------------------------
    // Handlers; `ok` is false where the source calls error()
    // -------------------------------------------------------------------------

    method ProcessFrameFromUpperLayer(f: Frame, toSelf: bool) returns (ok: bool)
      requires autoconfigInProgress || TxTimed()
      modifies `txQueue, `endIFGMsg, `transmitState
      ensures ok <==> !Fault(old(Abs()), Upper(f, toSelf))
      ensures ok ==> Abs() == OnUpper(old(Abs()), f)
      ensures ok ==> if autoconfigInProgress then endIFGMsg == old(endIFGMsg) else TxTimed()
    {
      if toSelf || f.bytes > MAX_ETHERNET_FRAME {
        return false;
      }
      if f.kind.Data? {
        if txQueueLimit > 0 && |txQueue| > txQueueLimit {
          return false;
        }
        txQueue := txQueue + [f];
      } else {
        txQueue := [f] + txQueue;
      }
      if !autoconfigInProgress && (params.duplex || receiveState == RX_IDLE) && transmitState == TX_IDLE {
        ScheduleEndIFGPeriod();
      }
      return true;
    }

    method ProcessMsgFromNetwork(msg: WireMsg, propagation: real) returns (ok: bool)
      requires Consistent() && (!params.duplex && transmitState == TRANSMITTING ==> receiveState == RX_IDLE)
      modifies this
      ensures ok <==> !Fault(old(Abs()), Net(msg, propagation))
      ensures ok ==> Consistent() && Abs() == if msg.WireFrame? then OnFrame(old(Abs()), msg.frame) else OnJam(old(Abs()))
    {
      if msg.WireAutoconfig? || (!params.duplex && propagation >= params.Shortest()) {
        return false;
      }
      if !params.duplex && transmitState == TRANSMITTING {
        if msg.WireJam? {
          return false;
        }
        InterruptTransmission(msg.frame);
      } else if receiveState == RX_IDLE {
        if msg.WireJam? {
          return false;
        }
        ok := frameBeingReceived.None?;
        if ok {
          BeginReception(msg.frame);
        }
        return;
      } else {
        ok := ProcessWhileReceiving(msg);
        return;
      }
      return true;
    }

    method ProcessWhileReceiving(msg: WireMsg) returns (ok: bool)
      requires Consistent() && receiveState != RX_IDLE && !msg.WireAutoconfig?
      requires params.duplex || transmitState != TRANSMITTING
      modifies this
      ensures ok <==> msg.WireFrame? || old(numConcurrentTransmissions) > 0
      ensures ok ==> Consistent() && Abs() == if msg.WireFrame? then OnFrame(old(Abs()), msg.frame) else OnJam(old(Abs()))
    {
      ok := true;
      if receiveState == RECEIVING && !msg.WireJam? && endRxMsg.value - simTime < params.bitTime {
        BackToBack(msg.frame);
      } else if msg.WireJam? {
        if numConcurrentTransmissions <= 0 {
          return false;
        }
        JamArrives();
      } else {
        Overlap(msg.frame);
      }
    }

    /** Carrier extension, and the start of a new burst. */
    method PrepareHead()
      requires txQueue != []
      modifies `txQueue, `bytesSentInBurst
      ensures Abs() == HeadPrepared(old(Abs()))
    {
      var frame := txQueue[0];
      if params.carrierExtension && frame.bytes < GIGABIT_MIN_FRAME_WITH_EXT {
        frame := frame.(bytes := GIGABIT_MIN_FRAME_WITH_EXT);
      }
      txQueue := [frame] + txQueue[1..];
      if params.frameBursting {
        bytesSentInBurst := 0;
      }
    }

    method HandleEndIFGPeriod() returns (ok: bool)
      requires TxFree() && Holding()
      modifies this
      ensures ok <==> old(transmitState) == WAIT_IFG && old(txQueue) != []
      ensures ok ==> TxTimed() && RxKept(old(receiveState), old(endRxMsg), old(endAutoconfigMsg))
      ensures ok ==> Abs() == OnEndIfg(old(Abs()))
    {
      if transmitState != WAIT_IFG || txQueue == [] {
        return false;
      }
      PrepareHead();
      StartFrameTransmission();
      return true;
    }

    /** The transmission was successful. */
    method CountSuccess()
      requires txQueue != []
      modifies `txQueue, `totalSuccessfulRxTxTime, `backoffs
      ensures Abs() == Sent(old(Abs()))
    {
      txQueue := txQueue[1..];
      if !params.duplex {
        totalSuccessfulRxTxTime := totalSuccessfulRxTxTime + (simTime - channelBusySince);
      }
      backoffs := 0;
    }

    method ContinueSending()
      requires TxFree() && Holding()
      modifies this
      ensures TxTimed() && RxKept(old(receiveState), old(endRxMsg), old(endAutoconfigMsg))
      ensures Abs() == Continued(old(Abs()))
    {
      var paused := CheckAndScheduleEndPausePeriod();
      if !paused {
        if params.frameBursting && txQueue != [] && bytesSentInBurst < GIGABIT_MAX_BURST_BYTES {
          StartFrameTransmission();
        } else {
          BeginSendFrames();
        }
      }
    }

    method HandleEndTxPeriod() returns (ok: bool)
      requires TxFree() && Holding()
      modifies this
      ensures ok <==>
        && old(transmitState) == TRANSMITTING
        && (old(params).duplex || old(receiveState) == RX_IDLE)
        && old(txQueue) != []
      ensures ok ==> TxTimed() && RxKept(old(receiveState), old(endRxMsg), old(endAutoconfigMsg))
      ensures ok ==> Abs() == OnEndTx(old(Abs()))
    {
      if transmitState != TRANSMITTING || (!params.duplex && receiveState != RX_IDLE) || txQueue == [] {
        return false;
      }
      CountSuccess();
      ContinueSending();
      return true;
    }

    method CountReception()
      requires TxTimed() && Holding()
      modifies `frameBeingReceived, `endPauseMsg, `transmitState, `pauseUnitsRequested, `received,
        `totalSuccessfulRxTxTime, `totalCollisionTime
      ensures TxTimed() && frameBeingReceived.None? && Abs() == RxCounted(old(Abs())).(rx := AbsRx())
    {
      var dt := simTime - channelBusySince;
      if receiveState == RECEIVING {
        CompleteReception();
        totalSuccessfulRxTxTime := totalSuccessfulRxTxTime + dt;
      } else {
        totalCollisionTime := totalCollisionTime + dt;
      }
    }

    method HandleEndRxPeriod()
      requires TxTimed() && Holding()
      modifies this
      ensures TxTimed() && Holding() && receiveState == RX_IDLE && endRxMsg == old(endRxMsg)
      ensures endAutoconfigMsg == old(endAutoconfigMsg) && Abs() == OnEndRx(old(Abs()))
    {
      CountReception();
      BecomeReceiverIdle();
    }

    method HandleEndBackoffPeriod() returns (ok: bool)
      requires TxFree() && Holding()
      modifies `endIFGMsg, `transmitState
      ensures ok <==> old(transmitState) == BACKOFF && txQueue != []
      ensures ok ==> TxTimed() && Abs() == OnEndBackoff(old(Abs()))
    {
      if transmitState != BACKOFF || txQueue == [] {
        return false;
      }
      if receiveState == RX_IDLE {
        ScheduleEndIFGPeriod();
      } else {
        transmitState := TX_IDLE;
      }
      return true;
    }

    method HandleEndJammingPeriod(slots: nat) returns (ok: bool)
      requires TxFree()
      modifies `txQueue, `transmitState, `backoffs, `endBackoffMsg
      ensures ok <==> old(transmitState) == JAMMING && (old(backoffs) < MAX_ATTEMPTS || old(txQueue) != [])
      ensures ok ==> TxTimed() && Abs() == OnEndJam(old(Abs()), slots)
    {
      if transmitState != JAMMING {
        return false;
      }
      ok := HandleRetransmission(slots);
    }

    method HandleEndPausePeriod() returns (ok: bool)
      requires TxFree()
      modifies `endIFGMsg, `transmitState
      ensures ok <==> old(transmitState) == PAUSE
      ensures ok ==> TxTimed() && Abs() == EtherMacSpec.BeginSendFrames(old(Abs()))
    {
      if transmitState != PAUSE {
        return false;
      }
      BeginSendFrames();
      return true;
    }

    // -------------------------------------------------------------------------
    // Dispatch; the kernel has taken the arriving self-message off its queue
    // -------------------------------------------------------------------------

    ghost predicate Due(e: Event)
      reads this
    {
      Consistent() && Runs.Modes(Abs()) && Enabled(Abs(), simTime, e)
    }

    method OnIFGTimer() returns (ok: bool)
      requires Due(EndIfg)
      modifies this
      ensures ok && Consistent() && Abs() == Step(old(Abs()), old(simTime), EndIfg)
    {
      ghost var s := Abs();
      endIFGMsg := None;
      assert Abs() == s.(tx := AbsTx());
      EndIfgIgnoresTx(s, AbsTx());
      ok := HandleEndIFGPeriod();
    }

    method OnTxTimer() returns (ok: bool)
      requires Due(EndTx)
      modifies this
      ensures ok && Consistent() && Abs() == Step(old(Abs()), old(simTime), EndTx)
    {
      ghost var s := Abs();
      endTxMsg := None;
      assert Abs() == s.(tx := AbsTx());
      EndTxIgnoresTx(s, AbsTx());
      ok := HandleEndTxPeriod();
    }

    method OnRxTimer()
      requires Due(EndRx)
      modifies this
      ensures Consistent() && Abs() == Step(old(Abs()), old(simTime), EndRx)
    {
      ghost var s := Abs();
      TakeEndRx();
      EndRxIgnoresTime(s, AbsRx());
      HandleEndRxPeriod();
    }

    /** The message at the end of a reception or a collision arrives. */
    method TakeEndRx()
      requires Consistent()
      modifies `endRxMsg
      ensures endRxMsg.None? && TxTimed() && Holding() && !autoconfigInProgress && endAutoconfigMsg.None?
      ensures Abs() == old(Abs()).(rx := AbsRx())
      ensures AbsRx().Silent? <==> old(AbsRx()).Silent?
      ensures old(AbsRx()).Receiving? ==> AbsRx().Receiving? && AbsRx().frame == old(AbsRx()).frame
      ensures old(AbsRx()).Collision? ==> AbsRx().Collision?
    {
      endRxMsg := None;
    }

    method OnBackoffTimer() returns (ok: bool)
      requires Due(EndBackoff)
      modifies `endBackoffMsg, `endIFGMsg, `transmitState
      ensures ok && Consistent() && Abs() == Step(old(Abs()), simTime, EndBackoff)
    {
      endBackoffMsg := None;
      ok := HandleEndBackoffPeriod();
    }

    method OnJammingTimer(slots: nat) returns (ok: bool)
      requires Due(EndJam(slots))
      modifies `endJammingMsg, `txQueue, `transmitState, `backoffs, `endBackoffMsg
      ensures ok && Consistent() && Abs() == Step(old(Abs()), simTime, EndJam(slots))
    {
      endJammingMsg := None;
      ok := HandleEndJammingPeriod(slots);
    }

    method OnPauseTimer() returns (ok: bool)
      requires Due(EndPause)
      modifies `endPauseMsg, `endIFGMsg, `transmitState
      ensures ok && Consistent() && Abs() == Step(old(Abs()), simTime, EndPause)
    {
      endPauseMsg := None;
      ok := HandleEndPausePeriod();
    }

    method HandleAutoconfigMessage(e: Event) returns (ok: bool)
      requires autoconfigInProgress && Shape() && Runs.Modes(Abs()) && Enabled(Abs(), simTime, e)
      modifies this
      ensures ok <==> !Fault(old(Abs()), e)
      ensures ok ==> Shape() && Abs() == Step(old(Abs()), old(simTime), e)
    {
      match e
      case Upper(f, toSelf) => ok := ProcessFrameFromUpperLayer(f, toSelf);
      case Net(msg, _) => ok := msg.WireAutoconfig?;
      case EndAutoconfig(chosen) =>
        HandleEndAutoconfig(chosen);
        ok := true;
    }

    method HandleEndAutoconfig(chosen: Params)
      requires autoconfigInProgress && Shape() && Runs.Modes(Abs()) && chosen.Ok()
      modifies this
      ensures Shape() && Abs() == OnEndAutoconfig(old(Abs()), chosen)
    {
      endAutoconfigMsg := None;
      autoconfigInProgress := false;
      params := chosen;
      if txQueue != [] {
        ScheduleEndIFGPeriod();
      }
    }

    method HandleRunningMessage(e: Event) returns (ok: bool)
      requires Due(e)
      modifies this
      ensures ok <==> !Fault(old(Abs()), e)
      ensures ok ==> Consistent() && Abs() == Step(old(Abs()), old(simTime), e)
    {
      ok := params.duplex || transmitState != TRANSMITTING || receiveState == RX_IDLE;
      if ok {
        if e.Upper? {
          ok := ProcessFrameFromUpperLayer(e.frame, e.toSelf);
        } else if e.Net? {
          ok := ProcessMsgFromNetwork(e.msg, e.propagation);
        } else if e.EndIfg? {
          ok := OnIFGTimer();
        } else if e.EndTx? {
          ok := OnTxTimer();
        } else if e.EndRx? {
          OnRxTimer();
        } else if e.EndBackoff? {
          ok := OnBackoffTimer();
        } else if e.EndJam? {
          ok := OnJammingTimer(e.slots);
        } else {
          ok := OnPauseTimer();
        }
      }
    }

    method Dispatch(t: real, e: Event) returns (ok: bool)
      requires Shape() && Runs.Modes(Abs()) && Enabled(Abs(), t, e)
      modifies this
      ensures ok <==> !Fault(old(Abs()), e)
      ensures ok ==> Shape() && Abs() == Step(old(Abs()), t, e)
    {
      StepFromNow(Abs(), t, e);
      simTime := t;
      assert Abs() == old(Abs()).(now := t);
      if autoconfigInProgress {
        ok := HandleAutoconfigMessage(e);
      } else {
        ok := HandleRunningMessage(e);
      }
    }

    /** Any message or timer that can reach the module, at any time. */
    method HandleMessage(t: real, e: Event) returns (ok: bool)
      requires Valid() && Enabled(Abs(), t, e)
      modifies this
      ensures ok <==> !Fault(old(Abs()), e)
      ensures ok ==> Valid() && Abs() == Step(old(Abs()), t, e)
    {
      if !Fault(Abs(), e) {
        Runs.StepCore(Abs(), t, e);
      }
      ok := Dispatch(t, e);
    }
  }
}
