/**
 Gigabit bursts: the byte limit of a burst is never reached.
 */
module EtherMacBurst {
  import opened EtherMacSpec
  import opened EtherMacRuns
  import opened Options

  // ---------------------------------------------------------------------------
  // When a burst goes on
  // ---------------------------------------------------------------------------

  lemma {:induction false} EndTxBegins(s: Mac, t: real)
    requires Next(s, t, EndTx) && Modes(s) && Sizes(s.queue, s.burstBytes)
    ensures var s' := Step(s, t, EndTx);
      if s.cfg.frameBursting && |s.queue| >= 2 && s.pauseReq <= 0
      then Begun(s, s') == Some(s.queue[1]) && s'.tx.Transmitting?
      else s'.wire == s.wire && !s'.tx.Transmitting?
  {
  }

  /**
   In every run, the end of a transmission begins the next frame of a burst exactly if bursts are
   configured, another frame is queued and no pause is pending; how much the burst holds already
   does not matter.
   */
  lemma {:induction false} BurstGoesOnExactlyWhen(ss: seq<Mac>, es: seq<Stamped>, t: real)
    requires IsRun(ss, es) && Next(ss[|es|], t, EndTx)
    ensures var s := ss[|es|];
      && (Begun(s, Step(s, t, EndTx)).Some? <==> s.cfg.frameBursting && |s.queue| >= 2 && s.pauseReq <= 0)
      && (Begun(s, Step(s, t, EndTx)).Some? ==> Begun(s, Step(s, t, EndTx)).value == s.queue[1])
  {
    ReachableInv(ss, es);
    EndTxBegins(ss[|es|], t);
  }

  // ---------------------------------------------------------------------------
  // What the counter holds, and what it should
  // ---------------------------------------------------------------------------

  function Bytes(begun: Option<Frame>): nat {
    if begun.Some? then begun.value.bytes + OVERHEAD_BYTES else 0
  }

  /** The bytes of the frames begun since the last inter-frame gap. */
  ghost function BurstBytes(ss: seq<Mac>, es: seq<Stamped>): nat
    requires IsRun(ss, es)
  {
    if es == [] then 0
    else
      var n := |es| - 1;
      (if es[n].e.EndIfg? then 0 else BurstBytes(ss[..n + 1], es[..n])) + Bytes(Begun(ss[n], ss[n + 1]))
  }

  predicate CountsLast(s: Mac, onWire: Option<Frame>) {
    s.cfg.frameBursting && s.tx.Transmitting? ==> onWire.Some? && s.burstBytes == Bytes(onWire)
  }

  lemma {:induction false} StepCountsLast(s: Mac, t: real, e: Event, onWire: Option<Frame>)
    requires Next(s, t, e) && Modes(s) && CountsLast(s, onWire)
    ensures var s' := Step(s, t, e);
      CountsLast(s', if Begun(s, s').Some? then Begun(s, s') else onWire)
  {
    match e
    case Upper(_, _) =>
    case Net(_, _) =>
    case EndIfg =>
    case EndTx =>
    case EndRx =>
    case _ =>
  }

  /** While a frame of a burst is transmitted, the counter holds that frame and none before it. */
  lemma {:induction false} CounterHoldsLastFrame(ss: seq<Mac>, es: seq<Stamped>)
    requires IsRun(ss, es)
    ensures CountsLast(ss[|es|], HistoryOf(ss, es).onWire)
  {
    if es != [] {
      var n := |es| - 1;
      ReachableInv(ss[..n + 1], es[..n]);
      CounterHoldsLastFrame(ss[..n + 1], es[..n]);
      StepCountsLast(ss[n], es[n].t, es[n].e, HistoryOf(ss[..n + 1], es[..n]).onWire);
    }
  }

  // ---------------------------------------------------------------------------
  // Bursts of any size
  // ---------------------------------------------------------------------------

  const BURSTING := EXAMPLE.(cfg := Params(true, 1.0, 1.0, true, false))
  const BIG := Frame(1, Data, MAX_ETHERNET_FRAME)
  const BIG_BYTES := MAX_ETHERNET_FRAME + OVERHEAD_BYTES
  const BIG_TIME := 12208.0

  function Copies<X>(n: nat, x: X): (s: seq<X>)
    ensures |s| == n && forall i :: 0 <= i < n ==> s[i] == x
  {
    if n == 0 then [] else Copies(n - 1, x) + [x]
  }

  /** When the `k`-th frame of the burst ends. */
  function EndOfBig(k: nat): real { 96.0 + k as real * BIG_TIME }

  function Queued(n: nat): Mac {
    if n == 0 then BURSTING else BURSTING.(tx := WaitIfg(96.0), queue := Copies(n, BIG))
  }

  /** The `k`-th of `n` frames is being sent. */
  function Sending(n: nat, k: nat): Mac
    requires 1 <= k <= n
  {
    BURSTING.(now := EndOfBig(k - 1), tx := Transmitting(EndOfBig(k)), queue := Copies(n - k + 1, BIG),
              wire := Copies(k, WireFrame(BIG)), burstBytes := BIG_BYTES)
  }

  lemma {:induction false} QueuesOne(n: nat)
    ensures Next(Queued(n), 0.0, Upper(BIG, false)) && Step(Queued(n), 0.0, Upper(BIG, false)) == Queued(n + 1)
  {
    TimesIsProduct(96, 1.0);
    assert Copies(n, BIG) + [BIG] == Copies(n + 1, BIG);
  }

  lemma {:induction false} SendsFirst(n: nat)
    requires n >= 1
    ensures Next(Queued(n), 96.0, EndIfg) && Step(Queued(n), 96.0, EndIfg) == Sending(n, 1)
    ensures Bytes(Begun(Queued(n), Sending(n, 1))) == BIG_BYTES
  {
    TimesIsProduct(12208, 1.0);
    assert [BIG] + Copies(n, BIG)[1..] == Copies(n, BIG);
    assert Copies(1, WireFrame(BIG)) == [] + [WireFrame(BIG)];
  }

  lemma {:induction false} SendsNext(n: nat, k: nat)
    requires 1 <= k < n
    ensures Next(Sending(n, k), EndOfBig(k), EndTx) && Step(Sending(n, k), EndOfBig(k), EndTx) == Sending(n, k + 1)
    ensures Bytes(Begun(Sending(n, k), Sending(n, k + 1))) == BIG_BYTES
  {
    TimesIsProduct(12208, 1.0);
    assert Copies(n - k + 1, BIG)[1..] == Copies(n - k, BIG);
    assert Copies(k, WireFrame(BIG)) + [WireFrame(BIG)] == Copies(k + 1, WireFrame(BIG));
  }

  lemma {:induction false} QueueRun(n: nat) returns (ss: seq<Mac>, es: seq<Stamped>)
    ensures IsRun(ss, es) && ss[|es|] == Queued(n) && |es| == n
    ensures forall i :: 0 <= i < n ==> es[i].e == Upper(BIG, false)
  {
    if n == 0 {
      ss, es := [BURSTING], [];
    } else {
      ss, es := QueueRun(n - 1);
      QueuesOne(n - 1);
      ss, es := Extend(ss, es, 0.0, Upper(BIG, false));
    }
  }

  lemma {:induction false} ExtendBurst(ss: seq<Mac>, es: seq<Stamped>, t: real, e: Event, s: Mac, s': Mac)
    returns (ss': seq<Mac>, es': seq<Stamped>)
    requires IsRun(ss, es) && s == ss[|es|] && Next(s, t, e) && s' == Step(s, t, e)
    ensures IsRun(ss', es') && |ss'| == |es'| + 1 && ss'[|es'|] == s' && es' == es + [Stamped(t, e)]
    ensures BurstBytes(ss', es') == (if e.EndIfg? then 0 else BurstBytes(ss, es)) + Bytes(Begun(s, s'))
  {
    ss', es' := Extend(ss, es, t, e);
    assert ss'[..|es| + 1] == ss && es'[..|es|] == es;
  }

  /** Event `n` is the end of a gap, and from then on frame follows frame. */
  ghost predicate NoGapSince(es: seq<Stamped>, n: nat) {
    n < |es| && es[n].e.EndIfg? && forall i :: n < i < |es| ==> es[i].e.EndTx?
  }

  /** A run in which, with no gap between them, `k` frames of full size were begun, which led to `s`. */
  ghost predicate IsBurst(ss: seq<Mac>, es: seq<Stamped>, n: nat, k: nat, s: Mac) {
    IsRun(ss, es) && ss[|es|] == s && |es| == n + k && NoGapSince(es, n) && BurstBytes(ss, es) == k * BIG_BYTES
  }

  lemma {:induction false} FirstOfBurst(n: nat) returns (ss: seq<Mac>, es: seq<Stamped>)
    requires n >= 1
    ensures IsBurst(ss, es, n, 1, Sending(n, 1))
  {
    ss, es := QueueRun(n);
    SendsFirst(n);
    ss, es := ExtendBurst(ss, es, 96.0, EndIfg, Queued(n), Sending(n, 1));
  }

  lemma {:induction false} NextOfBurst(ss: seq<Mac>, es: seq<Stamped>, n: nat, k: nat, t: real, s: Mac, s': Mac)
    returns (ss': seq<Mac>, es': seq<Stamped>)
    requires IsBurst(ss, es, n, k, s) && Next(s, t, EndTx) && s' == Step(s, t, EndTx)
    requires Bytes(Begun(s, s')) == BIG_BYTES
    ensures IsBurst(ss', es', n, k + 1, s')
  {
    ss', es' := ExtendBurst(ss, es, t, EndTx, s, s');
  }

  lemma {:induction false} BurstGrows(ss: seq<Mac>, es: seq<Stamped>, n: nat, k: nat, s: Mac, s': Mac)
    returns (ss': seq<Mac>, es': seq<Stamped>)
    requires 1 <= k < n && s == Sending(n, k) && s' == Sending(n, k + 1) && IsBurst(ss, es, n, k, s)
    ensures IsBurst(ss', es', n, k + 1, s')
  {
    SendsNext(n, k);
    ss', es' := NextOfBurst(ss, es, n, k, EndOfBig(k), s, s');
  }

  /** There are bursts of any number of frames. */
  lemma {:induction false} BurstOfAnySize(n: nat, k: nat) returns (ss: seq<Mac>, es: seq<Stamped>)
    requires 1 <= k <= n
    ensures IsBurst(ss, es, n, k, Sending(n, k))
    decreases k
  {
    if k == 1 {
      ss, es := FirstOfBurst(n);
    } else {
      ss, es := BurstOfAnySize(n, k - 1);
      ss, es := BurstGrows(ss, es, n, k - 1, Sending(n, k - 1), Sending(n, k));
    }
  }

  /** No bound holds for all bursts, not even the one that the code checks. */
  lemma {:induction false} BurstLimitExceeded(bound: nat) returns (ss: seq<Mac>, es: seq<Stamped>)
    ensures IsRun(ss, es) && BurstBytes(ss, es) > bound && ss[|es|].burstBytes < GIGABIT_MAX_BURST_BYTES
  {
    var n := bound + 1;
    ss, es := BurstOfAnySize(n, n);
    assert n * BIG_BYTES > bound;
  }
}
