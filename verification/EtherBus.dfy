/**
 The Ethernet bus: a frame entering at one tap travels along the cable in both
 directions, hop by hop, and comes out at every other tap.
 */
module EtherBusSpec {

  datatype Direction = UPSTREAM | DOWNSTREAM

  /** A self-message: a copy of a frame that will reach a tap at some time. */
  datatype Flight = Flight(frame: nat, dir: Direction, tap: nat, at: real)

  datatype Delivery = Delivery(frame: nat, tap: nat, at: real)

  /** The positions of the taps along the cable. */
  predicate Ascending(ps: seq<real>) {
    forall i, j :: 0 <= i < j < |ps| ==> ps[i] <= ps[j]
  }

  /** Signal delay from a tap to its neighbour; none beyond the ends. */
  function DelayDown(ps: seq<real>, speed: real, i: nat): real
    requires speed > 0.0 && i < |ps|
  {
    if i == |ps| - 1 then 0.0 else (ps[i + 1] - ps[i]) / speed
  }

  function DelayUp(ps: seq<real>, speed: real, i: nat): real
    requires speed > 0.0 && i < |ps|
  {
    if i == 0 then 0.0 else DelayDown(ps, speed, i - 1)
  }

  function Out(f: Flight): Delivery { Delivery(f.frame, f.tap, f.at) }

  /** How many taps a copy has still to reach. */
  function Left(n: nat, f: Flight): int { if f.dir == UPSTREAM then f.tap else n - f.tap }

  /** The copy that travels on when one has reached a tap. */
  function Onward(ps: seq<real>, speed: real, f: Flight): (on: seq<Flight>)
    requires speed > 0.0 && f.tap < |ps|
    ensures |on| <= 1 && (on != [] ==> on[0].tap < |ps| && 0 <= Left(|ps|, on[0]) < Left(|ps|, f))
  {
    match f.dir
    case UPSTREAM => if f.tap == 0 then [] else [f.(tap := f.tap - 1, at := f.at + DelayUp(ps, speed, f.tap))]
    case DOWNSTREAM =>
      if f.tap == |ps| - 1 then [] else [f.(tap := f.tap + 1, at := f.at + DelayDown(ps, speed, f.tap))]
  }

  /** Everything a copy in flight will still deliver. */
  function Future(ps: seq<real>, speed: real, f: Flight): multiset<Delivery>
    requires speed > 0.0 && f.tap < |ps|
    decreases Left(|ps|, f)
  {
    var on := Onward(ps, speed, f);
    multiset{Out(f)} + if on == [] then multiset{} else Future(ps, speed, on[0])
  }

  function Futures(ps: seq<real>, speed: real, fs: seq<Flight>): multiset<Delivery>
    requires speed > 0.0 && OnBus(fs, |ps|)
  {
    if fs == [] then multiset{} else Future(ps, speed, fs[0]) + Futures(ps, speed, fs[1..])
  }

  /** The copies that start when a frame enters at tap `i`. */
  function Departures(ps: seq<real>, speed: real, frame: nat, i: nat, t: real): seq<Flight>
    requires speed > 0.0 && i < |ps|
  {
    GoingUp(ps, speed, frame, i, t) + GoingDown(ps, speed, frame, i, t)
  }

  function GoingUp(ps: seq<real>, speed: real, frame: nat, i: nat, t: real): seq<Flight>
    requires speed > 0.0 && i < |ps|
  {
    if i > 0 then [Flight(frame, UPSTREAM, i - 1, t + DelayUp(ps, speed, i))] else []
  }

  function GoingDown(ps: seq<real>, speed: real, frame: nat, i: nat, t: real): seq<Flight>
    requires speed > 0.0 && i < |ps|
  {
    if i < |ps| - 1 then [Flight(frame, DOWNSTREAM, i + 1, t + DelayDown(ps, speed, i))] else []
  }

  function Abs(x: real): real { if x < 0.0 then -x else x }

  /** When a frame that entered at tap `i` at time `t` is due at tap `j`. */
  function DueAt(ps: seq<real>, speed: real, i: nat, t: real, j: nat): real
    requires speed > 0.0 && i < |ps| && j < |ps|
  {
    t + Abs(ps[j] - ps[i]) / speed
  }

  /** What should come out: one copy at every other tap, after the propagation delay. */
  predicate IsDue(ps: seq<real>, speed: real, frame: nat, i: nat, t: real, d: Delivery)
    requires speed > 0.0 && i < |ps|
  {
    d.frame == frame && d.tap < |ps| && d.tap != i && d.at == DueAt(ps, speed, i, t, d.tap)
  }

  // ---------------------------------------------------------------------------
  // The hops add up
  // ---------------------------------------------------------------------------

  lemma DivAdd(a: real, b: real, s: real)
    requires s > 0.0
    ensures a / s + b / s == (a + b) / s
  {
  }

  lemma {:induction false} DueDown(ps: seq<real>, speed: real, i: nat, t: real, j: nat)
    requires speed > 0.0 && Ascending(ps) && i <= j && j + 1 < |ps|
    ensures DueAt(ps, speed, i, t, j + 1) == DueAt(ps, speed, i, t, j) + DelayDown(ps, speed, j)
  {
    DivAdd(ps[j] - ps[i], ps[j + 1] - ps[j], speed);
  }

  lemma {:induction false} DueUp(ps: seq<real>, speed: real, i: nat, t: real, j: nat)
    requires speed > 0.0 && Ascending(ps) && 0 < j <= i < |ps|
    ensures DueAt(ps, speed, i, t, j - 1) == DueAt(ps, speed, i, t, j) + DelayUp(ps, speed, j)
  {
    assert Abs(ps[j] - ps[i]) == ps[i] - ps[j];
    DivAdd(ps[i] - ps[j], ps[j] - ps[j - 1], speed);
  }

  lemma {:induction false} FutureDown(ps: seq<real>, speed: real, frame: nat, i: nat, t: real, f: Flight, d: Delivery)
    requires speed > 0.0 && Ascending(ps) && i < f.tap < |ps|
    requires f.frame == frame && f.dir == DOWNSTREAM && f.at == DueAt(ps, speed, i, t, f.tap)
    ensures Future(ps, speed, f)[d] == if f.tap <= d.tap && IsDue(ps, speed, frame, i, t, d) then 1 else 0
    decreases |ps| - f.tap
  {
    if f.tap < |ps| - 1 {
      DueDown(ps, speed, i, t, f.tap);
      FutureDown(ps, speed, frame, i, t, Onward(ps, speed, f)[0], d);
    }
  }

  lemma {:induction false} FutureUp(ps: seq<real>, speed: real, frame: nat, i: nat, t: real, f: Flight, d: Delivery)
    requires speed > 0.0 && Ascending(ps) && f.tap < i < |ps|
    requires f.frame == frame && f.dir == UPSTREAM && f.at == DueAt(ps, speed, i, t, f.tap)
    ensures Future(ps, speed, f)[d] == if d.tap <= f.tap && IsDue(ps, speed, frame, i, t, d) then 1 else 0
    decreases f.tap
  {
    if f.tap > 0 {
      DueUp(ps, speed, i, t, f.tap);
      FutureUp(ps, speed, frame, i, t, Onward(ps, speed, f)[0], d);
    }
  }

  lemma {:induction false} UpPart(ps: seq<real>, speed: real, frame: nat, i: nat, t: real, d: Delivery)
    requires speed > 0.0 && Ascending(ps) && i < |ps|
    ensures Futures(ps, speed, GoingUp(ps, speed, frame, i, t))[d] ==
      if d.tap < i && IsDue(ps, speed, frame, i, t, d) then 1 else 0
  {
    if i > 0 {
      DueUp(ps, speed, i, t, i);
      FutureUp(ps, speed, frame, i, t, GoingUp(ps, speed, frame, i, t)[0], d);
      assert GoingUp(ps, speed, frame, i, t)[1..] == [];
    }
  }

  lemma {:induction false} DownPart(ps: seq<real>, speed: real, frame: nat, i: nat, t: real, d: Delivery)
    requires speed > 0.0 && Ascending(ps) && i < |ps|
    ensures Futures(ps, speed, GoingDown(ps, speed, frame, i, t))[d] ==
      if d.tap > i && IsDue(ps, speed, frame, i, t, d) then 1 else 0
  {
    if i < |ps| - 1 {
      DueDown(ps, speed, i, t, i);
      FutureDown(ps, speed, frame, i, t, GoingDown(ps, speed, frame, i, t)[0], d);
      assert GoingDown(ps, speed, frame, i, t)[1..] == [];
    }
  }

  /**
   A frame that enters at tap `i` comes out exactly once at every other tap, after the delay
   that corresponds to the distance, and never at `i`.
   */
  lemma {:induction false} DeliveredExactlyOnce(ps: seq<real>, speed: real, frame: nat, i: nat, t: real, d: Delivery)
    requires speed > 0.0 && Ascending(ps) && i < |ps|
    ensures Futures(ps, speed, Departures(ps, speed, frame, i, t))[d] ==
      if IsDue(ps, speed, frame, i, t, d) then 1 else 0
  {
    FuturesConcat(ps, speed, GoingUp(ps, speed, frame, i, t), GoingDown(ps, speed, frame, i, t));
    UpPart(ps, speed, frame, i, t, d);
    DownPart(ps, speed, frame, i, t, d);
  }

  lemma {:induction false} FuturesConcat(ps: seq<real>, speed: real, a: seq<Flight>, b: seq<Flight>)
    requires speed > 0.0 && OnBus(a, |ps|) && OnBus(b, |ps|)
    ensures Futures(ps, speed, a + b) == Futures(ps, speed, a) + Futures(ps, speed, b)
  {
    if a == [] {
      assert a + b == b;
    } else {
      assert (a + b)[1..] == a[1..] + b;
      FuturesConcat(ps, speed, a[1..], b);
    }
  }

  lemma {:induction false} FuturesSplit(ps: seq<real>, speed: real, fs: seq<Flight>, k: nat)
    requires speed > 0.0 && k < |fs| && OnBus(fs, |ps|)
    ensures Futures(ps, speed, fs) == Future(ps, speed, fs[k]) + Futures(ps, speed, fs[..k] + fs[k + 1..])
  {
    assert fs == fs[..k] + ([fs[k]] + fs[k + 1..]);
    FuturesConcat(ps, speed, fs[..k], [fs[k]] + fs[k + 1..]);
    FuturesConcat(ps, speed, fs[..k], fs[k + 1..]);
    assert ([fs[k]] + fs[k + 1..])[1..] == fs[k + 1..];
  }

  predicate OnBus(fs: seq<Flight>, n: nat) { forall k :: 0 <= k < |fs| ==> fs[k].tap < n }

  lemma {:induction false} FuturesOne(ps: seq<real>, speed: real, f: Flight)
    requires speed > 0.0 && f.tap < |ps|
    ensures Futures(ps, speed, [f]) == Future(ps, speed, f)
  {
    assert [f][1..] == [];
  }

  lemma {:induction false} FutureOnward(ps: seq<real>, speed: real, f: Flight)
    requires speed > 0.0 && f.tap < |ps|
    ensures OnBus(Onward(ps, speed, f), |ps|)
    ensures Future(ps, speed, f) == multiset{Out(f)} + Futures(ps, speed, Onward(ps, speed, f))
  {
    var on := Onward(ps, speed, f);
    if on != [] {
      FuturesOne(ps, speed, on[0]);
      assert on == [on[0]];
    }
  }

  lemma Regroup(a: multiset<Delivery>, b: multiset<Delivery>, c: multiset<Delivery>)
    ensures (a + b) + c == a + (c + b)
    ensures (a + b) + c == a + (b + c)
  {
  }

  lemma {:induction false} HopSum(ps: seq<real>, speed: real, f: Flight, rest: seq<Flight>)
    requires speed > 0.0 && f.tap < |ps| && OnBus(rest, |ps|)
    ensures OnBus(rest + Onward(ps, speed, f), |ps|)
    ensures Future(ps, speed, f) + Futures(ps, speed, rest) ==
      multiset{Out(f)} + Futures(ps, speed, rest + Onward(ps, speed, f))
  {
    var on := Onward(ps, speed, f);
    FutureOnward(ps, speed, f);
    FuturesConcat(ps, speed, rest, on);
    Regroup(multiset{Out(f)}, Futures(ps, speed, on), Futures(ps, speed, rest));
  }

  /** A hop delivers one copy and changes nothing about the others. */
  lemma {:induction false} HopConserves(ps: seq<real>, speed: real, fs: seq<Flight>, k: nat)
    requires speed > 0.0 && k < |fs| && OnBus(fs, |ps|)
    ensures var fs' := fs[..k] + fs[k + 1..] + Onward(ps, speed, fs[k]);
      OnBus(fs', |ps|) && Futures(ps, speed, fs) == multiset{Out(fs[k])} + Futures(ps, speed, fs')
  {
    FuturesSplit(ps, speed, fs, k);
    HopSum(ps, speed, fs[k], fs[..k] + fs[k + 1..]);
  }

  // ---------------------------------------------------------------------------
  // Tap positions
  // ---------------------------------------------------------------------------

  /** Positions not given repeat the last distance given, or 5 metres. */
  function Distance(pos: seq<real>): real {
    if |pos| >= 2 then pos[|pos| - 1] - pos[|pos| - 2] else 5.0
  }

  function Position(pos: seq<real>, i: nat): real {
    if i < |pos| then pos[i] else if i == 0 then 5.0 else Position(pos, i - 1) + Distance(pos)
  }

  function Positions(pos: seq<real>, taps: nat): seq<real> { seq(taps, i requires i >= 0 => Position(pos, i)) }

  /**
   The taps whose positions are not given follow at the distance of the last two that are; with fewer than
   two given, at 5 metres.
   */
  lemma {:induction false} PositionsNotGiven(pos: seq<real>, i: nat)
    requires i >= |pos|
    ensures Position(pos, i) ==
      if |pos| >= 2 then pos[|pos| - 1] + (i - (|pos| - 1)) as real * (pos[|pos| - 1] - pos[|pos| - 2])
      else if |pos| == 1 then pos[0] + i as real * 5.0
      else (i + 1) as real * 5.0
    decreases i
  {
    if i > |pos| {
      PositionsNotGiven(pos, i - 1);
      var (n, d) := (i - (|pos| - 1), Distance(pos));
      assert n as real * d == (n - 1) as real * d + d;
    }
  }

  lemma {:induction false} StepwiseAscending(ps: seq<real>, i: nat, j: nat)
    requires i < j < |ps| && forall k :: 0 <= k < |ps| - 1 ==> ps[k] <= ps[k + 1]
    ensures ps[i] <= ps[j]
  {
    if i + 1 < j {
      StepwiseAscending(ps, i, j - 1);
    }
  }
}

module EtherBusModule {
  import opened EtherBusSpec

  datatype BusTap = BusTap(id: nat, position: real, up: real, down: real)

  /** The tap at a position, with the delays to its neighbours. */
  predicate TapFor(t: BusTap, ps: seq<real>, speed: real, i: nat)
    requires speed > 0.0 && i < |ps|
  {
    t == BusTap(i, ps[i], DelayUp(ps, speed, i), DelayDown(ps, speed, i))
  }

  /** The taps of a bus with the given positions. */
  ghost predicate TapsFor(tap: array<BusTap>, ps: seq<real>, speed: real)
    requires speed > 0.0
    reads tap
  {
    && tap.Length == |ps|
    && forall i :: 0 <= i < |ps| ==> TapFor(tap[i], ps, speed, i)
  }

  /** Places the taps; fails unless the positions ascend. */
  method PlaceTaps(pos: seq<real>, taps: nat) returns (ok: bool, tap: array<BusTap>)
    ensures fresh(tap) && tap.Length == taps
    ensures forall i :: 0 <= i < taps ==> tap[i].id == i && tap[i].position == Position(pos, i)
    ensures ok <==> Ascending(Positions(pos, taps))
  {
    tap := new BusTap[taps];
    var distance := if |pos| >= 2 then pos[|pos| - 1] - pos[|pos| - 2] else 5.0;
    for i := 0 to taps
      invariant forall k :: 0 <= k < i ==> tap[k].id == k && tap[k].position == Position(pos, k)
    {
      var position := if i < |pos| then pos[i] else if i == 0 then 5.0 else tap[i - 1].position + distance;
      tap[i] := BusTap(i, position, 0.0, 0.0);
    }
    ghost var ps := Positions(pos, taps);
    var i := 0;
    while i < taps - 1
      invariant 0 <= i && (i == 0 || i < taps)
      invariant forall k :: 0 <= k < i ==> ps[k] <= ps[k + 1]
      invariant forall k :: 0 <= k < taps ==> tap[k].id == k && tap[k].position == ps[k]
    {
      if tap[i].position > tap[i + 1].position {
        assert ps[i] > ps[i + 1];
        return false, tap;
      }
      i := i + 1;
    }
    forall i, j | 0 <= i < j < |ps|
      ensures ps[i] <= ps[j]
    {
      StepwiseAscending(ps, i, j);
    }
    ok := true;
  }

  /** Fills in the delays between adjacent taps. */
  method CalculateDelays(tap: array<BusTap>, ghost ps: seq<real>, speed: real)
    requires tap.Length == |ps| != 1 && speed > 0.0
    requires forall i :: 0 <= i < |ps| ==> tap[i].id == i && tap[i].position == ps[i]
    modifies tap
    ensures TapsFor(tap, ps, speed)
  {
    for i := 0 to tap.Length
      invariant forall k :: i <= k < |ps| ==> tap[k].id == k && tap[k].position == ps[k]
      invariant forall k :: 0 <= k < i ==> TapFor(tap[k], ps, speed, k)
    {
      var t := CalculateDelay(tap, i, ps, speed);
      tap[i] := t;
    }
  }

  method CalculateDelay(tap: array<BusTap>, i: nat, ghost ps: seq<real>, speed: real) returns (t: BusTap)
    requires tap.Length == |ps| > 1 && speed > 0.0 && i < |ps|
    requires forall k :: i <= k < |ps| ==> tap[k].id == k && tap[k].position == ps[k]
    requires i > 0 ==> TapFor(tap[i - 1], ps, speed, i - 1)
    ensures TapFor(t, ps, speed, i)
  {
    if i == 0 {
      t := BusTap(i, tap[i].position, 0.0, (tap[i + 1].position - tap[i].position) / speed);
    } else if i == tap.Length - 1 {
      t := BusTap(i, tap[i].position, tap[i - 1].down, 0.0);
    } else {
      t := BusTap(i, tap[i].position, tap[i - 1].down, (tap[i + 1].position - tap[i].position) / speed);
    }
  }

  datatype Entry = Entry(frame: nat, tap: nat, at: real)

  predicate Entered(es: seq<Entry>, n: nat) { forall k :: 0 <= k < |es| ==> es[k].tap < n }

  /** All that should come out for the frames that came in. */
  ghost function Due(ps: seq<real>, speed: real, es: seq<Entry>): multiset<Delivery>
    requires speed > 0.0 && Entered(es, |ps|)
  {
    if es == [] then multiset{}
    else
      var e := es[|es| - 1];
      Due(ps, speed, es[..|es| - 1]) + Futures(ps, speed, Departures(ps, speed, e.frame, e.tap, e.at))
  }

  /** For how many of the frames that came in a delivery is due. */
  ghost function DueCount(ps: seq<real>, speed: real, es: seq<Entry>, d: Delivery): nat
    requires speed > 0.0 && Entered(es, |ps|)
  {
    if es == [] then 0
    else
      var e := es[|es| - 1];
      DueCount(ps, speed, es[..|es| - 1], d) + if IsDue(ps, speed, e.frame, e.tap, e.at, d) then 1 else 0
  }

  /** Any number of frames, overlapping in any way: each comes out once at each other tap. */
  lemma {:induction false} DueCounted(ps: seq<real>, speed: real, es: seq<Entry>, d: Delivery)
    requires speed > 0.0 && Ascending(ps) && Entered(es, |ps|)
    ensures Due(ps, speed, es)[d] == DueCount(ps, speed, es, d)
  {
    if es != [] {
      var e := es[|es| - 1];
      DueCounted(ps, speed, es[..|es| - 1], d);
      DeliveredExactlyOnce(ps, speed, e.frame, e.tap, e.at, d);
    }
  }

  /** What came out and what is still in flight make up what is due. */
  ghost predicate Balanced(ps: seq<real>, speed: real, sent: seq<Delivery>, pending: seq<Flight>, es: seq<Entry>) {
    && speed > 0.0 && OnBus(pending, |ps|) && Entered(es, |ps|)
    && multiset(sent) + Futures(ps, speed, pending) == Due(ps, speed, es)
  }

  lemma {:induction false} SentBounded(ps: seq<real>, speed: real, sent: seq<Delivery>, pending: seq<Flight>,
                                       es: seq<Entry>)
    requires Balanced(ps, speed, sent, pending, es)
    ensures |sent| <= |Due(ps, speed, es)|
    ensures pending == [] ==> multiset(sent) == Due(ps, speed, es)
  {
    assert |multiset(sent)| == |sent|;
    assert |Due(ps, speed, es)| == |multiset(sent)| + |Futures(ps, speed, pending)|;
  }

  /** A copy comes out at a tap, and what travels on takes its place. */
  lemma {:induction false} HopBalanced(ps: seq<real>, speed: real, sent: seq<Delivery>, pending: seq<Flight>,
                                       es: seq<Entry>,
                                       k: nat, sent': seq<Delivery>, pending': seq<Flight>)
    requires Balanced(ps, speed, sent, pending, es) && k < |pending|
    requires sent' == sent + [Out(pending[k])]
    requires pending' == pending[..k] + pending[k + 1..] + Onward(ps, speed, pending[k])
    ensures Balanced(ps, speed, sent', pending', es)
  {
    HopConserves(ps, speed, pending, k);
    Regroup(multiset(sent), multiset{Out(pending[k])}, Futures(ps, speed, pending'));
    assert multiset(sent') == multiset(sent) + multiset{Out(pending[k])};
  }

  lemma {:induction false} EntryBalanced(ps: seq<real>, speed: real, sent: seq<Delivery>, pending: seq<Flight>,
                                         es: seq<Entry>, e: Entry, departures: seq<Flight>)
    requires Balanced(ps, speed, sent, pending, es) && e.tap < |ps|
    requires departures == Departures(ps, speed, e.frame, e.tap, e.at)
    ensures Balanced(ps, speed, sent, pending + departures, es + [e])
  {
    FuturesConcat(ps, speed, pending, departures);
    Regroup(multiset(sent), Futures(ps, speed, pending), Futures(ps, speed, departures));
    DueMore(ps, speed, es, e, departures);
  }

  lemma {:induction false} DueMore(ps: seq<real>, speed: real, es: seq<Entry>, e: Entry, departures: seq<Flight>)
    requires speed > 0.0 && Entered(es, |ps|) && e.tap < |ps|
    requires departures == Departures(ps, speed, e.frame, e.tap, e.at)
    ensures Entered(es + [e], |ps|) && Due(ps, speed, es + [e]) == Due(ps, speed, es) + Futures(ps, speed, departures)
  {
    assert (es + [e])[..|es|] == es;
  }

  class EtherBus {
    const tap: array<BusTap>
    const propagationSpeed: real
    var pending: seq<Flight>
    var sent: seq<Delivery>
    ghost const ps: seq<real>
    ghost var entered: seq<Entry>

    ghost predicate Valid()
      reads this, tap
    {
      && propagationSpeed > 0.0 && tap.Length >= 1 && Ascending(ps) && TapsFor(tap, ps, propagationSpeed)
      && Balanced(ps, propagationSpeed, sent, pending, entered)
    }

    constructor (t: array<BusTap>, ghost positions: seq<real>, speed: real)
      requires speed > 0.0 && t.Length >= 1 && Ascending(positions) && TapsFor(t, positions, speed)
      ensures Valid() && tap == t && ps == positions && propagationSpeed == speed
      ensures entered == [] && sent == [] && pending == []
    {
      tap, ps, propagationSpeed := t, positions, speed;
      pending, sent, entered := [], [], [];
    }

    /** The copies for both directions; none beyond the ends of the cable. */
    method Start(frame: nat, tapPoint: nat, now: real) returns (started: seq<Flight>)
      requires propagationSpeed > 0.0 && TapsFor(tap, ps, propagationSpeed) && tapPoint < tap.Length
      ensures started == Departures(ps, propagationSpeed, frame, tapPoint, now)
    {
      started := [];
      if tapPoint > 0 {
        started := started + [Flight(frame, UPSTREAM, tapPoint - 1, now + tap[tapPoint].up)];
      }
      if tapPoint < tap.Length - 1 {
        started := started + [Flight(frame, DOWNSTREAM, tapPoint + 1, now + tap[tapPoint].down)];
      }
    }

    /** The same message, readdressed to the next tap, unless the cable ends here. */
    method Readdress(msg: Flight) returns (onward: seq<Flight>)
      requires propagationSpeed > 0.0 && TapsFor(tap, ps, propagationSpeed) && msg.tap < tap.Length
      ensures onward == Onward(ps, propagationSpeed, msg)
    {
      var isLast := if msg.dir == UPSTREAM then msg.tap == 0 else msg.tap == tap.Length - 1;
      if isLast {
        return [];
      }
      var nextTap := if msg.dir == UPSTREAM then msg.tap - 1 else msg.tap + 1;
      var delay := if msg.dir == UPSTREAM then tap[msg.tap].up else tap[msg.tap].down;
      return [msg.(tap := nextTap, at := msg.at + delay)];
    }

    /** A frame arrives from a host: copies start in both directions. */
    method HandleFrame(frame: nat, tapPoint: nat, now: real)
      requires Valid() && tapPoint < tap.Length
      modifies `pending, `entered
      ensures Valid() && entered == old(entered) + [Entry(frame, tapPoint, now)]
    {
      var started := Start(frame, tapPoint, now);
      EntryBalanced(ps, propagationSpeed, sent, pending, entered, Entry(frame, tapPoint, now), started);
      pending := pending + started;
      entered := entered + [Entry(frame, tapPoint, now)];
    }

    /** A copy reaches a tap: it is sent out there and, unless the cable ends, travels on. */
    method HandleSelfMessage(k: nat)
      requires Valid() && k < |pending|
      modifies `pending, `sent
      ensures Valid() && sent == old(sent) + [Out(old(pending)[k])]
    {
      var sent', pending' := Hop(k);
      sent, pending := sent', pending';
    }

    /** What is sent and what is in flight once a copy has reached a tap. */
    method Hop(k: nat) returns (sent': seq<Delivery>, pending': seq<Flight>)
      requires Valid() && k < |pending|
      ensures Balanced(ps, propagationSpeed, sent', pending', entered) && sent' == sent + [Out(pending[k])]
    {
      var msg := pending[k];
      var onward := Readdress(msg);
      sent', pending' := sent + [Out(msg)], pending[..k] + pending[k + 1..] + onward;
      HopBalanced(ps, propagationSpeed, sent, pending, entered, k, sent', pending');
    }

    /** When nothing is in flight any more, exactly what is due has come out. */
    method Drain()
      requires Valid()
      modifies `pending, `sent
      ensures Valid() && pending == [] && multiset(sent) == Due(ps, propagationSpeed, entered)
    {
      SentBounded(ps, propagationSpeed, sent, pending, entered);
      while pending != []
        invariant Valid() && |sent| <= |Due(ps, propagationSpeed, entered)|
        decreases |Due(ps, propagationSpeed, entered)| - |sent|
      {
        HandleSelfMessage(0);
        SentBounded(ps, propagationSpeed, sent, pending, entered);
      }
    }
  }
}
