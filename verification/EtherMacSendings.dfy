/**
 How often each frame is transmitted.

 The MAC counts collisions in `backoffs`, which it takes to be those of the frame at the head
 of its queue. Here that is compared with what went over the wire.
 */
module EtherMacSendings {
  import opened EtherMacSpec
  import opened EtherMacRuns
  import opened Options

  const MAX_SENDINGS := MAX_ATTEMPTS + 1

  /** How often a frame of this id went out. */
  function Sendings(wire: seq<WireMsg>, id: nat): nat {
    if wire == [] then 0
    else
      var w := wire[|wire| - 1];
      Sendings(wire[..|wire| - 1], id) + if w.WireFrame? && w.frame.id == id then 1 else 0
  }

  /**
   The head was sent as often as the MAC counts, no frame behind it was sent yet, and every frame that
   left was sent, but not too often.
   */
  ghost predicate CountsRight(queue: seq<Frame>, finished: seq<Frame>, wire: seq<WireMsg>, tries: nat) {
    && (if queue == [] then tries == 0 else Sendings(wire, queue[0].id) == tries)
    && (forall i :: 1 <= i < |queue| ==> Sendings(wire, queue[i].id) == 0)
    && (forall i :: 0 <= i < |finished| ==> 1 <= Sendings(wire, finished[i].id) <= MAX_SENDINGS)
  }

  /** The ids in use are all different, and all known. */
  ghost predicate Apart(queue: seq<Frame>, finished: seq<Frame>, wire: seq<WireMsg>, known: set<nat>) {
    && (forall i, j :: 0 <= i < j < |queue| ==> queue[i].id != queue[j].id)
    && (forall i, j :: 0 <= i < |finished| && 0 <= j < |queue| ==> finished[i].id != queue[j].id)
    && (forall i :: 0 <= i < |queue| ==> queue[i].id in known)
    && (forall i :: 0 <= i < |finished| ==> finished[i].id in known)
    && (forall x: nat :: x !in known ==> Sendings(wire, x) == 0)
  }

  /** A PAUSE frame is put before a frame that was transmitted already. */
  predicate Overtakes(s: Mac, e: Event) { e.Upper? && e.frame.kind.Pause? && Tries(s) > 0 }

  lemma {:induction false} SendingsMore(wire: seq<WireMsg>, w: WireMsg, id: nat)
    ensures Sendings(wire + [w], id) == Sendings(wire, id) + if w.WireFrame? && w.frame.id == id then 1 else 0
  {
    assert (wire + [w])[..|wire|] == wire;
  }

  /** What a step adds to the wire counts for the frame whose transmission begins. */
  lemma {:induction false} StepSendings(s: Mac, t: real, e: Event, id: nat)
    requires Core(s) && Next(s, t, e)
    ensures var s' := Step(s, t, e); var begun := Begun(s, s');
      Sendings(s'.wire, id) == Sendings(s.wire, id) + if begun.Some? && begun.value.id == id then 1 else 0
  {
    StepWire(s, t, e);
    var begun := Begun(s, Step(s, t, e));
    var first := if begun.Some? then s.wire + [WireFrame(begun.value)] else s.wire;
    if begun.Some? {
      SendingsMore(s.wire, WireFrame(begun.value), id);
    }
    SendingsMore(first, WireJam, id);
    assert Step(s, t, e).wire == first || Step(s, t, e).wire == first + [WireJam];
  }

  lemma TriesBounded(s: Mac, t: real, e: Event)
    requires Core(s) && Next(s, t, e)
    ensures Tries(s) <= MAX_SENDINGS && (TakesOff(s, e) ==> Tries(s) >= 1)
  {
  }

  // ---------------------------------------------------------------------------
  // One step, on queues and counts alone
  // ---------------------------------------------------------------------------

  /** The wire after a step, as far as counting goes. */
  ghost predicate Adds(wire: seq<WireMsg>, wire': seq<WireMsg>, begun: Option<Frame>) {
    forall x: nat :: Sendings(wire', x) == Sendings(wire, x) + if begun.Some? && begun.value.id == x then 1 else 0
  }

  lemma {:induction false} AppendCounts(q: seq<Frame>, fin: seq<Frame>, wire: seq<WireMsg>, known: set<nat>, tries: nat,
                                        f: Frame)
    requires Apart(q, fin, wire, known) && CountsRight(q, fin, wire, tries) && f.id !in known
    ensures Apart(q + [f], fin, wire, known + {f.id}) && CountsRight(q + [f], fin, wire, tries)
  {
    assert Sendings(wire, f.id) == 0;
  }

  lemma {:induction false} PrependApart(q: seq<Frame>, fin: seq<Frame>, wire: seq<WireMsg>, known: set<nat>, f: Frame)
    requires Apart(q, fin, wire, known) && f.id !in known
    ensures Apart([f] + q, fin, wire, known + {f.id})
  {
    var q' := [f] + q;
    assert forall i :: 1 <= i < |q'| ==> q'[i] == q[i - 1];
  }

  lemma {:induction false} PrependCounts(q: seq<Frame>, fin: seq<Frame>, wire: seq<WireMsg>, known: set<nat>, tries: nat,
                                         f: Frame)
    requires Apart(q, fin, wire, known) && CountsRight(q, fin, wire, tries) && f.id !in known
    ensures CountsRight([f] + q, fin, wire, tries) <==> tries == 0
  {
    var q' := [f] + q;
    assert q'[0] == f && Sendings(wire, f.id) == 0;
    assert forall i :: 1 <= i < |q'| ==> q'[i] == q[i - 1];
  }

  lemma {:induction false} PopCounts(q: seq<Frame>, fin: seq<Frame>, wire: seq<WireMsg>, known: set<nat>, tries: nat)
    requires Apart(q, fin, wire, known) && CountsRight(q, fin, wire, tries) && q != [] && 1 <= tries <= MAX_SENDINGS
    ensures Apart(q[1..], fin + [q[0]], wire, known) && CountsRight(q[1..], fin + [q[0]], wire, 0)
  {
    var q' := q[1..];
    assert forall i :: 0 <= i < |q'| ==> q'[i] == q[i + 1];
  }

  lemma {:induction false} ExtendCounts(p: Params, q: seq<Frame>, fin: seq<Frame>, wire: seq<WireMsg>, known: set<nat>,
                                        tries: nat)
    requires Apart(q, fin, wire, known) && CountsRight(q, fin, wire, tries) && q != []
    ensures var q' := [Extended(p, q[0])] + q[1..];
      Apart(q', fin, wire, known) && CountsRight(q', fin, wire, tries)
  {
    var q' := [Extended(p, q[0])] + q[1..];
    assert |q'| == |q| && forall i :: 0 <= i < |q| ==> q'[i].id == q[i].id;
  }

  lemma {:induction false} SendCounts(q: seq<Frame>, fin: seq<Frame>, wire: seq<WireMsg>, known: set<nat>, tries: nat,
                                      wire': seq<WireMsg>, begun: Option<Frame>)
    requires Apart(q, fin, wire, known) && CountsRight(q, fin, wire, tries) && Adds(wire, wire', begun)
    requires begun.Some? ==> q != [] && begun.value == q[0]
    ensures Apart(q, fin, wire', known) && CountsRight(q, fin, wire', tries + if begun.Some? then 1 else 0)
  {
    if begun.Some? {
      assert q[0].id in known;
    }
  }

  // ---------------------------------------------------------------------------
  // One step of the MAC
  // ---------------------------------------------------------------------------

  ghost predicate SendingsRight(s: Mac, h: History) { CountsRight(s.queue, h.finished, s.wire, Tries(s)) }

  ghost predicate IdsApart(s: Mac, h: History, known: set<nat>) { Apart(s.queue, h.finished, s.wire, known) }

  function Known(known: set<nat>, e: Event): set<nat> { if e.Upper? then known + {e.frame.id} else known }

  /** The counter goes wrong exactly when a frame that was transmitted already is overtaken. */
  lemma {:induction false} WrongExactlyWhen(s: Mac, h: History, t: real, e: Event, known: set<nat>)
    requires Core(s) && Next(s, t, e) && IdsApart(s, h, known) && SendingsRight(s, h)
    requires e.Upper? ==> e.frame.id !in known
    ensures var s' := Step(s, t, e); var h' := Log(h, s, t, e, s');
      IdsApart(s', h', Known(known, e)) && (SendingsRight(s', h') <==> !Overtakes(s, e))
  {
    var s' := Step(s, t, e);
    var begun := Begun(s, s');
    StepTries(s, t, e);
    TriesBounded(s, t, e);
    StepQueue(s, t, e);
    StepTransmits(s, t, e);
    forall x: nat
      ensures Sendings(s'.wire, x) == Sendings(s.wire, x) + if begun.Some? && begun.value.id == x then 1 else 0
    {
      StepSendings(s, t, e, x);
    }
    assert Adds(s.wire, s'.wire, begun);
    StepCounts(s, h, t, e, s', begun, known);
  }

  /** The same from what is known of the step. */
  lemma {:induction false} StepCounts(s: Mac, h: History, t: real, e: Event, s': Mac, begun: Option<Frame>,
                                      known: set<nat>)
    requires Next(s, t, e) && QueueStep(s, e, s') && Adds(s.wire, s'.wire, begun)
    requires begun.Some? ==> s'.queue != [] && begun.value == s'.queue[0] && !e.Upper?
    requires Tries(s') == (if TakesOff(s, e) then 0 else Tries(s)) + if begun.Some? then 1 else 0
    requires TakesOff(s, e) ==> 1 <= Tries(s) <= MAX_SENDINGS
    requires IdsApart(s, h, known) && SendingsRight(s, h) && (e.Upper? ==> e.frame.id !in known)
    ensures var h' := Log(h, s, t, e, s');
      IdsApart(s', h', Known(known, e)) && (SendingsRight(s', h') <==> !Overtakes(s, e))
  {
    var (q, fin, w, n) := (s.queue, h.finished, s.wire, Tries(s));
    if e.Upper? {
      if e.frame.kind.Data? {
        AppendCounts(q, fin, w, known, n, e.frame);
      } else {
        PrependApart(q, fin, w, known, e.frame);
        PrependCounts(q, fin, w, known, n, e.frame);
      }
      var q' := s'.queue;
      SendAlike(q', fin, w, s'.wire, Known(known, e), n);
    } else if TakesOff(s, e) {
      PopCounts(q, fin, w, known, n);
      SendCounts(q[1..], fin + [q[0]], w, known, 0, s'.wire, begun);
    } else {
      if q != [] {
        ExtendCounts(s.cfg, q, fin, w, known, n);
      }
      SendCounts(s'.queue, fin, w, known, n, s'.wire, begun);
    }
  }

  lemma {:induction false} SendAlike(q: seq<Frame>, fin: seq<Frame>, w: seq<WireMsg>, w': seq<WireMsg>, known: set<nat>,
                                     n: nat)
    requires Adds(w, w', None)
    ensures Apart(q, fin, w, known) ==> Apart(q, fin, w', known)
    ensures CountsRight(q, fin, w, n) <==> CountsRight(q, fin, w', n)
  {
  }

  // ---------------------------------------------------------------------------
  // Whole runs
  // ---------------------------------------------------------------------------

  function KnownIds(es: seq<Stamped>): set<nat> {
    if es == [] then {} else Known(KnownIds(es[..|es| - 1]), es[|es| - 1].e)
  }

  /** No two frames from the upper layer have the same id. */
  ghost predicate DistinctIds(es: seq<Stamped>) {
    forall i, j :: 0 <= i < j < |es| && es[i].e.Upper? && es[j].e.Upper? ==> es[i].e.frame.id != es[j].e.frame.id
  }

  lemma {:induction false} KnownCame(es: seq<Stamped>, id: nat)
    requires id in KnownIds(es)
    ensures exists i :: 0 <= i < |es| && es[i].e.Upper? && es[i].e.frame.id == id
  {
    var n := |es| - 1;
    if es[n].e.Upper? && es[n].e.frame.id == id {
      assert 0 <= n < |es|;
    } else {
      KnownCame(es[..n], id);
      var i :| 0 <= i < n && es[..n][i].e.Upper? && es[..n][i].e.frame.id == id;
      assert es[i] == es[..n][i];
    }
  }

  lemma {:induction false} NewId(es: seq<Stamped>)
    requires es != [] && DistinctIds(es) && es[|es| - 1].e.Upper?
    ensures es[|es| - 1].e.frame.id !in KnownIds(es[..|es| - 1])
  {
    var n := |es| - 1;
    if es[n].e.frame.id in KnownIds(es[..n]) {
      KnownCame(es[..n], es[n].e.frame.id);
    }
  }

  /** The counter has been right at every moment of a run. */
  ghost predicate AlwaysRight(ss: seq<Mac>, es: seq<Stamped>)
    requires IsRun(ss, es)
  {
    && SendingsRight(ss[|es|], HistoryOf(ss, es))
    && (es != [] ==> AlwaysRight(ss[..|es|], es[..|es| - 1]))
  }

  ghost predicate NeverOvertakes(ss: seq<Mac>, es: seq<Stamped>)
    requires |ss| == |es| + 1
  {
    forall k :: 0 <= k < |es| ==> !Overtakes(ss[k], es[k].e)
  }

  lemma {:induction false} RightSoFar(ss: seq<Mac>, es: seq<Stamped>)
    requires IsRun(ss, es) && DistinctIds(es) && NeverOvertakes(ss, es)
    ensures IdsApart(ss[|es|], HistoryOf(ss, es), KnownIds(es)) && SendingsRight(ss[|es|], HistoryOf(ss, es))
  {
    if es != [] {
      var n := |es| - 1;
      RightSoFar(ss[..n + 1], es[..n]);
      ReachableCore(ss[..n + 1], es[..n]);
      if es[n].e.Upper? {
        NewId(es);
      }
      WrongExactlyWhen(ss[n], HistoryOf(ss[..n + 1], es[..n]), es[n].t, es[n].e, KnownIds(es[..n]));
    }
  }

  lemma {:induction false} RightMeansNever(ss: seq<Mac>, es: seq<Stamped>)
    requires IsRun(ss, es) && DistinctIds(es) && AlwaysRight(ss, es)
    ensures NeverOvertakes(ss, es) && IdsApart(ss[|es|], HistoryOf(ss, es), KnownIds(es))
  {
    if es != [] {
      var n := |es| - 1;
      var (ss1, es1) := (ss[..n + 1], es[..n]);
      RightMeansNever(ss1, es1);
      ReachableCore(ss1, es1);
      if es[n].e.Upper? {
        NewId(es);
      }
      WrongExactlyWhen(ss[n], HistoryOf(ss1, es1), es[n].t, es[n].e, KnownIds(es1));
      NeverOvertakesMore(ss, es);
    }
  }

  lemma {:induction false} NeverOvertakesMore(ss: seq<Mac>, es: seq<Stamped>)
    requires |ss| == |es| + 1 && es != []
    ensures var n := |es| - 1;
      NeverOvertakes(ss, es) <==> NeverOvertakes(ss[..n + 1], es[..n]) && !Overtakes(ss[n], es[n].e)
  {
    var n := |es| - 1;
    assert forall k :: 0 <= k < n ==> ss[..n + 1][k] == ss[k] && es[..n][k] == es[k];
  }

  lemma {:induction false} NeverMeansRight(ss: seq<Mac>, es: seq<Stamped>)
    requires IsRun(ss, es) && DistinctIds(es) && NeverOvertakes(ss, es)
    ensures AlwaysRight(ss, es)
  {
    RightSoFar(ss, es);
    if es != [] {
      NeverMeansRight(ss[..|es|], es[..|es| - 1]);
    }
  }

  /**
   In a run of any frames with different ids the MAC knows at every moment how often the head was
   transmitted, exactly if no PAUSE frame is ever put before a frame transmitted already.
   */
  lemma {:induction false} AlwaysRightExactlyWhen(ss: seq<Mac>, es: seq<Stamped>)
    requires IsRun(ss, es) && DistinctIds(es)
    ensures AlwaysRight(ss, es) <==> NeverOvertakes(ss, es)
  {
    if AlwaysRight(ss, es) {
      RightMeansNever(ss, es);
    } else if NeverOvertakes(ss, es) {
      NeverMeansRight(ss, es);
    }
  }

  /**
   With data frames only, the head was transmitted once for each collision it had, plus once if it is
   being transmitted, and at most 17 times; those behind it not yet; and each that left, 1 to 17 times.
   */
  lemma {:induction false} DataSendings(ss: seq<Mac>, es: seq<Stamped>)
    requires IsRun(ss, es) && DistinctIds(es)
    requires forall i :: 0 <= i < |es| && es[i].e.Upper? ==> es[i].e.frame.kind.Data?
    ensures var s := ss[|es|]; var h := HistoryOf(ss, es);
      && (s.queue != [] ==> Sendings(s.wire, s.queue[0].id) == Tries(s) <= MAX_SENDINGS)
      && (forall i :: 1 <= i < |s.queue| ==> Sendings(s.wire, s.queue[i].id) == 0)
      && (forall i :: 0 <= i < |h.finished| ==> 1 <= Sendings(s.wire, h.finished[i].id) <= MAX_SENDINGS)
  {
    RightSoFar(ss, es);
    ReachableCore(ss, es);
  }

  // ---------------------------------------------------------------------------
  // A frame that is transmitted again and again
  // ---------------------------------------------------------------------------

  function Copies(n: nat): seq<WireMsg> { seq(n, _ => WireFrame(DATA_FRAME)) }

  /** The only frame has just begun to go out, for the n-th time. */
  function Sending(n: nat, t: real): Mac {
    EXAMPLE.(now := t, tx := Transmitting(t + 576.0), queue := [DATA_FRAME], wire := Copies(n))
  }

  function PauseFrom(n: nat): Event { Upper(Frame(n + 1, Pause(1), 64), false) }

  /** A PAUSE frame from above is dropped in place of the frame, which is sent once more. */
  lemma {:induction false} SendsAgain(n: nat, t: real) returns (s1: Mac, s2: Mac)
    ensures Next(Sending(n, t), t, PauseFrom(n)) && s1 == Step(Sending(n, t), t, PauseFrom(n))
    ensures Next(s1, t + 576.0, EndTx) && s2 == Step(s1, t + 576.0, EndTx)
    ensures Next(s2, t + 672.0, EndIfg) && Step(s2, t + 672.0, EndIfg) == Sending(n + 1, t + 672.0)
  {
    TimesIsProduct(96, 1.0);
    TimesIsProduct(576, 1.0);
    s1 := Step(Sending(n, t), t, PauseFrom(n));
    assert s1.queue == [PauseFrom(n).frame, DATA_FRAME] && s1.tx == Transmitting(t + 576.0);
    s2 := Step(s1, t + 576.0, EndTx);
    assert s2.queue == [DATA_FRAME] && s2.tx == WaitIfg(t + 672.0);
    assert Copies(n) + [WireFrame(DATA_FRAME)] == Copies(n + 1);
    assert Step(s2, t + 672.0, EndIfg).queue == [DATA_FRAME];
  }

  lemma {:induction false} CopiesCount(n: nat)
    ensures Sendings(Copies(n), DATA_FRAME.id) == n
  {
    if n > 0 {
      assert Copies(n)[..n - 1] == Copies(n - 1);
      CopiesCount(n - 1);
    }
  }

  /** All frames from above so far have ids up to n, all different. */
  ghost predicate IdsUpTo(es: seq<Stamped>, n: nat) {
    DistinctIds(es) && forall i :: 0 <= i < |es| && es[i].e.Upper? ==> es[i].e.frame.id <= n
  }

  lemma {:induction false} IdsOneMore(es: seq<Stamped>, n: nat, t: real, f: Frame)
    requires IdsUpTo(es, n) && f.id == n + 1
    ensures IdsUpTo(es + [Stamped(t, Upper(f, false))], n + 1)
  {
  }

  lemma {:induction false} IdsNoMore(es: seq<Stamped>, n: nat, t: real, e: Event)
    requires IdsUpTo(es, n) && !e.Upper?
    ensures IdsUpTo(es + [Stamped(t, e)], n)
  {
  }

  lemma {:induction false} RunSendsAgain(ss: seq<Mac>, es: seq<Stamped>, n: nat, t: real)
    returns (ss': seq<Mac>, es': seq<Stamped>)
    requires IsRun(ss, es) && IdsUpTo(es, n) && ss[|es|] == Sending(n, t)
    ensures IsRun(ss', es') && IdsUpTo(es', n + 1) && ss'[|es'|] == Sending(n + 1, t + 672.0)
  {
    var s1, s2 := SendsAgain(n, t);
    IdsOneMore(es, n, t, PauseFrom(n).frame);
    ss', es' := Extend(ss, es, t, PauseFrom(n));
    IdsNoMore(es', n + 1, t + 576.0, EndTx);
    ss', es' := Extend(ss', es', t + 576.0, EndTx);
    IdsNoMore(es', n + 1, t + 672.0, EndIfg);
    ss', es' := Extend(ss', es', t + 672.0, EndIfg);
  }

  /** For every n there is a run, without a single collision, that transmits one data frame n times. */
  lemma {:induction false} SentAnyNumberOfTimes(n: nat) returns (ss: seq<Mac>, es: seq<Stamped>, t: real)
    requires n >= 1
    ensures IsRun(ss, es) && IdsUpTo(es, n) && ss[|es|] == Sending(n, t)
    ensures Sendings(ss[|es|].wire, DATA_FRAME.id) == n && ss[|es|].backoffs == 0
  {
    if n == 1 {
      var s1, s2 := TransmissionStarted();
      ss, es, t := [EXAMPLE, s1, s2], [Stamped(0.0, Upper(DATA_FRAME, false)), Stamped(96.0, EndIfg)], 96.0;
      assert Copies(1) == [WireFrame(DATA_FRAME)];
    } else {
      ss, es, t := SentAnyNumberOfTimes(n - 1);
      ss, es := RunSendsAgain(ss, es, n - 1, t);
      t := t + 672.0;
    }
    CopiesCount(n);
  }
}
