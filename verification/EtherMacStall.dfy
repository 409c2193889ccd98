/**
 A run in which frames are left waiting on a free channel: in each gap another station's
 transmission begins and is aborted, and the MAC backs off for no time.
 */
module EtherMacStall {
  import opened EtherMacSpec
  import opened EtherMacRuns

  const SHARED_LINE := EXAMPLE.(cfg := Params(false, 1.0, 1.0, false, false))
  const FIRST := Frame(1, Data, 64)
  const SECOND := Frame(2, Data, 64)
  const FOREIGN := Net(WireFrame(Frame(3, Data, 64)), 0.0)
  const FOREIGN_JAM := Net(WireJam, 0.0)

  /** Two frames wait, the first has collided `b` times, and the gap before its next transmission has begun. */
  predicate Waiting(s: Mac, t: real, b: nat) {
    && s.cfg == SHARED_LINE.cfg && s.limit == 0 && s.auto.None? && s.now == t
    && s.tx == WaitIfg(t + 96.0) && s.rx.Silent? && s.queue == [FIRST, SECOND] && s.backoffs == b && s.concurrent == 0
  }

  /** In the gap a frame began and was aborted; its collision is not over yet. */
  predicate Disturbed(s: Mac, t: real, b: nat) {
    && s.cfg == SHARED_LINE.cfg && s.limit == 0 && s.auto.None? && s.now == t + 70.0
    && s.tx == WaitIfg(t + 96.0) && s.rx == Collision(t + 102.0) && s.queue == [FIRST, SECOND] && s.backoffs == b
  }

  /** The frame has collided once more, and the channel is free again before jamming ends. */
  predicate StillJamming(s: Mac, t: real, b: nat) {
    && s.cfg == SHARED_LINE.cfg && s.limit == 0 && s.auto.None? && s.now == t + 102.0
    && s.tx == Jamming(t + 128.0) && s.rx.Silent? && s.queue == [FIRST, SECOND] && s.backoffs == b && s.concurrent == 0
  }

  lemma {:induction false} IsDisturbed(s: Mac, t: real, b: nat) returns (s1: Mac, s2: Mac)
    requires Waiting(s, t, b)
    ensures Next(s, t + 10.0, FOREIGN) && s1 == Step(s, t + 10.0, FOREIGN)
    ensures Next(s1, t + 70.0, FOREIGN_JAM) && s2 == Step(s1, t + 70.0, FOREIGN_JAM)
    ensures Disturbed(s2, t, b)
  {
    TimesIsProduct(576, 1.0);
    TimesIsProduct(32, 1.0);
    s1 := Step(s, t + 10.0, FOREIGN);
    assert s1.rx == Receiving(FOREIGN.msg.frame, t + 586.0) && s1.concurrent == 1;
    s2 := Step(s1, t + 70.0, FOREIGN_JAM);
  }

  lemma {:induction false} IsJammed(s: Mac, t: real, b: nat) returns (s1: Mac, s2: Mac)
    requires Disturbed(s, t, b)
    ensures Next(s, t + 96.0, EndIfg) && s1 == Step(s, t + 96.0, EndIfg)
    ensures Next(s1, t + 102.0, EndRx) && s2 == Step(s1, t + 102.0, EndRx)
    ensures StillJamming(s2, t, b)
  {
    TimesIsProduct(32, 1.0);
    s1 := Step(s, t + 96.0, EndIfg);
    assert s1.tx == Jamming(t + 128.0) && s1.rx == Collision(t + 102.0) && s1.queue == [FIRST, SECOND];
    s2 := Step(s1, t + 102.0, EndRx);
  }

  lemma {:induction false} BacksOff(s: Mac, t: real, b: nat) returns (s1: Mac, s2: Mac)
    requires StillJamming(s, t, b) && b < MAX_ATTEMPTS
    ensures Next(s, t + 128.0, EndJam(0)) && s1 == Step(s, t + 128.0, EndJam(0))
    ensures Next(s1, t + 128.0, EndBackoff) && s2 == Step(s1, t + 128.0, EndBackoff)
    ensures Waiting(s2, t + 128.0, b + 1)
  {
    TimesIsProduct(96, 1.0);
    s1 := Step(s, t + 128.0, EndJam(0));
    assert s1.tx == Backoff(t + 128.0);
    s2 := Step(s1, t + 128.0, EndBackoff);
  }

  lemma {:induction false} CollidesOnceMore(ss: seq<Mac>, es: seq<Stamped>, t: real, b: nat)
    returns (ss': seq<Mac>, es': seq<Stamped>)
    requires IsRun(ss, es) && Waiting(ss[|es|], t, b)
    ensures IsRun(ss', es') && StillJamming(ss'[|es'|], t, b)
  {
    var s1, s2 := IsDisturbed(ss[|es|], t, b);
    ss', es' := Extend(ss, es, t + 10.0, FOREIGN);
    ss', es' := Extend(ss', es', t + 70.0, FOREIGN_JAM);
    var s3, s4 := IsJammed(s2, t, b);
    ss', es' := Extend(ss', es', t + 96.0, EndIfg);
    ss', es' := Extend(ss', es', t + 102.0, EndRx);
  }

  lemma {:induction false} TwoAccepted() returns (ss: seq<Mac>, es: seq<Stamped>)
    ensures IsRun(ss, es) && Waiting(ss[|es|], 0.0, 0)
  {
    TimesIsProduct(96, 1.0);
    ss, es := [SHARED_LINE], [];
    ss, es := Extend(ss, es, 0.0, Upper(FIRST, false));
    assert ss[1].tx == WaitIfg(96.0) && ss[1].queue == [FIRST];
    ss, es := Extend(ss, es, 0.0, Upper(SECOND, false));
  }

  lemma {:induction false} Collided(b: nat) returns (ss: seq<Mac>, es: seq<Stamped>, t: real)
    requires b <= MAX_ATTEMPTS
    ensures IsRun(ss, es) && Waiting(ss[|es|], t, b)
  {
    if b == 0 {
      ss, es := TwoAccepted();
      t := 0.0;
    } else {
      ss, es, t := Collided(b - 1);
      ss, es := CollidesOnceMore(ss, es, t, b - 1);
      var s1, s2 := BacksOff(ss[|es|], t, b - 1);
      ss, es := Extend(ss, es, t + 128.0, EndJam(0));
      ss, es := Extend(ss, es, t + 128.0, EndBackoff);
      t := t + 128.0;
    }
  }

  /** After its 17th collision the first frame is given up, and the second is left waiting without a timer. */
  lemma {:induction false} StallHappens() returns (ss: seq<Mac>, es: seq<Stamped>)
    ensures IsRun(ss, es) && es != [] && GivesUpWhenFree(ss[|es| - 1], es[|es| - 1].e)
    ensures Stalled(ss[|es|]) && ss[|es|].queue == [SECOND]
  {
    var t: real;
    ss, es, t := Collided(MAX_ATTEMPTS);
    ss, es := CollidesOnceMore(ss, es, t, MAX_ATTEMPTS);
    var e := EndJam(0);
    assert Next(ss[|es|], t + 128.0, e) && GivesUpWhenFree(ss[|es|], e);
    ss, es := Extend(ss, es, t + 128.0, e);
  }
}
