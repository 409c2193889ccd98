/**
 Deterministic machines that do one thing after another.

 The lemmas here treat the step of the machine as a whole, whatever it consists of.
 */
module Stepping {
  import opened Options

  /** What a machine does in a state: nothing more, or something, after which it goes on or fails. */
  datatype Outcome<+X, +S> = Halts | Refuses | Dies(did: X) | Goes(did: X, next: S)

  /** What is done in at most `m` steps. */
  function Trace<X, S>(step: S -> Outcome<X, S>, s: S, m: nat): seq<X>
    decreases m
  {
    if m == 0 then []
    else
      match step(s)
      case Halts => []
      case Refuses => []
      case Dies(x) => [x]
      case Goes(x, s') => [x] + Trace(step, s', m - 1)
  }

  /** The state after `m` steps, or where it halts if that comes first; none if it fails. */
  function RunFor<X, S>(step: S -> Outcome<X, S>, s: S, m: nat): Option<S>
    decreases m
  {
    if m == 0 then Some(s)
    else
      match step(s)
      case Halts => Some(s)
      case Refuses => None
      case Dies(_) => None
      case Goes(_, s') => RunFor(step, s', m - 1)
  }

  /** However a run is cut into pieces, the pieces put together are the run. */
  lemma {:induction false} Splits<X, S>(step: S -> Outcome<X, S>, s: S, a: nat, b: nat)
    requires RunFor(step, s, a).Some?
    ensures var s' := RunFor(step, s, a).value;
      && RunFor(step, s, a + b) == RunFor(step, s', b)
      && Trace(step, s, a + b) == Trace(step, s, a) + Trace(step, s', b)
    decreases a
  {
    if a > 0 && step(s).Goes? {
      Splits(step, step(s).next, a - 1, b);
    }
  }

  /** What every step keeps is kept by runs, and a machine whose every step goes on never fails. */
  lemma {:induction false} Keeps<X, S(!new)>(step: S -> Outcome<X, S>, inv: S -> bool, s: S, m: nat)
    requires inv(s) && forall x :: inv(x) && step(x).Goes? ==> inv(step(x).next)
    ensures RunFor(step, s, m).Some? ==> inv(RunFor(step, s, m).value)
    ensures (forall x :: inv(x) ==> step(x).Halts? || step(x).Goes?) ==> RunFor(step, s, m).Some?
    decreases m
  {
    if m > 0 && step(s).Goes? {
      Keeps(step, inv, step(s).next, m - 1);
    }
  }

  /** A shorter run does the beginning of a longer one, and all of it if it stops earlier. */
  lemma {:induction false} Prefix<X, S>(step: S -> Outcome<X, S>, s: S, m: nat, m': nat)
    requires m <= m'
    ensures var (t, t') := (Trace(step, s, m), Trace(step, s, m')); |t| <= m && t <= t' && (|t| < m ==> t == t')
    decreases m
  {
    if m > 0 && step(s).Goes? {
      Prefix(step, step(s).next, m - 1, m' - 1);
    }
  }

  /** Two machines do the same in a step, and are related afterwards. */
  predicate Alike<X(==), S, T>(o: Outcome<X, S>, p: Outcome<X, T>, related: (S, T) -> bool) {
    match o
    case Halts => p.Halts?
    case Refuses => p.Refuses?
    case Dies(x) => p.Dies? && p.did == x
    case Goes(x, s') => p.Goes? && p.did == x && related(s', p.next)
  }

  /** Machines that are related, and stay so with every step, do the same in every run and end alike. */
  lemma {:induction false} Simulates<X, S(!new), T(!new)>(step1: S -> Outcome<X, S>, step2: T -> Outcome<X, T>,
                                                          related: (S, T) -> bool, s: S, t: T, m: nat)
    requires related(s, t) && forall x, y :: related(x, y) ==> Alike(step1(x), step2(y), related)
    ensures Trace(step1, s, m) == Trace(step2, t, m)
    ensures var (r, q) := (RunFor(step1, s, m), RunFor(step2, t, m));
      (r.Some? <==> q.Some?) && (r.Some? ==> related(r.value, q.value))
    decreases m
  {
    if m > 0 && step1(s).Goes? {
      Simulates(step1, step2, related, step1(s).next, step2(t).next, m - 1);
    }
  }
}
