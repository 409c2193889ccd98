/**
 The turtle script interpreter: a statement pointer, a stack of loop variables and a
 target time, updated statement by statement until time has to pass.
 */
module TurtleModule {
  import opened TurtleSpec
  import opened TurtleTheorems
  import opened Options

  /** How long the k-th executed statement takes, should it be one that takes time. */
  type Times = nat -> real

  /** How long a statement takes that is executed as the k-th. */
  function Took(s: Stmt, k: nat, times: Times): real { if s.Simple? then times(k) else 0.0 }

  /** None of the first `n` statements of `u` takes time; the first of `u` is the k-th executed. */
  predicate NoTime(u: seq<Stmt>, n: int, k: nat, times: Times) {
    forall i :: 0 <= i < n && i < |u| ==> Took(u[i], k + i, times) == 0.0
  }

  /** The statement the pointer is at ends the present resumption: by an error, or by taking time. */
  predicate StopsHere(script: seq<Stmt>, mc: Machine, draws: Draws, times: Times)
    requires Runs(script, mc) && mc.at.Some?
  {
    var s := Node(script, mc.at.value);
    Advance(script, mc, draws).None? || (s.Simple? && times(mc.executed) != 0.0)
  }

  /** Within `bound` statements the resumption comes to an end. */
  ghost predicate Stops(script: seq<Stmt>, mc: Machine, bound: nat, draws: Draws, times: Times)
    requires Runs(script, mc)
    decreases bound
  {
    || mc.at.None?
    || StopsHere(script, mc, draws, times)
    || (bound > 0 &&
        (AdvanceRuns(script, mc, draws); Stops(script, Advance(script, mc, draws).value, bound - 1, draws, times)))
  }

  lemma {:induction false} OneMore(script: seq<Stmt>, start: Machine, steps: nat, mc: Machine, draws: Draws)
    requires Runs(script, start) && RunFor(script, start, steps, draws) == Some(mc)
    requires Runs(script, mc) && mc.at.Some? && Advance(script, mc, draws).Some?
    ensures RunFor(script, start, steps + 1, draws) == Advance(script, mc, draws)
    ensures Trace(script, start, steps + 1, draws) == Trace(script, start, steps, draws) + [Node(script, mc.at.value)]
  {
    TraceSplits(script, start, steps, 1, draws);
    AdvanceRuns(script, mc, draws);
    assert Trace(script, mc, 1, draws) == [Node(script, mc.at.value)];
  }

  /** From `start` the statements `u` were executed; only the last of them may have taken time, namely `elapsed`. */
  ghost predicate Resumed(script: seq<Stmt>, start: Machine, u: seq<Stmt>, mc: Machine, elapsed: real, draws: Draws,
                          times: Times)
    requires Runs(script, start)
  {
    && RunFor(script, start, |u|, draws) == Some(mc) && u == Trace(script, start, |u|, draws)
    && mc.executed == start.executed + |u|
    && NoTime(u, |u| - 1, start.executed, times)
    && elapsed == if u == [] then 0.0 else Took(u[|u| - 1], start.executed + |u| - 1, times)
  }

  lemma {:induction false} ResumedOn(script: seq<Stmt>, start: Machine, u: seq<Stmt>, mc: Machine, draws: Draws,
                                     times: Times, s: Stmt, mc': Machine)
    requires Runs(script, start) && Resumed(script, start, u, mc, 0.0, draws, times)
    requires Runs(script, mc) && mc.at.Some? && Advance(script, mc, draws) == Some(mc') && s == Node(script, mc.at.value)
    ensures Resumed(script, start, u + [s], mc', Took(s, mc.executed, times), draws, times)
  {
    OneMore(script, start, |u|, mc, draws);
    AdvanceRuns(script, mc, draws);
  }

  class TurtleMobility {
    const turtleScript: seq<Stmt>
    var nextStatement: Option<seq<nat>>
    var loopVars: seq<int>
    var targetTime: real
    var stationary: bool
    var executed: seq<Stmt>      // a log of what was done

    ghost function Abs(): Machine
      reads this
    {
      Machine(nextStatement, loopVars, |executed|)
    }

    ghost predicate Valid()
      reads this
    {
      Runs(turtleScript, Abs())
    }

    constructor (script: seq<Stmt>, now: real)
      ensures Valid() && turtleScript == script && Abs() == Start(script) && targetTime == now && executed == []
    {
      turtleScript := script;
      nextStatement := if script == [] then None else Some([0]);
      loopVars, targetTime, stationary, executed := [], now, false, [];
    }

    /** Negative counts and negative times are errors. */
    method ExecuteStatement(n: int, t: real) returns (ok: bool)
      requires Valid() && nextStatement.Some?
      modifies `loopVars, `targetTime
      ensures var s := Node(turtleScript, nextStatement.value);
        && (ok <==> if s.Repeat? then s.forever || n >= 0 else t >= 0.0)
        && (ok && s.Repeat? ==>
              loopVars == old(loopVars) + [if s.forever then INFINITE else n] && targetTime == old(targetTime))
        && (ok && s.Simple? ==> loopVars == old(loopVars) && targetTime == old(targetTime) + t)
    {
      var stmt := Node(turtleScript, nextStatement.value);
      if stmt.Repeat? {
        var count := INFINITE;
        if !stmt.forever {
          count := n;
          if count < 0 {
            return false;
          }
        }
        loopVars := loopVars + [count];
      } else {
        if t < 0.0 {
          return false;
        }
        targetTime := targetTime + t;
      }
      return true;
    }

    /** Moves the pointer; `ok` is false where an assertion of the source fails. */
    method GotoNextStatement() returns (ok: bool)
      requires Valid() && nextStatement.Some?
      modifies `nextStatement, `loopVars
      ensures var w := Goto(turtleScript, old(nextStatement).value, old(loopVars));
        && ok == w.Next?
        && (ok ==> Valid() && nextStatement == w.at && loopVars == w.stack)
      decreases if nextStatement.Some? then |nextStatement.value| else 0
    {
      var path := nextStatement.value;
      GotoValid(turtleScript, path, loopVars);
      var hasChild := HasChild(Node(turtleScript, path));
      if hasChild && loopVars == [] {
        return false;
      }
      if hasChild && loopVars[|loopVars| - 1] != 0 {
        nextStatement := Some(path + [0]);
        return true;
      }
      if hasChild {
        loopVars := loopVars[..|loopVars| - 1];
      }
      var (i, up) := (Last(path), path[..|path| - 1]);
      if i + 1 < |Block(turtleScript, path)| {
        nextStatement := Some(up + [i + 1]);
        return true;
      }
      if |path| == 1 {
        nextStatement := None;
        return loopVars == [];
      }
      if loopVars == [] {
        return false;
      }
      loopVars := loopVars[..|loopVars| - 1] + [Dec(loopVars[|loopVars| - 1])];
      if loopVars[|loopVars| - 1] != 0 {
        nextStatement := Some(up + [0]);
        return true;
      }
      ParentValid(turtleScript, path);
      nextStatement := Some(up);
      ok := GotoNextStatement();
    }

    /** Execute one statement and move on. */
    method ExecuteAndGoto(n: int, t: real, ghost draws: Draws) returns (ok: bool)
      requires Valid() && nextStatement.Some? && n == draws(|executed|)
      modifies `nextStatement, `loopVars, `targetTime, `executed
      ensures var s := Node(turtleScript, old(nextStatement).value); var r := Advance(turtleScript, old(Abs()), draws);
        && (ok <==> r.Some? && (s.Simple? ==> t >= 0.0))
        && (ok ==> Valid() && Abs() == r.value && executed == old(executed) + [s])
        && (ok ==> targetTime == old(targetTime) + if s.Simple? then t else 0.0)
    {
      var s := Node(turtleScript, nextStatement.value);
      ok := ExecuteStatement(n, t);
      if ok {
        ok := GotoNextStatement();
      }
      executed := executed + [s];
    }

    /**
     Executes statements until one has taken time, the script ends or an error occurs, and
     goes exactly `steps` statements further in the run of the machine. It fails exactly where the
     machine cannot go on or a time is negative.
     */
    method ResumeScript(draws: Draws, times: Times, ghost bound: nat) returns (ok: bool, ghost steps: nat)
      requires Valid() && Stops(turtleScript, Abs(), bound, draws, times)
      modifies this
      ensures ok ==>
        && Valid()
        && RunFor(turtleScript, old(Abs()), steps, draws) == Some(Abs())
        && executed == old(executed) + Trace(turtleScript, old(Abs()), steps, draws)
        && (nextStatement.None? || targetTime > old(targetTime))
        && (stationary <==> old(stationary) || old(nextStatement).None?)
      ensures ok && old(nextStatement).None? ==> steps == 0 && targetTime == old(targetTime)
      ensures ok && old(nextStatement).Some? ==>
        var (u, k) := (Trace(turtleScript, old(Abs()), steps, draws), |old(executed)|);
        && u != [] && NoTime(u, |u| - 1, k, times)
        && targetTime == old(targetTime) + Took(u[|u| - 1], k + |u| - 1, times)
      ensures !ok ==>
        var r := RunFor(turtleScript, old(Abs()), steps, draws);
        && NoTime(Trace(turtleScript, old(Abs()), steps, draws), steps, |old(executed)|, times)
        && r.Some? && Runs(turtleScript, r.value) && r.value.at.Some?
        && (Advance(turtleScript, r.value, draws).None?
            || Took(Node(turtleScript, r.value.at.value), r.value.executed, times) < 0.0)
    {
      steps := 0;
      ok := true;
      if nextStatement.None? {
        stationary := true;
        return;
      }
      var now := targetTime;
      ghost var left := bound;
      ghost var u: seq<Stmt> := [];
      while nextStatement.Some? && targetTime == now
        invariant Valid() && ok && now == old(targetTime) <= targetTime && stationary == old(stationary)
        invariant Resumed(turtleScript, old(Abs()), u, Abs(), targetTime - now, draws, times)
        invariant executed == old(executed) + u && |u| == steps && (u == [] ==> nextStatement.Some?)
        invariant nextStatement.Some? && targetTime == now ==> Stops(turtleScript, Abs(), left, draws, times)
        decreases if nextStatement.Some? && targetTime == now then left + 1 else 0
      {
        ghost var mc := Abs();
        var k := |executed|;
        ok := ExecuteAndGoto(draws(k), times(k), draws);
        if !ok {
          return;
        }
        ResumedOn(turtleScript, old(Abs()), u, mc, draws, times, Node(turtleScript, mc.at.value), Abs());
        u := u + [Node(turtleScript, mc.at.value)];
        steps := steps + 1;
        left := if left > 0 then left - 1 else 0;
      }
    }
  }
}
