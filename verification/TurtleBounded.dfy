/**
 Every script, with endless loops nested in whatever way and with any counts: its first `m`
 statements by structural recursion.
 */
module TurtleBounded {
  import opened TurtleSpec
  import opened TurtleTheorems
  import opened Options
  import Stepping

  /** How the unrolling of a block or a loop ends: it is through, or a count is refused, or `m` statements are up. */
  datatype End = Through | AtRefusal | UsedUp

  datatype Part = Part(u: seq<Stmt>, end: End)

  /** A part, followed by another if it got through. */
  function Then(p: Part, q: Part): Part { if p.end.Through? then Part(p.u + q.u, q.end) else p }

  /** At most `m` statements: all of them if they are used up, and fewer before a count that is refused. */
  predicate Within(p: Part, m: nat) {
    |p.u| <= m && (p.end.UsedUp? ==> |p.u| == m) && (p.end.AtRefusal? ==> |p.u| < m)
  }

  /** At most `m` statements of a block, loops being unrolled as far as that goes. */
  function UnrollUpTo(stmts: seq<Stmt>, k: nat, m: nat, draws: Draws): (p: Part)
    ensures Within(p, m) && (stmts != [] && p.end.Through? ==> p.u != [])
    decreases m, 2
  {
    if stmts == [] then Part([], Through)
    else if m == 0 then Part([], UsedUp)
    else
      var first := StmtUpTo(stmts[0], k, m, draws);
      if !first.end.Through? then first
      else Then(first, UnrollUpTo(stmts[1..], k + |first.u|, m - |first.u|, draws))
  }

  /** One statement with everything it repeats. */
  function StmtUpTo(s: Stmt, k: nat, m: nat, draws: Draws): (p: Part)
    requires m > 0
    ensures Within(p, m) && (p.end.Through? ==> p.u != [])
    decreases m, 1
  {
    if Refused(s, k, draws) then Part([], AtRefusal)
    else if s.Repeat? then Then(Part([s], Through), LoopUpTo(s.body, Count(s, k, draws), k + 1, m - 1, draws))
    else Part([s], Through)
  }

  function LoopUpTo(body: seq<Stmt>, n: int, k: nat, m: nat, draws: Draws): (p: Part)
    ensures Within(p, m)
    decreases m, 3
  {
    if n == 0 || body == [] then Part([], Through)
    else
      var round := UnrollUpTo(body, k, m, draws);
      if !round.end.Through? then round
      else Then(round, LoopUpTo(body, Dec(n), k + |round.u|, m - |round.u|, draws))
  }

  // ---------------------------------------------------------------------------
  // The todo list executes it
  // ---------------------------------------------------------------------------

  /** The next statement is a loop whose count is refused. */
  predicate Stuck(todo: seq<Task>, k: nat, draws: Draws) {
    var t := Settle(todo);
    t != [] && Refused(t[0].s, k, draws)
  }

  /** Doing what is on `todo` executes `u`, after which `b` is left to do. */
  predicate Leaves(todo: seq<Task>, p: Part, k: nat, b: seq<Task>, next: seq<Task>, draws: Draws) {
    && Executes(todo, p.u, k, b, draws)
    && (p.end.Through? ==> b == next)
    && (p.end.AtRefusal? ==> Stuck(b, k + |p.u|, draws))
  }

  /** Doing what is on `todo` executes a part; if it gets through, `next` is left to do. */
  ghost predicate Does(todo: seq<Task>, p: Part, k: nat, next: seq<Task>, draws: Draws) {
    exists b :: Leaves(todo, p, k, b, next, draws)
  }

  lemma {:induction false} DoesThen(a: seq<Task>, p: Part, b: seq<Task>, q: Part, c: seq<Task>, k: nat, draws: Draws)
    requires Does(a, p, k, b, draws) && (p.end.Through? ==> Does(b, q, k + |p.u|, c, draws))
    ensures Does(a, Then(p, q), k, c, draws)
  {
    var d :| Leaves(a, p, k, d, b, draws);
    if p.end.Through? {
      var next :| Leaves(b, q, k + |p.u|, next, c, draws);
      Compose(a, p.u, b, q.u, next, k, draws);
      assert Leaves(a, Then(p, q), k, next, c, draws);
    } else {
      assert Leaves(a, Then(p, q), k, d, c, draws);
    }
  }

  lemma {:induction false} DoesNothing(todo: seq<Task>, k: nat, next: seq<Task>, end: End, draws: Draws)
    requires end.Through? ==> Settle(todo) == Settle(next)
    requires end.AtRefusal? ==> Stuck(todo, k, draws)
    ensures Does(todo, Part([], end), k, next, draws)
  {
    assert Leaves(todo, Part([], end), k, if end.Through? then next else todo, next, draws);
  }

  lemma {:induction false} DoesSettled(a: seq<Task>, a': seq<Task>, p: Part, k: nat, next: seq<Task>, draws: Draws)
    requires Settle(a) == Settle(a') && Does(a', p, k, next, draws)
    ensures Does(a, p, k, next, draws)
  {
    var b :| Leaves(a', p, k, b, next, draws);
    ExecutesSettled(a, a', p.u, k, b, draws);
    assert Leaves(a, p, k, b, next, draws);
  }

  /** A statement in front is executed. */
  lemma {:induction false} HeadExecutes(s: Stmt, tail: seq<Task>, k: nat, draws: Draws)
    requires !Refused(s, k, draws)
    ensures Does([Do(s)] + tail, Part([s], Through), k,
                 if s.Repeat? then [Again(s.body, Count(s, k, draws))] + tail else tail, draws)
  {
    var todo := [Do(s)] + tail;
    assert todo[1..] == tail && [s][1..] == [];
    assert Leaves(todo, Part([s], Through), k, After(Settle(todo), k, draws), After(Settle(todo), k, draws), draws);
  }

  lemma {:induction false} StmtDoes(s: Stmt, tail: seq<Task>, k: nat, m: nat, draws: Draws, p: Part)
    requires m > 0 && p == StmtUpTo(s, k, m, draws)
    ensures Does([Do(s)] + tail, p, k, tail, draws)
    decreases m, 1
  {
    var todo := [Do(s)] + tail;
    if Refused(s, k, draws) {
      DoesNothing(todo, k, tail, AtRefusal, draws);
    } else {
      HeadExecutes(s, tail, k, draws);
      if s.Repeat? {
        var n := Count(s, k, draws);
        var q := LoopUpTo(s.body, n, k + 1, m - 1, draws);
        LoopDoes(s.body, n, tail, k + 1, m - 1, draws, q);
        DoesThen(todo, Part([s], Through), [Again(s.body, n)] + tail, q, tail, k, draws);
      }
    }
  }

  lemma {:induction false} BlockDoes(stmts: seq<Stmt>, rest: seq<Task>, k: nat, m: nat, draws: Draws, p: Part)
    requires p == UnrollUpTo(stmts, k, m, draws)
    ensures Does(Dos(stmts) + rest, p, k, rest, draws)
    decreases m, 2
  {
    var todo := Dos(stmts) + rest;
    if stmts == [] || m == 0 {
      assert stmts == [] ==> todo == rest;
      DoesNothing(todo, k, rest, p.end, draws);
    } else {
      var (first, tail) := (StmtUpTo(stmts[0], k, m, draws), Dos(stmts[1..]) + rest);
      DosCons(stmts, rest);
      var q := Part([], Through);
      StmtDoes(stmts[0], tail, k, m, draws, first);
      if first.end.Through? {
        q := UnrollUpTo(stmts[1..], k + |first.u|, m - |first.u|, draws);
        BlockDoes(stmts[1..], rest, k + |first.u|, m - |first.u|, draws, q);
      }
      DoesThen(todo, first, tail, q, rest, k, draws);
    }
  }

  lemma {:induction false} RoundDoes(body: seq<Stmt>, n: int, rest: seq<Task>, k: nat, m: nat, draws: Draws, p: Part)
    requires n != 0 && body != [] && p == UnrollUpTo(body, k, m, draws)
    ensures Does([Again(body, n)] + rest, p, k, [Again(body, Dec(n))] + rest, draws)
    decreases m, 3
  {
    var (todo, next) := ([Again(body, n)] + rest, [Again(body, Dec(n))] + rest);
    assert todo[1..] == rest;
    assert Settle(todo) == Dos(body) + next == Settle(Dos(body) + next);
    BlockDoes(body, next, k, m, draws, p);
    DoesSettled(todo, Dos(body) + next, p, k, next, draws);
  }

  lemma {:induction false} LoopDoes(body: seq<Stmt>, n: int, rest: seq<Task>, k: nat, m: nat, draws: Draws, p: Part)
    requires p == LoopUpTo(body, n, k, m, draws)
    ensures Does([Again(body, n)] + rest, p, k, rest, draws)
    decreases m, 4
  {
    var todo := [Again(body, n)] + rest;
    if n == 0 || body == [] {
      assert todo[1..] == rest;
      DoesNothing(todo, k, rest, Through, draws);
    } else {
      var (round, next) := (UnrollUpTo(body, k, m, draws), [Again(body, Dec(n))] + rest);
      var q := Part([], Through);
      RoundDoes(body, n, rest, k, m, draws, round);
      if round.end.Through? {
        q := LoopUpTo(body, Dec(n), k + |round.u|, m - |round.u|, draws);
        LoopDoes(body, Dec(n), rest, k + |round.u|, m - |round.u|, draws, q);
      }
      DoesThen(todo, round, next, q, rest, k, draws);
    }
  }

  // ---------------------------------------------------------------------------
  // And so does the machine
  // ---------------------------------------------------------------------------

  lemma {:induction false} ExecutesStep(a: seq<Task>, u: seq<Stmt>, b: seq<Task>, k: nat, draws: Draws) returns (d: Doing)
    requires Executes(a, u, k, b, draws) && u != []
    ensures TodoStep(draws)(Doing(a, k)) == Stepping.Goes(u[0], d)
    ensures d.executed == k + 1 && Executes(d.todo, u[1..], k + 1, b, draws)
  {
    d := Doing(After(Settle(a), k, draws), k + 1);
  }

  /** Where the todo list stands when it has executed `u`. */
  lemma {:induction false} ExecutesRuns(a: seq<Task>, u: seq<Stmt>, b: seq<Task>, k: nat, m: nat, draws: Draws)
    returns (d: Doing)
    requires Executes(a, u, k, b, draws) && m >= |u|
    ensures d.executed == k + |u| && Settle(d.todo) == Settle(b)
    ensures Stepping.RunFor(TodoStep(draws), Doing(a, k), m) == Stepping.RunFor(TodoStep(draws), d, m - |u|)
    decreases |u|
  {
    if u == [] {
      d := Doing(a, k);
    } else {
      d := ExecutesStep(a, u, b, k, draws);
      d := ExecutesRuns(d.todo, u[1..], b, k + 1, m - 1, draws);
    }
  }

  /** How the run of the todo list goes on from there. */
  lemma {:induction false} EndsAs(p: Part, m: nat, b: seq<Task>, d: Doing, draws: Draws)
    requires Within(p, m) && Settle(d.todo) == Settle(b) && d.executed == |p.u|
    requires p.end.Through? ==> b == []
    requires p.end.AtRefusal? ==> Stuck(b, |p.u|, draws)
    ensures Stepping.RunFor(TodoStep(draws), d, m - |p.u|) == if p.end.AtRefusal? then None else Some(d)
  {
  }

  /** What the todo list executes in `m` steps. */
  lemma {:induction false} TodoExecutes(script: seq<Stmt>, m: nat, draws: Draws, p: Part) returns (b: seq<Task>)
    requires p == UnrollUpTo(script, 0, m, draws)
    ensures Leaves(Dos(script), p, 0, b, [], draws)
    ensures Exec(Dos(script), 0, m, draws) == p.u
  {
    BlockDoes(script, [], 0, m, draws, p);
    assert Dos(script) + [] == Dos(script);
    b :| Leaves(Dos(script), p, 0, b, [], draws);
    ExecutesExec(Dos(script), p.u, b, 0, m, draws);
    ExecStep(b, |p.u|, m - |p.u|, draws);
    assert p.u + [] == p.u;
  }

  /**
   Every script, with any counts, executes in any number of steps its structural unrolling. If that gets
   through, the machine is at the end of the script with an empty stack; if it comes to a count that is
   refused, the machine fails there; else it goes on.
   */
  lemma {:induction false} AnyScript(script: seq<Stmt>, m: nat, draws: Draws, p: Part)
    requires NonEmptyBodies(script) && p == UnrollUpTo(script, 0, m, draws)
    ensures Trace(script, Start(script), m, draws) == p.u
    ensures var r := RunFor(script, Start(script), m, draws);
      && (p.end.Through? ==> r == Some(Machine(None, [], |p.u|)))
      && (p.end.AtRefusal? <==> r.None?)
      && (p.end.UsedUp? ==> |p.u| == m)
  {
    MachineUnrolls(script, m, draws);
    var b := TodoExecutes(script, m, draws, p);
    var d := ExecutesRuns(Dos(script), p.u, b, 0, m, draws);
    EndsAs(p, m, b, d, draws);
    RunsAlike(script, m, draws);
    if p.end.Through? {
      EndsTogether(script, RunFor(script, Start(script), m, draws), d);
    }
  }

  /** When nothing is left to do the machine is at the end of the script. */
  lemma {:induction false} EndsTogether(script: seq<Stmt>, r: Option<Machine>, d: Doing)
    requires r.Some? && Alongside(script)(r.value, d) && Settle(d.todo) == []
    ensures r == Some(Machine(None, [], d.executed))
  {
    if r.value.at.Some? {
      TodoHead(script, r.value.at.value, r.value.stack);
    }
  }

  // ---------------------------------------------------------------------------
  // Scripts without endless loops
  // ---------------------------------------------------------------------------

  predicate Finite(stmts: seq<Stmt>) {
    forall i :: 0 <= i < |stmts| && stmts[i].Repeat? ==> !stmts[i].forever && Finite(stmts[i].body)
  }

  /** The whole unrolling of a block, up to the first count that is refused. */
  function UnrollAll(stmts: seq<Stmt>, k: nat, draws: Draws): (p: Part)
    requires Finite(stmts)
    ensures !p.end.UsedUp? && (Counts(draws) ==> p.end.Through?)
    decreases stmts, 0, 0
  {
    if stmts == [] then Part([], Through)
    else
      var first := StmtAll(stmts[0], k, draws);
      if !first.end.Through? then first else Then(first, UnrollAll(stmts[1..], k + |first.u|, draws))
  }

  function StmtAll(s: Stmt, k: nat, draws: Draws): (p: Part)
    requires s.Repeat? ==> !s.forever && Finite(s.body)
    ensures !p.end.UsedUp? && (Counts(draws) ==> p.end.Through?)
    decreases s, 0, 0
  {
    if Refused(s, k, draws) then Part([], AtRefusal)
    else if s.Repeat? then Then(Part([s], Through), LoopAll(s.body, draws(k), k + 1, draws))
    else Part([s], Through)
  }

  function LoopAll(body: seq<Stmt>, n: int, k: nat, draws: Draws): (p: Part)
    requires Finite(body) && n >= 0
    ensures !p.end.UsedUp? && (Counts(draws) ==> p.end.Through?)
    decreases body, 1, n
  {
    if n == 0 || body == [] then Part([], Through)
    else
      var round := UnrollAll(body, k, draws);
      if !round.end.Through? then round else Then(round, LoopAll(body, n - 1, k + |round.u|, draws))
  }

  /** With steps enough the bounded unrolling is the whole one. */
  lemma {:induction false} EnoughSteps(stmts: seq<Stmt>, k: nat, m: nat, draws: Draws)
    requires Finite(stmts) && Within(UnrollAll(stmts, k, draws), m)
    ensures UnrollUpTo(stmts, k, m, draws) == UnrollAll(stmts, k, draws)
    decreases stmts, 0, 0
  {
    if stmts != [] {
      var first := StmtAll(stmts[0], k, draws);
      EnoughForStmt(stmts[0], k, m, draws);
      if first.end.Through? {
        EnoughSteps(stmts[1..], k + |first.u|, m - |first.u|, draws);
      }
    }
  }

  lemma {:induction false} EnoughForStmt(s: Stmt, k: nat, m: nat, draws: Draws)
    requires (s.Repeat? ==> !s.forever && Finite(s.body)) && Within(StmtAll(s, k, draws), m)
    ensures m > 0 && StmtUpTo(s, k, m, draws) == StmtAll(s, k, draws)
    decreases s, 0, 0
  {
    if !Refused(s, k, draws) && s.Repeat? {
      EnoughRounds(s.body, draws(k), k + 1, m - 1, draws);
    }
  }

  lemma {:induction false} EnoughRounds(body: seq<Stmt>, n: int, k: nat, m: nat, draws: Draws)
    requires Finite(body) && n >= 0 && Within(LoopAll(body, n, k, draws), m)
    ensures LoopUpTo(body, n, k, m, draws) == LoopAll(body, n, k, draws)
    decreases body, 1, n
  {
    if n > 0 && body != [] {
      var round := UnrollAll(body, k, draws);
      EnoughSteps(body, k, m, draws);
      if round.end.Through? {
        EnoughRounds(body, n - 1, k + |round.u|, m - |round.u|, draws);
      }
    }
  }

  /**
   A script without endless loops, with any counts, executes its whole unrolling, cut to the number of steps.
   It then is at its end with an empty stack, unless a count is refused: then it fails there and not before.
   */
  lemma {:induction false} FiniteScript(script: seq<Stmt>, m: nat, draws: Draws, p: Part)
    requires NonEmptyBodies(script) && Finite(script) && p == UnrollAll(script, 0, draws)
    ensures Trace(script, Start(script), m, draws) == if m < |p.u| then p.u[..m] else p.u
    ensures var r := RunFor(script, Start(script), m, draws);
      && (r.None? <==> p.end.AtRefusal? && m > |p.u|)
      && (p.end.Through? && m >= |p.u| ==> r == Some(Machine(None, [], |p.u|)))
  {
    var all := if m > |p.u| then m else |p.u| + 1;
    EnoughSteps(script, 0, all, draws);
    AnyScript(script, all, draws, p);
    Stepping.Prefix(Stepper(script, draws), Start(script), m, all);
    AnyScript(script, m, draws, UnrollUpTo(script, 0, m, draws));
    if p.end.Through? && m >= |p.u| {
      EnoughSteps(script, 0, m, draws);
    }
  }

  // ---------------------------------------------------------------------------
  // Scripts that come to an endless loop
  // ---------------------------------------------------------------------------

  lemma {:induction false} AllDoes(stmts: seq<Stmt>, rest: seq<Task>, k: nat, draws: Draws, p: Part)
    requires Finite(stmts) && p == UnrollAll(stmts, k, draws)
    ensures Does(Dos(stmts) + rest, p, k, rest, draws)
  {
    EnoughSteps(stmts, k, |p.u| + 1, draws);
    BlockDoes(stmts, rest, k, |p.u| + 1, draws, p);
  }

  /** An endless loop executes any number of rounds of its body, and is then where it was. */
  lemma {:induction false} EndlessLoop(body: seq<Stmt>, rest: seq<Task>, rounds: nat, k: nat, draws: Draws, q: Part)
    requires Finite(body) && q == LoopAll(body, rounds, k, draws)
    ensures var loop := [Again(body, INFINITE)] + rest;
      Does(loop, q, k, loop, draws)
    decreases rounds
  {
    var loop := [Again(body, INFINITE)] + rest;
    if rounds == 0 || body == [] {
      DoesNothing(loop, k, loop, Through, draws);
    } else {
      var round := UnrollAll(body, k, draws);
      EnoughSteps(body, k, |round.u| + 1, draws);
      RoundDoes(body, INFINITE, rest, k, |round.u| + 1, draws, round);
      if round.end.Through? {
        var q' := LoopAll(body, rounds - 1, k + |round.u|, draws);
        EndlessLoop(body, rest, rounds - 1, k + |round.u|, draws, q');
        DoesThen(loop, round, loop, q', loop, k, draws);
      }
    }
  }

  /** What is executed of a script that comes to an endless loop: what stands before it, and rounds of it. */
  function BeforeAndRounds(before: seq<Stmt>, loop: Stmt, rounds: nat, draws: Draws): Part
    requires Finite(before) && loop.Repeat? && Finite(loop.body)
  {
    var p := UnrollAll(before, 0, draws);
    Then(p, Then(Part([loop], Through), LoopAll(loop.body, rounds, |p.u| + 1, draws)))
  }

  lemma {:induction false} EndlessDoes(before: seq<Stmt>, loop: Stmt, rest: seq<Task>, rounds: nat, draws: Draws)
    requires Finite(before) && loop.Repeat? && loop.forever && Finite(loop.body)
    ensures Does(Dos(before) + ([Do(loop)] + rest), BeforeAndRounds(before, loop, rounds, draws), 0,
                 [Again(loop.body, INFINITE)] + rest, draws)
  {
    var (p, next, again) := (UnrollAll(before, 0, draws), [Do(loop)] + rest, [Again(loop.body, INFINITE)] + rest);
    var q := LoopAll(loop.body, rounds, |p.u| + 1, draws);
    AllDoes(before, next, 0, draws, p);
    HeadExecutes(loop, rest, |p.u|, draws);
    EndlessLoop(loop.body, rest, rounds, |p.u| + 1, draws, q);
    DoesThen(next, Part([loop], Through), again, q, again, |p.u|, draws);
    DoesThen(Dos(before) + next, p, next, Then(Part([loop], Through), q), again, 0, draws);
  }

  /**
   A script that comes to an endless loop executes what stands before it and then, for every
   number, that many rounds of its body, unless a count is refused on the way.
   */
  lemma {:induction false} EndlessScript(before: seq<Stmt>, loop: Stmt, after: seq<Stmt>, rounds: nat, draws: Draws)
    requires NonEmptyBodies(before + [loop] + after) && Finite(before)
    requires loop.Repeat? && loop.forever && Finite(loop.body)
    ensures var script := before + [loop] + after;
      var v := BeforeAndRounds(before, loop, rounds, draws);
      Trace(script, Start(script), |v.u|, draws) == v.u && (Counts(draws) ==> v.end.Through?)
  {
    var (script, v) := (before + [loop] + after, BeforeAndRounds(before, loop, rounds, draws));
    var again := [Again(loop.body, INFINITE)] + Dos(after);
    assert Dos(script) == Dos(before) + ([Do(loop)] + Dos(after));
    EndlessDoes(before, loop, Dos(after), rounds, draws);
    var b :| Leaves(Dos(script), v, 0, b, again, draws);
    ExecutesAll(Dos(script), v.u, b, draws);
    MachineUnrolls(script, |v.u|, draws);
  }
}
