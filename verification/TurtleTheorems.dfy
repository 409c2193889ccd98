/**
 The pointer and the counter stack execute exactly the unrolled script.
 */
module TurtleTheorems {
  import opened TurtleSpec
  import opened Options
  import Stepping

  // ---------------------------------------------------------------------------
  // What is left to do at a machine state
  // ---------------------------------------------------------------------------

  /** `stack[0]` counts the outermost loop; inside a loop the current round is not counted any more. */
  function Todo(script: seq<Stmt>, path: seq<nat>, stack: seq<int>): seq<Task>
    requires ValidPath(script, path) && |stack| == |path| - 1
  {
    if |path| == 1 then Dos(script[path[0]..])
    else
      var body := script[path[0]].body;
      Todo(body, path[1..], stack[1..]) + [Again(body, Dec(stack[0]))] + Dos(script[path[0] + 1..])
  }

  /** Counters of loops that are being run: positive, or without end. */
  predicate Live(stack: seq<int>) {
    forall i :: 0 <= i < |stack| ==> stack[i] == INFINITE || stack[i] > 0
  }

  /** The stack is as deep as the pointer is nested, and empty at the end. */
  predicate Good(script: seq<Stmt>, at: Option<seq<nat>>, stack: seq<int>) {
    if at.Some? then ValidPath(script, at.value) && |stack| == |at.value| - 1 && Live(stack) else stack == []
  }

  function TodoAt(script: seq<Stmt>, at: Option<seq<nat>>, stack: seq<int>): seq<Task>
    requires Good(script, at, stack)
  {
    if at.Some? then Todo(script, at.value, stack) else []
  }

  lemma {:induction false} TodoHead(script: seq<Stmt>, path: seq<nat>, stack: seq<int>)
    requires ValidPath(script, path) && |stack| == |path| - 1
    ensures Todo(script, path, stack) != [] && Todo(script, path, stack)[0] == Do(Node(script, path))
  {
    if |path| > 1 {
      TodoHead(script[path[0]].body, path[1..], stack[1..]);
    }
  }

  lemma {:induction false} NodeNonEmpty(script: seq<Stmt>, path: seq<nat>)
    requires ValidPath(script, path) && NonEmptyBodies(script)
    ensures Node(script, path).Repeat? ==> HasChild(Node(script, path))
  {
    if |path| > 1 {
      NodeNonEmpty(script[path[0]].body, path[1..]);
    }
  }

  /** The same list, seen from the innermost loop. */
  lemma {:induction false} TodoInner(script: seq<Stmt>, path: seq<nat>, stack: seq<int>)
    requires ValidPath(script, path) && |path| > 1 && |stack| == |path| - 1
    ensures var up := path[..|path| - 1]; var body := Block(script, path);
      && ValidPath(script, up)
      && Todo(script, path, stack) ==
           Dos(body[Last(path)..]) + [Again(body, Dec(stack[|stack| - 1]))] + Todo(script, up, stack[..|stack| - 1])[1..]
  {
    ParentValid(script, path);
    var up := path[..|path| - 1];
    var b := script[path[0]].body;
    var rest := [Again(b, Dec(stack[0]))] + Dos(script[path[0] + 1..]);
    if |path| == 2 {
      assert Todo(script, up, []) == Dos(script[path[0]..]);
      assert Dos(script[path[0]..])[1..] == Dos(script[path[0] + 1..]);
    } else {
      TodoInner(b, path[1..], stack[1..]);
      assert path[1..][..|path| - 2] == up[1..];
      assert stack[1..][..|stack| - 2] == stack[..|stack| - 1][1..];
      TodoHead(b, up[1..], stack[..|stack| - 1][1..]);
      var inner := Todo(b, up[1..], stack[..|stack| - 1][1..]);
      assert Todo(script, up, stack[..|stack| - 1]) == inner + rest;
      assert (inner + rest)[1..] == inner[1..] + rest;
    }
  }

  // ---------------------------------------------------------------------------
  // Moving the pointer is unrolling the list
  // ---------------------------------------------------------------------------

  /** At the end of a round the loop starts over, one round less being left. */
  lemma {:induction false} LoopsAgain(script: seq<Stmt>, path: seq<nat>, stack: seq<int>, n: int)
    requires ValidPath(script, path) && |path| > 1 && |stack| == |path| - 1 && n != 0
    ensures var (p, st) := (path[..|path| - 1] + [0], stack[..|stack| - 1] + [n]);
      && ValidPath(script, path[..|path| - 1]) && ValidPath(script, p)
      && var (block, above) := (Block(script, path), Todo(script, path[..|path| - 1], stack[..|stack| - 1]));
         above != [] && Todo(script, p, st) == Settle([Again(block, n)] + above[1..])
  {
    var (up, below, block) := (path[..|path| - 1], stack[..|stack| - 1], Block(script, path));
    ParentValid(script, path);
    TodoHead(script, up, below);
    SiblingValid(script, path, 0);
    var (p, st) := (up + [0], below + [n]);
    TodoInner(script, p, st);
    assert p[..|p| - 1] == up && st[..|st| - 1] == below && block[0..] == block;
    var todo := [Again(block, n)] + Todo(script, up, below)[1..];
    assert todo[1..] == Todo(script, up, below)[1..];
  }

  lemma {:induction false} LeaveSettles(script: seq<Stmt>, path: seq<nat>, stack: seq<int>)
    requires ValidPath(script, path) && |stack| == |path| - 1 && Live(stack)
    ensures var w := Leave(script, path, stack); var todo := Todo(script, path, stack);
      && w.Next? && Good(script, w.at, w.stack)
      && todo != [] && TodoAt(script, w.at, w.stack) == Settle(todo[1..])
    decreases |path|
  {
    var todo := Todo(script, path, stack);
    TodoHead(script, path, stack);
    var (i, block) := (Last(path), Block(script, path));
    if i + 1 < |block| {
      NextSibling(script, path, stack);
    } else if |path| > 1 {
      var (up, below) := (path[..|path| - 1], stack[..|stack| - 1]);
      var n := Dec(stack[|stack| - 1]);
      if n != 0 {
        TodoInner(script, path, stack);
        assert todo[1..] == [Again(block, n)] + Todo(script, up, below)[1..];
        LoopsAgain(script, path, stack, n);
      } else {
        LoopDone(script, path, stack);
        LeaveSettles(script, up, below);
      }
    }
  }

  /** At the end of the last round the loop is left as one leaves the statement that repeats it. */
  lemma {:induction false} LoopDone(script: seq<Stmt>, path: seq<nat>, stack: seq<int>)
    requires ValidPath(script, path) && |path| > 1 && |stack| == |path| - 1
    requires Last(path) + 1 == |Block(script, path)| && Dec(stack[|stack| - 1]) == 0
    ensures var (up, below) := (path[..|path| - 1], stack[..|stack| - 1]);
      && ValidPath(script, up) && Leave(script, path, stack) == Leave(script, up, below)
      && Todo(script, path, stack) != [] && Todo(script, up, below) != []
      && Settle(Todo(script, path, stack)[1..]) == Settle(Todo(script, up, below)[1..])
  {
    var (up, below, block) := (path[..|path| - 1], stack[..|stack| - 1], Block(script, path));
    ParentValid(script, path);
    assert (below + [0])[..|below|] == below;
    TodoHead(script, path, stack);
    TodoHead(script, up, below);
    TodoInner(script, path, stack);
    var rest := Todo(script, path, stack)[1..];
    assert rest == [Again(block, 0)] + Todo(script, up, below)[1..];
    assert rest[1..] == Todo(script, up, below)[1..];
  }

  lemma {:induction false} NextSibling(script: seq<Stmt>, path: seq<nat>, stack: seq<int>)
    requires ValidPath(script, path) && |stack| == |path| - 1 && Last(path) + 1 < |Block(script, path)|
    ensures var p := path[..|path| - 1] + [Last(path) + 1];
      ValidPath(script, p) && Todo(script, path, stack) != []
      && Todo(script, p, stack) == Todo(script, path, stack)[1..] && Todo(script, p, stack) != [] && Todo(script, p, stack)[0].Do?
  {
    SiblingValid(script, path, Last(path) + 1);
    var p := path[..|path| - 1] + [Last(path) + 1];
    TodoHead(script, path, stack);
    TodoHead(script, p, stack);
    if |path| > 1 {
      NextSibling(script[path[0]].body, path[1..], stack[1..]);
      assert path[1..][..|path| - 2] + [Last(path) + 1] == p[1..];
    }
  }

  lemma {:induction false} EnterBody(script: seq<Stmt>, path: seq<nat>, stack: seq<int>, n: int)
    requires Good(script, Some(path), stack) && HasChild(Node(script, path)) && n != 0
    ensures ValidPath(script, path + [0])
    ensures var (s, todo) := (Node(script, path), Todo(script, path, stack));
      todo != [] && Todo(script, path + [0], stack + [n]) == Dos(s.body) + [Again(s.body, Dec(n))] + todo[1..]
  {
    TodoHead(script, path, stack);
    ChildValid(script, path);
    TodoInner(script, path + [0], stack + [n]);
    assert (path + [0])[..|path|] == path && (stack + [n])[..|stack|] == stack;
    assert Node(script, path).body[0..] == Node(script, path).body;
  }

  /** Entering a loop, or skipping it if its count is 0. */
  lemma {:induction false} EnterSettles(script: seq<Stmt>, path: seq<nat>, stack: seq<int>, n: int)
    requires Good(script, Some(path), stack) && HasChild(Node(script, path)) && (n == INFINITE || n >= 0)
    ensures var w := Goto(script, path, stack + [n]); var todo := Todo(script, path, stack);
      && w.Next? && Good(script, w.at, w.stack)
      && todo != []
      && TodoAt(script, w.at, w.stack) == Settle([Again(Node(script, path).body, n)] + todo[1..])
  {
    var (s, todo) := (Node(script, path), Todo(script, path, stack));
    TodoHead(script, path, stack);
    assert ([Again(s.body, n)] + todo[1..])[1..] == todo[1..];
    if n != 0 {
      EnterBody(script, path, stack, n);
    } else {
      assert (stack + [n])[..|stack|] == stack;
      LeaveSettles(script, path, stack);
    }
  }

  /** One statement of the machine is one statement of the todo list; no assertion fails. */
  lemma {:induction false} AdvanceSimulates(script: seq<Stmt>, mc: Machine, draws: Draws)
    requires NonEmptyBodies(script) && mc.at.Some? && Good(script, mc.at, mc.stack)
    requires !Refused(Node(script, mc.at.value), mc.executed, draws)
    ensures var r := Advance(script, mc, draws); var todo := TodoAt(script, mc.at, mc.stack);
      && r.Some? && Good(script, r.value.at, r.value.stack) && r.value.executed == mc.executed + 1
      && todo != [] && todo[0] == Do(Node(script, mc.at.value))
      && TodoAt(script, r.value.at, r.value.stack) == Settle(After(todo, mc.executed, draws))
  {
    var (path, stack) := (mc.at.value, mc.stack);
    TodoHead(script, path, stack);
    var s := Node(script, path);
    NodeNonEmpty(script, path);
    if s.Repeat? {
      EnterSettles(script, path, stack, Count(s, mc.executed, draws));
    } else {
      LeaveSettles(script, path, stack);
    }
  }

  /** Doing what is on `todo` executes exactly the statements `u`, and then `next` is left to do. */
  predicate Executes(todo: seq<Task>, u: seq<Stmt>, k: nat, next: seq<Task>, draws: Draws)
    decreases |u|
  {
    var t := Settle(todo);
    if u == [] then t == Settle(next)
    else
      && t != [] && !Refused(t[0].s, k, draws) && t[0].s == u[0]
      && Executes(After(t, k, draws), u[1..], k + 1, next, draws)
  }

  lemma {:induction false} Compose(a: seq<Task>, u: seq<Stmt>, b: seq<Task>, v: seq<Stmt>, c: seq<Task>, k: nat,
                                   draws: Draws)
    requires Executes(a, u, k, b, draws) && Executes(b, v, k + |u|, c, draws)
    ensures Executes(a, u + v, k, c, draws)
    decreases |u|
  {
    if u == [] {
      assert u + v == v;
    } else {
      assert (u + v)[1..] == u[1..] + v;
      Compose(After(Settle(a), k, draws), u[1..], b, v, c, k + 1, draws);
    }
  }

  lemma {:induction false} Glue<T>(u: seq<T>, e: seq<T>)
    requires u != []
    ensures [u[0]] + (u[1..] + e) == u + e
  {
  }

  lemma {:induction false} ExecStep(todo: seq<Task>, k: nat, m: nat, draws: Draws)
    ensures var t := Settle(todo);
      Exec(todo, k, m, draws) ==
      if m == 0 || t == [] || Refused(t[0].s, k, draws) then []
      else [t[0].s] + Exec(After(t, k, draws), k + 1, m - 1, draws)
  {
  }

  /** `x` is what `m` steps execute, `e` what is executed after `u`. */
  lemma {:induction false} ExecutesFirst(a: seq<Task>, u: seq<Stmt>, b: seq<Task>, k: nat, m: nat, draws: Draws,
                                         x: seq<Stmt>, e: seq<Stmt>)
    requires Executes(a, u, k, b, draws) && m >= |u|
    requires x == Exec(a, k, m, draws) && e == Exec(b, k + |u|, m - |u|, draws)
    ensures x == u + e
    decreases |u|
  {
    ExecStep(a, k, m, draws);
    if u == [] {
      ExecStep(b, k, m, draws);
      assert [] + e == e;
    } else {
      var a' := After(Settle(a), k, draws);
      ExecutesFirst(a', u[1..], b, k + 1, m - 1, draws, Exec(a', k + 1, m - 1, draws), e);
      Glue(u, e);
    }
  }

  lemma {:induction false} ExecutesExec(a: seq<Task>, u: seq<Stmt>, b: seq<Task>, k: nat, m: nat, draws: Draws)
    requires Executes(a, u, k, b, draws) && m >= |u|
    ensures Exec(a, k, m, draws) == u + Exec(b, k + |u|, m - |u|, draws)
  {
    ExecutesFirst(a, u, b, k, m, draws, Exec(a, k, m, draws), Exec(b, k + |u|, m - |u|, draws));
  }

  lemma {:induction false} ExecutesSettled(a: seq<Task>, a': seq<Task>, u: seq<Stmt>, k: nat, b: seq<Task>, draws: Draws)
    requires Settle(a) == Settle(a') && Executes(a', u, k, b, draws)
    ensures Executes(a, u, k, b, draws)
  {
  }

  // ---------------------------------------------------------------------------
  // The machine does what is on its todo list
  // ---------------------------------------------------------------------------

  /** The machine and the todo list stand at the same place. */
  function Alongside(script: seq<Stmt>): (Machine, Doing) -> bool {
    (mc: Machine, d: Doing) =>
      && Good(script, mc.at, mc.stack) && d.executed == mc.executed
      && Settle(d.todo) == TodoAt(script, mc.at, mc.stack)
  }

  lemma {:induction false} StepsAlike(script: seq<Stmt>, draws: Draws, mc: Machine, d: Doing)
    requires NonEmptyBodies(script) && Alongside(script)(mc, d)
    ensures Stepping.Alike(Stepper(script, draws)(mc), TodoStep(draws)(d), Alongside(script))
  {
    if mc.at.Some? {
      TodoHead(script, mc.at.value, mc.stack);
      if !Refused(Node(script, mc.at.value), mc.executed, draws) {
        AdvanceSimulates(script, mc, draws);
      }
    }
  }

  lemma {:induction false} TodoSettled(script: seq<Stmt>, mc: Machine)
    requires Good(script, mc.at, mc.stack)
    ensures var todo := TodoAt(script, mc.at, mc.stack); Settle(todo) == todo
  {
    if mc.at.Some? {
      TodoHead(script, mc.at.value, mc.stack);
    }
  }

  /** From any state, in any number of steps and with any counts, it executes the unrolled script. */
  lemma {:induction false} TraceIsExec(script: seq<Stmt>, mc: Machine, m: nat, draws: Draws)
    requires NonEmptyBodies(script) && Good(script, mc.at, mc.stack)
    ensures Trace(script, mc, m, draws) == Exec(TodoAt(script, mc.at, mc.stack), mc.executed, m, draws)
  {
    forall x, y | Alongside(script)(x, y)
      ensures Stepping.Alike(Stepper(script, draws)(x), TodoStep(draws)(y), Alongside(script))
    {
      StepsAlike(script, draws, x, y);
    }
    TodoSettled(script, mc);
    var d := Doing(TodoAt(script, mc.at, mc.stack), mc.executed);
    Stepping.Simulates(Stepper(script, draws), TodoStep(draws), Alongside(script), mc, d, m);
  }

  lemma {:induction false} StartTodo(script: seq<Stmt>)
    ensures var mc := Start(script); Good(script, mc.at, mc.stack) && TodoAt(script, mc.at, mc.stack) == Dos(script)
  {
    if script != [] {
      assert script[0..] == script;
    }
  }

  /** From the start, in any number of steps and with any counts, the unrolled script is executed. */
  lemma {:induction false} MachineUnrolls(script: seq<Stmt>, m: nat, draws: Draws)
    requires NonEmptyBodies(script)
    ensures Trace(script, Start(script), m, draws) == Exec(Dos(script), 0, m, draws)
  {
    StartTodo(script);
    TraceIsExec(script, Start(script), m, draws);
  }

  // ---------------------------------------------------------------------------
  // What holds at any time
  // ---------------------------------------------------------------------------

  ghost predicate Counts(draws: Draws) { forall k :: draws(k) >= 0 }

  function InPlace(script: seq<Stmt>): Machine -> bool { (mc: Machine) => Good(script, mc.at, mc.stack) }

  /**
   At any time the stack is as deep as the pointer is nested, and at the end of the script it is empty; if no
   count is refused the run does not fail.
   */
  lemma {:induction false} RunGood(script: seq<Stmt>, mc: Machine, m: nat, draws: Draws)
    requires NonEmptyBodies(script) && Good(script, mc.at, mc.stack)
    ensures var r := RunFor(script, mc, m, draws);
      (r.Some? ==> Good(script, r.value.at, r.value.stack)) && (Counts(draws) ==> r.Some?)
  {
    var step := Stepper(script, draws);
    forall x | InPlace(script)(x)
      ensures !step(x).Dies? && (Counts(draws) ==> !step(x).Refuses?)
      ensures step(x).Goes? ==> InPlace(script)(step(x).next)
    {
      if x.at.Some? && !Refused(Node(script, x.at.value), x.executed, draws) {
        AdvanceSimulates(script, x, draws);
      }
    }
    Stepping.Keeps(step, InPlace(script), mc, m);
  }

  /** The end of a run of the machine, and that of the todo list, stand at the same place. */
  lemma {:induction false} RunsAlike(script: seq<Stmt>, m: nat, draws: Draws)
    requires NonEmptyBodies(script)
    ensures var (r, q) := (RunFor(script, Start(script), m, draws),
                           Stepping.RunFor(TodoStep(draws), Doing(Dos(script), 0), m));
      (r.Some? <==> q.Some?) && (r.Some? ==> Alongside(script)(r.value, q.value))
  {
    forall x, y | Alongside(script)(x, y)
      ensures Stepping.Alike(Stepper(script, draws)(x), TodoStep(draws)(y), Alongside(script))
    {
      StepsAlike(script, draws, x, y);
    }
    StartTodo(script);
    TodoSettled(script, Start(script));
    Stepping.Simulates(Stepper(script, draws), TodoStep(draws), Alongside(script), Start(script), Doing(Dos(script), 0), m);
  }

  /** However a run is cut into pieces, the pieces put together are the run. */
  lemma {:induction false} TraceSplits(script: seq<Stmt>, mc: Machine, a: nat, b: nat, draws: Draws)
    requires Runs(script, mc) && RunFor(script, mc, a, draws).Some?
    ensures var mc' := RunFor(script, mc, a, draws).value;
      && Runs(script, mc')
      && RunFor(script, mc, a + b, draws) == RunFor(script, mc', b, draws)
      && Trace(script, mc, a + b, draws) == Trace(script, mc, a, draws) + Trace(script, mc', b, draws)
  {
    RunForRuns(script, mc, a, draws);
    Stepping.Splits(Stepper(script, draws), mc, a, b);
  }

  lemma {:induction false} RunForRuns(script: seq<Stmt>, mc: Machine, m: nat, draws: Draws)
    requires Runs(script, mc)
    ensures var r := RunFor(script, mc, m, draws); r.Some? ==> Runs(script, r.value)
  {
    var step := Stepper(script, draws);
    forall x | Runs(script, x) && step(x).Goes?
      ensures Runs(script, step(x).next)
    {
      AdvanceRuns(script, x, draws);
    }
    Stepping.Keeps(step, (x: Machine) => Runs(script, x), mc, m);
  }

  lemma {:induction false} DosCons(stmts: seq<Stmt>, rest: seq<Task>)
    requires stmts != []
    ensures Dos(stmts) + rest == [Do(stmts[0])] + (Dos(stmts[1..]) + rest)
  {
  }

  /** What is executed exactly is what that many steps execute. */
  lemma {:induction false} ExecutesAll(todo: seq<Task>, v: seq<Stmt>, next: seq<Task>, draws: Draws)
    requires Executes(todo, v, 0, next, draws)
    ensures Exec(todo, 0, |v|, draws) == v
  {
    ExecutesExec(todo, v, next, 0, |v|, draws);
    assert v + [] == v;
  }

  // ---------------------------------------------------------------------------
  // Loops with an empty body
  // ---------------------------------------------------------------------------

  function Orphan(s: Stmt): nat { if s.Repeat? && s.body == [] then 1 else 0 }

  /** A counter that was pushed for a loop with no body is never taken off again. */
  predicate Depth(script: seq<Stmt>, at: Option<seq<nat>>, stack: seq<int>, orphans: nat) {
    if at.Some? then ValidPath(script, at.value) && |stack| == |at.value| - 1 + orphans
    else stack == [] && orphans == 0
  }

  lemma {:induction false} LeaveDepth(script: seq<Stmt>, path: seq<nat>, stack: seq<int>, orphans: nat)
    requires Depth(script, Some(path), stack, orphans)
    ensures var w := Leave(script, path, stack);
      if w.Next? then Depth(script, w.at, w.stack, orphans) else orphans > 0
    decreases |path|
  {
    if Last(path) + 1 < |Block(script, path)| {
      SiblingValid(script, path, Last(path) + 1);
    } else if |path| > 1 {
      SiblingValid(script, path, 0);
      ParentValid(script, path);
      var n := Dec(stack[|stack| - 1]);
      var below := stack[..|stack| - 1];
      assert (below + [n])[..|below|] == below;
      LeaveDepth(script, path[..|path| - 1], below, orphans);
    }
  }

  /** An assertion fails only when such a counter is on the stack, and the script cannot end while one is. */
  lemma {:induction false} AdvanceDepth(script: seq<Stmt>, mc: Machine, draws: Draws, orphans: nat)
    requires mc.at.Some? && Depth(script, mc.at, mc.stack, orphans)
    requires !Refused(Node(script, mc.at.value), mc.executed, draws)
    ensures var r := Advance(script, mc, draws); var d := orphans + Orphan(Node(script, mc.at.value));
      if r.Some? then Depth(script, r.value.at, r.value.stack, d) else d > 0
  {
    var (path, stack) := (mc.at.value, mc.stack);
    var s := Node(script, path);
    if HasChild(s) {
      ChildValid(script, path);
      assert (stack + [Count(s, mc.executed, draws)])[..|stack|] == stack;
      LeaveDepth(script, path, stack, orphans);
    } else {
      LeaveDepth(script, path, Pushed(s, mc, draws), orphans + Orphan(s));
    }
  }

  function Orphans(stmts: seq<Stmt>): nat {
    if stmts == [] then 0 else Orphan(stmts[0]) + Orphans(stmts[1..])
  }

  lemma {:induction false} OrphansCons(s: Stmt, u: seq<Stmt>)
    ensures Orphans([s] + u) == Orphan(s) + Orphans(u)
  {
    assert ([s] + u)[1..] == u;
  }

  /** Of a run, `u` is the trace and `r` the result. */
  lemma {:induction false} OrphansCounted(script: seq<Stmt>, mc: Machine, m: nat, draws: Draws, orphans: nat,
                                          u: seq<Stmt>, r: Option<Machine>)
    requires Depth(script, mc.at, mc.stack, orphans) && Counts(draws)
    requires u == Trace(script, mc, m, draws) && r == RunFor(script, mc, m, draws)
    ensures var d := orphans + Orphans(u); if r.Some? then Depth(script, r.value.at, r.value.stack, d) else d > 0
    decreases m
  {
    if m > 0 && mc.at.Some? {
      var (s, next) := (Node(script, mc.at.value), Advance(script, mc, draws));
      AdvanceDepth(script, mc, draws, orphans);
      if next.Some? {
        var u' := Trace(script, next.value, m - 1, draws);
        assert u == [s] + u';
        OrphansCons(s, u');
        OrphansCounted(script, next.value, m - 1, draws, orphans + Orphan(s), u', r);
      } else {
        assert u == [s] + [];
        OrphansCons(s, []);
      }
    }
  }

  /** The stack is as deep as the pointer is nested. */
  predicate InStep(mc: Machine) {
    if mc.at.Some? then |mc.stack| == |mc.at.value| - 1 else mc.stack == []
  }

  /**
   The stack is as deep as the pointer is nested exactly as long as no loop with an empty body was
   executed. After that a run fails an assertion or goes on for ever: it never reaches the end of the script.
   */
  lemma {:induction false} EmptyBodyNeverEnds(script: seq<Stmt>, m: nat, draws: Draws)
    requires Counts(draws)
    ensures var r := RunFor(script, Start(script), m, draws);
      var executed := Orphans(Trace(script, Start(script), m, draws));
      && (r.None? ==> executed > 0)
      && (r.Some? ==> (InStep(r.value) <==> executed == 0))
      && (r.Some? && executed > 0 ==> r.value.at.Some?)
  {
    var mc := Start(script);
    OrphansCounted(script, mc, m, draws, 0, Trace(script, mc, m, draws), RunFor(script, mc, m, draws));
  }

  /** The shortest such script. */
  lemma {:induction false} EmptyBodyExample(draws: Draws)
    requires Counts(draws)
    ensures var script := [Repeat(0, false, [])]; RunFor(script, Start(script), 1, draws).None?
  {
    var script := [Repeat(0, false, [])];
    assert ValidPath(script, [0]) && Node(script, [0]) == script[0];
  }
}
