/**
 Turtle scripts: what nested <repeat> loops mean, and how the script pointer and the
 stack of loop counters move.

 The meaning is loop unrolling: a todo list in which `repeat n {B}` is rewritten to B
 followed by `repeat n-1 {B}`. A loop without a count is repeated for ever.
 */
module TurtleSpec {
  import opened Options
  import Stepping

  datatype Stmt =
    | Simple(id: nat)
    | Repeat(id: nat, forever: bool, body: seq<Stmt>)

  /** The repeat count the k-th executed statement evaluates to, should it be a counted loop. */
  type Draws = nat -> int

  const INFINITE := -1

  function Count(s: Stmt, k: nat, draws: Draws): int
    requires s.Repeat?
  {
    if s.forever then INFINITE else draws(k)
  }

  /** A negative count is an error. */
  predicate Refused(s: Stmt, k: nat, draws: Draws) {
    s.Repeat? && !s.forever && draws(k) < 0
  }

  function Dec(n: int): int { if n == INFINITE then INFINITE else n - 1 }

  predicate NonEmptyBodies(stmts: seq<Stmt>) {
    forall i :: 0 <= i < |stmts| && stmts[i].Repeat? ==> stmts[i].body != [] && NonEmptyBodies(stmts[i].body)
  }

  // ---------------------------------------------------------------------------
  // Meaning: the todo list
  // ---------------------------------------------------------------------------

  datatype Task = Do(s: Stmt) | Again(body: seq<Stmt>, n: int)

  function Dos(stmts: seq<Stmt>): seq<Task> {
    seq(|stmts|, i requires 0 <= i < |stmts| => Do(stmts[i]))
  }

  /** Unroll loops until a statement is in front. */
  function Settle(todo: seq<Task>): (r: seq<Task>)
    ensures r != [] ==> r[0].Do?
  {
    if todo == [] || todo[0].Do? then todo
    else if todo[0].n == 0 || todo[0].body == [] then Settle(todo[1..])
    else Dos(todo[0].body) + [Again(todo[0].body, Dec(todo[0].n))] + todo[1..]
  }

  /** What is left to do when the statement in front has been executed. */
  function After(todo: seq<Task>, k: nat, draws: Draws): seq<Task>
    requires todo != [] && todo[0].Do?
  {
    var s := todo[0].s;
    if s.Repeat? then [Again(s.body, Count(s, k, draws))] + todo[1..] else todo[1..]
  }

  /** What is left to do, and how many statements were executed before. */
  datatype Doing = Doing(todo: seq<Task>, executed: nat)

  function TodoStep(draws: Draws): Doing -> Stepping.Outcome<Stmt, Doing> {
    (d: Doing) =>
      var t := Settle(d.todo);
      if t == [] then Stepping.Halts
      else if Refused(t[0].s, d.executed, draws) then Stepping.Refuses
      else Stepping.Goes(t[0].s, Doing(After(t, d.executed, draws), d.executed + 1))
  }

  /** The first `m` statements that are executed, the first of them being the k-th overall. */
  function Exec(todo: seq<Task>, k: nat, m: nat, draws: Draws): seq<Stmt> {
    Stepping.Trace(TodoStep(draws), Doing(todo, k), m)
  }

  // ---------------------------------------------------------------------------
  // The machine: a pointer into the script, and a stack of loop counters
  // ---------------------------------------------------------------------------

  /** A path leads from statement to statement into ever deeper loop bodies. */
  predicate ValidPath(script: seq<Stmt>, path: seq<nat>) {
    && path != [] && path[0] < |script|
    && (|path| > 1 ==> script[path[0]].Repeat? && ValidPath(script[path[0]].body, path[1..]))
  }

  /** The list of siblings in which a path ends. */
  function Block(script: seq<Stmt>, path: seq<nat>): seq<Stmt>
    requires ValidPath(script, path)
    ensures path[|path| - 1] < |Block(script, path)|
  {
    if |path| == 1 then script else Block(script[path[0]].body, path[1..])
  }

  function Last(path: seq<nat>): nat
    requires path != []
  {
    path[|path| - 1]
  }

  function Node(script: seq<Stmt>, path: seq<nat>): Stmt
    requires ValidPath(script, path)
  {
    Block(script, path)[Last(path)]
  }

  predicate HasChild(s: Stmt) { s.Repeat? && s.body != [] }

  /** Where the pointer goes; at the end of the script it is null. */
  datatype Where = Next(at: Option<seq<nat>>, stack: seq<int>) | AssertionFails

  /** The next statement once the statement at `path` is left, its loop counter being gone. */
  function Leave(script: seq<Stmt>, path: seq<nat>, stack: seq<int>): Where
    requires ValidPath(script, path)
    decreases |path|, 0
  {
    var up := path[..|path| - 1];
    if Last(path) + 1 < |Block(script, path)| then Next(Some(up + [Last(path) + 1]), stack)
    else if |path| == 1 then (if stack == [] then Next(None, []) else AssertionFails)
    else if stack == [] then AssertionFails
    else
      var n := Dec(stack[|stack| - 1]);
      var stack' := stack[..|stack| - 1] + [n];
      if n != 0 then Next(Some(up + [0]), stack')
      else
        ParentValid(script, path);
        Goto(script, up, stack')
  }

  /** The next statement after the one at `path` was executed. */
  function Goto(script: seq<Stmt>, path: seq<nat>, stack: seq<int>): Where
    requires ValidPath(script, path)
    decreases |path|, 1
  {
    if !HasChild(Node(script, path)) then Leave(script, path, stack)
    else if stack == [] then AssertionFails
    else if stack[|stack| - 1] != 0 then Next(Some(path + [0]), stack)
    else Leave(script, path, stack[..|stack| - 1])
  }

  lemma {:induction false} ParentValid(script: seq<Stmt>, path: seq<nat>)
    requires ValidPath(script, path) && |path| > 1
    ensures var up := path[..|path| - 1];
      ValidPath(script, up) && Node(script, up).Repeat? && Node(script, up).body == Block(script, path)
  {
    if |path| > 2 {
      ParentValid(script[path[0]].body, path[1..]);
      assert path[1..][..|path| - 2] == path[..|path| - 1][1..];
    }
  }

  lemma {:induction false} SiblingValid(script: seq<Stmt>, path: seq<nat>, i: nat)
    requires ValidPath(script, path) && i < |Block(script, path)|
    ensures var p := path[..|path| - 1] + [i]; ValidPath(script, p) && Block(script, p) == Block(script, path)
  {
    if |path| > 1 {
      SiblingValid(script[path[0]].body, path[1..], i);
      assert path[1..][..|path| - 2] + [i] == (path[..|path| - 1] + [i])[1..];
    }
  }

  lemma {:induction false} ChildValid(script: seq<Stmt>, path: seq<nat>)
    requires ValidPath(script, path) && HasChild(Node(script, path))
    ensures ValidPath(script, path + [0]) && Block(script, path + [0]) == Node(script, path).body
  {
    if |path| > 1 {
      ChildValid(script[path[0]].body, path[1..]);
      assert (path + [0])[1..] == path[1..] + [0];
    } else {
      assert (path + [0])[1..] == [0];
    }
  }

  /** The state of the interpreter between two statements. */
  datatype Machine = Machine(at: Option<seq<nat>>, stack: seq<int>, executed: nat)

  predicate Runs(script: seq<Stmt>, mc: Machine) {
    mc.at.Some? ==> ValidPath(script, mc.at.value)
  }

  function Pushed(s: Stmt, mc: Machine, draws: Draws): seq<int> {
    if s.Repeat? then mc.stack + [Count(s, mc.executed, draws)] else mc.stack
  }

  /** One statement: execute it, then move the pointer. */
  function Advance(script: seq<Stmt>, mc: Machine, draws: Draws): Option<Machine>
    requires Runs(script, mc) && mc.at.Some?
  {
    var s := Node(script, mc.at.value);
    if Refused(s, mc.executed, draws) then None
    else
      match Goto(script, mc.at.value, Pushed(s, mc, draws))
      case AssertionFails => None
      case Next(at, stack) => Some(Machine(at, stack, mc.executed + 1))
  }

  lemma {:induction false} GotoValid(script: seq<Stmt>, path: seq<nat>, stack: seq<int>)
    requires ValidPath(script, path)
    ensures var w := Goto(script, path, stack); w.Next? && w.at.Some? ==> ValidPath(script, w.at.value)
    decreases |path|, 1
  {
    if HasChild(Node(script, path)) {
      ChildValid(script, path);
    }
    LeaveValid(script, path, stack);
    if stack != [] {
      LeaveValid(script, path, stack[..|stack| - 1]);
    }
  }

  lemma {:induction false} LeaveValid(script: seq<Stmt>, path: seq<nat>, stack: seq<int>)
    requires ValidPath(script, path)
    ensures var w := Leave(script, path, stack); w.Next? && w.at.Some? ==> ValidPath(script, w.at.value)
    decreases |path|, 0
  {
    if Last(path) + 1 < |Block(script, path)| {
      SiblingValid(script, path, Last(path) + 1);
    } else if |path| > 1 && stack != [] {
      SiblingValid(script, path, 0);
      ParentValid(script, path);
      GotoValid(script, path[..|path| - 1], stack[..|stack| - 1] + [Dec(stack[|stack| - 1])]);
    }
  }

  lemma {:induction false} AdvanceRuns(script: seq<Stmt>, mc: Machine, draws: Draws)
    requires Runs(script, mc) && mc.at.Some?
    ensures var r := Advance(script, mc, draws); r.Some? ==> Runs(script, r.value) && r.value.executed == mc.executed + 1
  {
    GotoValid(script, mc.at.value, Pushed(Node(script, mc.at.value), mc, draws));
  }

  /** The step of the machine; it stops at the end of the script and at an error. */
  function Stepper(script: seq<Stmt>, draws: Draws): Machine -> Stepping.Outcome<Stmt, Machine> {
    (mc: Machine) =>
      if !Runs(script, mc) || mc.at.None? then Stepping.Halts
      else
        var s := Node(script, mc.at.value);
        if Refused(s, mc.executed, draws) then Stepping.Refuses
        else
          match Advance(script, mc, draws)
          case None => Stepping.Dies(s)
          case Some(mc') => Stepping.Goes(s, mc')
  }

  /** The statements executed in at most `m` steps. */
  function Trace(script: seq<Stmt>, mc: Machine, m: nat, draws: Draws): seq<Stmt>
    requires Runs(script, mc)
  {
    Stepping.Trace(Stepper(script, draws), mc, m)
  }

  /** The state after `m` statements, or at the end of the script if that comes first. */
  function RunFor(script: seq<Stmt>, mc: Machine, m: nat, draws: Draws): Option<Machine>
    requires Runs(script, mc)
  {
    Stepping.RunFor(Stepper(script, draws), mc, m)
  }

  function Start(script: seq<Stmt>): Machine {
    Machine(if script == [] then None else Some([0]), [], 0)
  }
}
