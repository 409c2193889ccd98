/**
 Border reflection: a mobile node that bounces off the walls of the playground is the
 mirror image of one that keeps going straight.
 */
module MobilitySpec {

  /** One axis: the position, and the step added to it at every move. */
  datatype Axis = Axis(pos: real, step: real)

  predicate Below(a: Axis) { a.pos + a.step < 0.0 }

  predicate Beyond(a: Axis, size: real) { !Below(a) && a.pos + a.step >= size }

  function Moved(a: Axis, size: real): Axis {
    var x := a.pos + a.step;
    if Below(a) then Axis(-x, -a.step)
    else if Beyond(a, size) then Axis(2.0 * size - x, -a.step)
    else Axis(x, a.step)
  }

  /** A node that comes to stand on the far wall turns round there; on the near wall it does not. */
  lemma TurnsOnFarWall(a: Axis, size: real)
    requires size > 0.0
    ensures a.pos + a.step == size ==> Moved(a, size) == Axis(size, -a.step)
    ensures a.pos + a.step == 0.0 ==> Moved(a, size) == Axis(0.0, a.step)
  {
  }

  function MovedTimes(a: Axis, size: real, n: nat): Axis {
    if n == 0 then a else Moved(MovedTimes(a, size, n - 1), size)
  }

  /** Where the node would be if there were no walls. */
  function Free(a: Axis, n: nat): real {
    if n == 0 then a.pos else Free(a, n - 1) + a.step
  }

  lemma {:induction false} FreeIsLinear(a: Axis, n: nat)
    ensures Free(a, n) == a.pos + n as real * a.step
  {
    if n > 0 {
      FreeIsLinear(a, n - 1);
      assert n as real == (n - 1) as real + 1.0;
    }
  }

  /** The `m`-th wall of the unfolded playground. */
  function Wall(m: int, size: real): real { m as real * size }

  lemma {:induction false} WallNext(m: int, size: real)
    ensures Wall(m + 1, size) == Wall(m, size) + size
  {
    assert (m + 1) as real == m as real + 1.0;
  }

  /** `y` is the mirror image of `u`: folding the line at every wall brings `u` onto `y`. */
  ghost predicate MirrorImage(u: real, size: real, y: real) {
    0.0 <= y <= size && exists m :: Folded(u, size, m, y)
  }

  predicate Folded(u: real, size: real, m: int, y: real) {
    if m % 2 == 0 then y == u - Wall(m, size) else y == Wall(m + 1, size) - u
  }

  lemma {:induction false} WallOrder(m: int, n: int, size: real)
    requires size > 0.0 && m <= n
    ensures Wall(n, size) - Wall(m, size) == Wall(n - m, size) && Wall(m, size) <= Wall(n, size)
    decreases n - m
  {
    if m < n {
      WallNext(n - 1, size);
      WallNext(n - 1 - m, size);
      WallOrder(m, n - 1, size);
    }
  }

  /** Between walls `m` and `m + 1` the image is given by the parity of `m`. */
  lemma {:induction false} FoldedCell(u: real, size: real, m: int, y: real)
    requires size > 0.0 && Folded(u, size, m, y) && 0.0 <= y <= size
    ensures Wall(m, size) <= u <= Wall(m + 1, size)
  {
    WallNext(m, size);
  }

  /** There is only one mirror image. */
  lemma {:induction false} ImageUnique(u: real, size: real, y: real, z: real)
    requires size > 0.0 && MirrorImage(u, size, y) && MirrorImage(u, size, z)
    ensures y == z
  {
    var m :| Folded(u, size, m, y);
    var n :| Folded(u, size, n, z);
    FoldedCell(u, size, m, y);
    FoldedCell(u, size, n, z);
    SameCell(u, size, m, n);
    WallNext(m, size);
    WallNext(n, size);
  }

  /** A point in two cells is on the wall between them. */
  lemma {:induction false} SameCell(u: real, size: real, m: int, n: int)
    requires size > 0.0 && Wall(m, size) <= u <= Wall(m + 1, size) && Wall(n, size) <= u <= Wall(n + 1, size)
    ensures m == n || (n == m + 1 && u == Wall(n, size)) || (m == n + 1 && u == Wall(m, size))
  {
    WallNext(m, size);
    WallNext(n, size);
    if m < n {
      WallOrder(m + 1, n, size);
      if m + 1 < n {
        WallNext(n - 1, size);
        WallOrder(m + 1, n - 1, size);
      }
    } else if n < m {
      WallOrder(n + 1, m, size);
      if n + 1 < m {
        WallNext(m - 1, size);
        WallOrder(n + 1, m - 1, size);
      }
    }
  }

  /** A move stays in the playground exactly when it does not go past the mirror image of a wall. */
  lemma StaysInsideExactlyWhen(a: Axis, size: real)
    requires size > 0.0
    ensures 0.0 <= Moved(a, size).pos <= size <==> -size <= a.pos + a.step <= 2.0 * size
  {
  }

  /**
   After any number of moves, with steps no longer than the playground, the position is the mirror
   image of free motion, and the step is reversed exactly in every other cell.
   */
  lemma {:induction false} ReflectionIsFolding(a: Axis, size: real, n: nat) returns (m: int)
    requires size > 0.0 && 0.0 <= a.pos <= size && -size <= a.step <= size
    ensures var b := MovedTimes(a, size, n);
      && 0.0 <= b.pos <= size
      && Folded(Free(a, n), size, m, b.pos)
      && b.step == if m % 2 == 0 then a.step else -a.step
  {
    if n == 0 {
      m := 0;
    } else {
      m := ReflectionIsFolding(a, size, n - 1);
      var b := MovedTimes(a, size, n - 1);
      WallNext(m, size);
      WallNext(m - 1, size);
      WallNext(m + 1, size);
      if Below(b) {
        m := if m % 2 == 0 then m - 1 else m + 1;
      } else if Beyond(b, size) {
        m := if m % 2 == 0 then m + 1 else m - 1;
      }
    }
  }

  lemma {:induction false} PositionIsMirrorImage(a: Axis, size: real, n: nat)
    requires size > 0.0 && 0.0 <= a.pos <= size && -size <= a.step <= size
    ensures MirrorImage(Free(a, n), size, MovedTimes(a, size, n).pos)
  {
    var m := ReflectionIsFolding(a, size, n);
  }

  /** Strictly between walls `m` and `m + 1` the step points forward exactly when `m` is even. */
  lemma {:induction false} StepFollowsParity(a: Axis, size: real, n: nat, m: int)
    requires size > 0.0 && 0.0 <= a.pos <= size && -size <= a.step <= size
    requires Wall(m, size) < Free(a, n) < Wall(m + 1, size)
    ensures MovedTimes(a, size, n).step == if m % 2 == 0 then a.step else -a.step
  {
    var k := ReflectionIsFolding(a, size, n);
    FoldedCell(Free(a, n), size, k, MovedTimes(a, size, n).pos);
    SameCell(Free(a, n), size, m, k);
  }

  // ---------------------------------------------------------------------------
  // Both axes, and the heading
  // ---------------------------------------------------------------------------

  predicate Flips(a: Axis, size: real) { Below(a) || Beyond(a, size) }

  /** The heading after reflections, in degrees: x-walls turn it to 180 - a, y-walls to -a. */
  function Turned(angle: real, flipX: bool, flipY: bool): real {
    var a := if flipX then 180.0 - angle else angle;
    if flipY then -a else a
  }

  datatype Node = Node(x: Axis, y: Axis, angle: real)

  function NodeMoved(n: Node, sizeX: real, sizeY: real): Node {
    Node(Moved(n.x, sizeX), Moved(n.y, sizeY), Turned(n.angle, Flips(n.x, sizeX), Flips(n.y, sizeY)))
  }

  function NodeMovedTimes(n: Node, sizeX: real, sizeY: real, k: nat): Node {
    if k == 0 then n else NodeMoved(NodeMovedTimes(n, sizeX, sizeY, k - 1), sizeX, sizeY)
  }

  /** The axes do not influence each other. */
  lemma {:induction false} AxesIndependent(n: Node, sizeX: real, sizeY: real, k: nat)
    ensures var n' := NodeMovedTimes(n, sizeX, sizeY, k);
      n'.x == MovedTimes(n.x, sizeX, k) && n'.y == MovedTimes(n.y, sizeY, k)
  {
    if k > 0 {
      AxesIndependent(n, sizeX, sizeY, k - 1);
    }
  }

  /** The step for a heading `a` is `(vx(a), vy(a))`: what this needs to know of cosine and sine, in degrees. */
  predicate Symmetric(vx: real -> real, vy: real -> real, a: real) {
    && vx(180.0 - a) == -vx(a) && vx(-a) == vx(a)
    && vy(180.0 - a) == vy(a) && vy(-a) == -vy(a)
  }

  ghost predicate Trigonometric(vx: real -> real, vy: real -> real) { forall a :: Symmetric(vx, vy, a) }

  /** The step leads in the direction of the heading. */
  predicate Heads(n: Node, vx: real -> real, vy: real -> real) {
    n.x.step == vx(n.angle) && n.y.step == vy(n.angle)
  }

  /** However often the node bounces, its step still leads in the direction of its heading. */
  lemma {:induction false} HeadingKept(n: Node, sizeX: real, sizeY: real, k: nat, vx: real -> real, vy: real -> real)
    requires Trigonometric(vx, vy) && Heads(n, vx, vy)
    ensures Heads(NodeMovedTimes(n, sizeX, sizeY, k), vx, vy)
  {
    if k > 0 {
      HeadingKept(n, sizeX, sizeY, k - 1, vx, vy);
      var b := NodeMovedTimes(n, sizeX, sizeY, k - 1);
      assert Symmetric(vx, vy, b.angle) && Symmetric(vx, vy, 180.0 - b.angle);
    }
  }
}

module MobilityModule {
  import opened MobilitySpec
  import opened Geometry

  class MassMobility {
    const playground: Coord
    var pos: Coord
    var step: Coord
    var currentAngle: real

    ghost function Abs(): Node
      reads this
    {
      Node(Axis(pos.x, step.x), Axis(pos.y, step.y), currentAngle)
    }

    constructor (size: Coord, p: Coord, s: Coord, angle: real)
      ensures playground == size && pos == p && step == s && currentAngle == angle
    {
      playground, pos, step, currentAngle := size, p, s, angle;
    }

    /** Reflects position, target, step and heading at each wall that was passed. */
    method ReflectIfOutside(target: Coord) returns (target': Coord)
      modifies `pos, `step, `currentAngle
      ensures pos == Coord(Reflected(old(pos).x, old(pos).x, playground.x), Reflected(old(pos).y, old(pos).y, playground.y))
      ensures target' ==
        Coord(Reflected(old(pos).x, target.x, playground.x), Reflected(old(pos).y, target.y, playground.y))
      ensures step == Coord(if Outside(old(pos).x, playground.x) then -old(step).x else old(step).x,
                            if Outside(old(pos).y, playground.y) then -old(step).y else old(step).y)
      ensures currentAngle ==
        Turned(old(currentAngle), Outside(old(pos).x, playground.x), Outside(old(pos).y, playground.y))
    {
      target' := target;
      if pos.x < 0.0 {
        pos, target' := pos.(x := -pos.x), target'.(x := -target'.x);
        step := step.(x := -step.x);
        currentAngle := 180.0 - currentAngle;
      } else if pos.x >= playground.x {
        pos, target' := pos.(x := 2.0 * playground.x - pos.x), target'.(x := 2.0 * playground.x - target'.x);
        step := step.(x := -step.x);
        currentAngle := 180.0 - currentAngle;
      }
      if pos.y < 0.0 {
        pos, target' := pos.(y := -pos.y), target'.(y := -target'.y);
        step := step.(y := -step.y);
        currentAngle := -currentAngle;
      } else if pos.y >= playground.y {
        pos, target' := pos.(y := 2.0 * playground.y - pos.y), target'.(y := 2.0 * playground.y - target'.y);
        step := step.(y := -step.y);
        currentAngle := -currentAngle;
      }
    }

    /** One step, then reflection. */
    method Move()
      modifies `pos, `step, `currentAngle
      ensures Abs() == NodeMoved(old(Abs()), playground.x, playground.y)
    {
      pos := Coord(pos.x + step.x, pos.y + step.y);
      var _ := ReflectIfOutside(Coord(0.0, 0.0));
    }

    /** Between two changes of direction the node moves a number of times. */
    method MoveTimes(n: nat)
      modifies `pos, `step, `currentAngle
      ensures Abs() == NodeMovedTimes(old(Abs()), playground.x, playground.y, n)
    {
      for i := 0 to n
        invariant Abs() == NodeMovedTimes(old(Abs()), playground.x, playground.y, i)
      {
        Move();
      }
    }
  }

  predicate Outside(x: real, size: real) { x < 0.0 || x >= size }

  /** The mirror image of `t` in the wall that `x` has passed. */
  function Reflected(x: real, t: real, size: real): real {
    if x < 0.0 then -t else if x >= size then 2.0 * size - t else t
  }
}
