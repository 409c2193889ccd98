/**
 Radio channel control: who is in range of whom, and what is on the air.

 The specification is the list of all calls made so far. Everything the module keeps,
 the incrementally maintained neighbour sets, the vectors cached from them and the
 lazily purged transmission lists, is a function of that history.
 */
module ChannelControlSpec {
  import opened Geometry

  type Host = nat

  datatype Op =
    | Register(h: Host, pos: Coord)
    | Unregister(h: Host)
    | Move(h: Host, pos: Coord)
    | Tune(h: Host, channel: int)

  function Before(log: seq<Op>): seq<Op>
    requires log != []
  {
    log[..|log| - 1]
  }

  predicate Registered(log: seq<Op>, h: Host) {
    if log == [] then false
    else
      match log[|log| - 1]
      case Register(g, _) => g == h || Registered(Before(log), h)
      case Unregister(g) => g != h && Registered(Before(log), h)
      case _ => Registered(Before(log), h)
  }

  /** The position reported last, by registration or by moving. */
  function PosOf(log: seq<Op>, h: Host): Coord {
    if log == [] then Coord(0.0, 0.0)
    else
      match log[|log| - 1]
      case Register(g, pos) => if g == h then pos else PosOf(Before(log), h)
      case Move(g, pos) => if g == h then pos else PosOf(Before(log), h)
      case _ => PosOf(Before(log), h)
  }

  function ChannelOf(log: seq<Op>, h: Host): int {
    if log == [] then 0
    else
      match log[|log| - 1]
      case Register(g, _) => if g == h then 0 else ChannelOf(Before(log), h)
      case Tune(g, channel) => if g == h then channel else ChannelOf(Before(log), h)
      case _ => ChannelOf(Before(log), h)
  }

  /** A host is registered exactly when it came at some time and did not leave since. */
  lemma {:induction false} RegisteredExactlyWhen(log: seq<Op>, h: Host)
    ensures Registered(log, h) <==> exists i: nat :: CameAt(log, i, h)
  {
    if log != [] {
      var (n, before) := (|log| - 1, Before(log));
      RegisteredExactlyWhen(before, h);
      forall i: nat | i < n
        ensures CameAt(log, i, h) <==> CameAt(before, i, h) && log[n] != Unregister(h)
      {
        assert forall j :: i < j < n ==> before[j] == log[j];
      }
      if log[n].Register? && log[n].h == h {
        assert CameAt(log, n, h);
      }
    }
  }

  predicate CameAt(log: seq<Op>, i: nat, h: Host) {
    i < |log| && log[i].Register? && log[i].h == h && forall j :: i < j < |log| ==> log[j] != Unregister(h)
  }

  predicate Places(op: Op, h: Host) { (op.Register? || op.Move?) && op.h == h }

  predicate Tunes(op: Op, h: Host) { (op.Register? || op.Tune?) && op.h == h }

  /** The last call that gives a position, or a channel, decides. */
  lemma {:induction false} LatestCounts(log: seq<Op>, h: Host, i: nat)
    requires i < |log|
    ensures Places(log[i], h) && (forall j :: i < j < |log| ==> !Places(log[j], h)) ==> PosOf(log, h) == log[i].pos
    ensures Tunes(log[i], h) && (forall j :: i < j < |log| ==> !Tunes(log[j], h)) ==>
      ChannelOf(log, h) == if log[i].Tune? then log[i].channel else 0
  {
    var n := |log| - 1;
    if i < n {
      assert forall j :: 0 <= j < n ==> Before(log)[j] == log[j];
      LatestCounts(Before(log), h, i);
    }
  }

  /** One of the two has reported a position since the later of them was registered. */
  predicate Compared(log: seq<Op>, a: Host, b: Host) {
    if log == [] then false
    else
      match log[|log| - 1]
      case Register(g, _) => g != a && g != b && Compared(Before(log), a, b)
      case Unregister(g) => g != a && g != b && Compared(Before(log), a, b)
      case Move(g, _) => if g == a || g == b then Registered(log, a) && Registered(log, b)
                         else Compared(Before(log), a, b)
      case Tune(_, _) => Compared(Before(log), a, b)
  }

  function SqrDist(p: Coord, q: Coord): real {
    (p.x - q.x) * (p.x - q.x) + (p.y - q.y) * (p.y - q.y)
  }

  predicate InRange(p: Coord, q: Coord, range: real) { SqrDist(p, q) < range * range }

  /** The neighbour relation: compared since both exist, and in range by their latest positions. */
  predicate Linked(log: seq<Op>, range: real, a: Host, b: Host) {
    a != b && Compared(log, a, b) && InRange(PosOf(log, a), PosOf(log, b), range)
  }

  function Abs(x: real): real { if x < 0.0 then -x else x }

  lemma TimesInOrder(a: real, b: real, c: real)
    requires a <= b && c >= 0.0
    ensures a * c <= b * c && (a < b && c > 0.0 ==> a * c < b * c)
  {
  }

  lemma {:induction false} SquaresInOrder(a: real, b: real)
    ensures a * a < b * b <==> Abs(a) < Abs(b)
  {
    var (x, y) := (Abs(a), Abs(b));
    assert x * x == a * a && y * y == b * b;
    if x < y {
      StrictInOrder(x, y);
    } else {
      TimesInOrder(y, x, x);
      TimesInOrder(y, x, y);
    }
  }

  lemma {:induction false} StrictInOrder(x: real, y: real)
    requires 0.0 <= x < y
    ensures x * x < y * y
  {
    calc {
      x * x;
    <= { TimesInOrder(x, y, x); }
      y * x;
    ==
      x * y;
    < { TimesInOrder(x, y, y); }
      y * y;
    }
  }

  /** Hosts on a line parallel to an axis are in range exactly if they are less than the range apart. */
  lemma {:induction false} InRangeOnAxis(p: Coord, q: Coord, range: real)
    ensures p.x == q.x ==> (InRange(p, q, range) <==> Abs(p.y - q.y) < Abs(range))
    ensures p.y == q.y ==> (InRange(p, q, range) <==> Abs(p.x - q.x) < Abs(range))
  {
    SquaresInOrder(p.y - q.y, range);
    SquaresInOrder(p.x - q.x, range);
  }

  /** The square of the distance is the sum of those along the axes. */
  lemma {:induction false} Pythagoras(p: Coord, q: Coord)
    ensures SqrDist(p, q) == SqrDist(p, Coord(q.x, p.y)) + SqrDist(Coord(q.x, p.y), q)
  {
    assert (p.y - p.y) * (p.y - p.y) == 0.0 && (q.x - q.x) * (q.x - q.x) == 0.0;
  }

  /** So hosts in range are so on each axis, and hosts that are so along both axes together are in range. */
  lemma {:induction false} InRangeBetween(p: Coord, q: Coord, range: real)
    ensures InRange(p, q, range) ==> Abs(p.x - q.x) < Abs(range) && Abs(p.y - q.y) < Abs(range)
    ensures Abs(p.x - q.x) + Abs(p.y - q.y) < Abs(range) ==> InRange(p, q, range)
  {
    SumInOrder(p.x - q.x, p.y - q.y, range);
  }

  lemma {:induction false} SumInOrder(a: real, b: real, c: real)
    ensures a * a + b * b < c * c ==> Abs(a) < Abs(c) && Abs(b) < Abs(c)
    ensures Abs(a) + Abs(b) < Abs(c) ==> a * a + b * b < c * c
  {
    var (x, y) := (Abs(a), Abs(b));
    assert x * x == a * a && y * y == b * b;
    SumOfSquares(x, y);
    SquaresInOrder(a, c);
    SquaresInOrder(b, c);
    SquaresInOrder(x + y, c);
  }

  lemma {:induction false} SumOfSquares(a: real, b: real)
    requires a >= 0.0 && b >= 0.0
    ensures a * a >= 0.0 && b * b >= 0.0 && a * a + b * b <= (a + b) * (a + b)
  {
    TimesInOrder(0.0, a, a);
    TimesInOrder(0.0, b, b);
    TimesInOrder(0.0, a, b);
    assert (a + b) * (a + b) == a * a + 2.0 * (a * b) + b * b;
  }

  lemma {:induction false} InRangeSymmetric(p: Coord, q: Coord, range: real)
    ensures InRange(p, q, range) == InRange(q, p, range)
  {
    assert (p.x - q.x) * (p.x - q.x) == (q.x - p.x) * (q.x - p.x);
    assert (p.y - q.y) * (p.y - q.y) == (q.y - p.y) * (q.y - p.y);
  }

  lemma {:induction false} ComparedSymmetric(log: seq<Op>, a: Host, b: Host)
    ensures Compared(log, a, b) == Compared(log, b, a)
  {
    if log != [] {
      ComparedSymmetric(Before(log), a, b);
    }
  }

  lemma {:induction false} ComparedRegistered(log: seq<Op>, a: Host, b: Host)
    requires Compared(log, a, b)
    ensures Registered(log, a) && Registered(log, b)
  {
    if log != [] && Compared(Before(log), a, b) {
      ComparedRegistered(Before(log), a, b);
    }
  }

  /** Registering or unregistering one of the two. */
  predicate Resets(op: Op, a: Host, b: Host) {
    (op.Register? || op.Unregister?) && (op.h == a || op.h == b)
  }

  /** The i-th call was a move of one of the two while both were registered, and neither came or went since. */
  predicate ComparedAt(log: seq<Op>, i: nat, a: Host, b: Host) {
    && i < |log| && log[i].Move? && (log[i].h == a || log[i].h == b)
    && Registered(log[..i + 1], a) && Registered(log[..i + 1], b)
    && forall j :: i < j < |log| ==> !Resets(log[j], a, b)
  }

  /** What it takes to be compared, without recursion. */
  lemma {:induction false} ComparedExactlyWhen(log: seq<Op>, a: Host, b: Host)
    ensures Compared(log, a, b) <==> exists i: nat :: ComparedAt(log, i, a, b)
  {
    if log != [] {
      var (n, before) := (|log| - 1, Before(log));
      ComparedExactlyWhen(before, a, b);
      assert log[..n + 1] == log;
      forall i: nat | i < n
        ensures ComparedAt(log, i, a, b) <==> ComparedAt(before, i, a, b) && !Resets(log[n], a, b)
      {
        assert before[..i + 1] == log[..i + 1];
        assert forall j :: i < j < n ==> before[j] == log[j];
      }
      if log[n].Move? && (log[n].h == a || log[n].h == b) {
        if Compared(log, a, b) {
          assert ComparedAt(log, n, a, b);
        }
        forall i: nat | ComparedAt(log, i, a, b)
          ensures Compared(log, a, b)
        {
          if i < n {
            ComparedRegistered(before, a, b);
          }
        }
      }
    }
  }

  /** The relation is symmetric, irreflexive, and confined to registered hosts. */
  lemma {:induction false} LinkedIsGraph(log: seq<Op>, range: real, a: Host, b: Host)
    ensures Linked(log, range, a, b) == Linked(log, range, b, a)
    ensures Linked(log, range, a, b) ==> a != b && Registered(log, a) && Registered(log, b)
  {
    ComparedSymmetric(log, a, b);
    InRangeSymmetric(PosOf(log, a), PosOf(log, b), range);
    if Linked(log, range, a, b) {
      ComparedRegistered(log, a, b);
    }
  }

  /** Once a host has moved, its links are exactly the hosts in range, however it was linked before. */
  lemma {:induction false} LinkedAfterMove(log: seq<Op>, range: real, h: Host, pos: Coord, b: Host)
    requires Registered(log, h) && b != h
    ensures Linked(log + [Move(h, pos)], range, h, b) <==>
      Registered(log, b) && InRange(pos, PosOf(log, b), range)
  {
    var log' := log + [Move(h, pos)];
    assert Before(log') == log;
  }

  /** Of any two hosts: a move decides the links of the host that moves, and leaves the others as they were. */
  lemma {:induction false} LinkedAcrossMove(log: seq<Op>, range: real, h: Host, pos: Coord, a: Host, b: Host)
    requires Registered(log, h)
    ensures var log' := log + [Move(h, pos)];
      && (Linked(log', range, a, b) <==>
            a != b && if a == h then Registered(log, b) && InRange(pos, PosOf(log, b), range)
                      else if b == h then Registered(log, a) && InRange(pos, PosOf(log, a), range)
                      else Linked(log, range, a, b))
  {
    var log' := log + [Move(h, pos)];
    assert Before(log') == log;
    LinkedIsGraph(log', range, a, b);
    if a == h && b != h {
      LinkedAfterMove(log, range, h, pos, b);
    } else if b == h && a != h {
      LinkedAfterMove(log, range, h, pos, a);
    }
  }

  // ---------------------------------------------------------------------------
  // Transmissions
  // ---------------------------------------------------------------------------

  const PURGE_INTERVAL := 1.0

  datatype AirFrame = AirFrame(id: nat, channel: nat, duration: real, timestamp: real)

  predicate Kept(f: AirFrame, now: real) { f.timestamp + f.duration + PURGE_INTERVAL >= now }

  /** The frames that are not yet too old, in order. */
  function Live(fs: seq<AirFrame>, now: real): seq<AirFrame> {
    if fs == [] then []
    else (if Kept(fs[0], now) then [fs[0]] else []) + Live(fs[1..], now)
  }

  function On(fs: seq<AirFrame>, channel: nat): seq<AirFrame> {
    if fs == [] then []
    else (if fs[0].channel == channel then [fs[0]] else []) + On(fs[1..], channel)
  }

  /** A frame is live, as often as it is there, exactly if it ended no more than a second ago. */
  lemma {:induction false} LiveExactlyWhen(fs: seq<AirFrame>, now: real, f: AirFrame)
    ensures multiset(Live(fs, now))[f] == if f.timestamp + f.duration >= now - 1.0 then multiset(fs)[f] else 0
  {
    if fs != [] {
      LiveExactlyWhen(fs[1..], now, f);
      assert fs == [fs[0]] + fs[1..];
    }
  }

  lemma {:induction false} OnExactlyWhen(fs: seq<AirFrame>, channel: nat, f: AirFrame)
    ensures f in On(fs, channel) <==> f in fs && f.channel == channel
  {
    if fs != [] {
      OnExactlyWhen(fs[1..], channel, f);
      assert fs == [fs[0]] + fs[1..];
    }
  }

  /** Every frame still on the air at `t` is in the answer, and none that ended more than a second before. */
  lemma {:induction false} OnTheAirAnswered(history: seq<AirFrame>, channel: nat, t: real, f: AirFrame)
    ensures var list := Live(On(history, channel), t);
      && (f in history && f.channel == channel && f.timestamp + f.duration >= t ==> f in list)
      && (f in list ==> f in history && f.channel == channel && f.timestamp + f.duration >= t - 1.0)
  {
    LiveExactlyWhen(On(history, channel), t, f);
    OnExactlyWhen(history, channel, f);
  }

  lemma {:induction false} LiveConcat(a: seq<AirFrame>, b: seq<AirFrame>, now: real)
    ensures Live(a + b, now) == Live(a, now) + Live(b, now)
  {
    if a == [] {
      assert a + b == b;
    } else {
      var head := if Kept(a[0], now) then [a[0]] else [];
      calc {
        Live(a + b, now);
        { assert (a + b)[1..] == a[1..] + b; }
        head + Live(a[1..] + b, now);
        { LiveConcat(a[1..], b, now); }
        head + (Live(a[1..], now) + Live(b, now));
        Live(a, now) + Live(b, now);
      }
    }
  }

  lemma {:induction false} OnConcat(a: seq<AirFrame>, b: seq<AirFrame>, channel: nat)
    ensures On(a + b, channel) == On(a, channel) + On(b, channel)
  {
    if a == [] {
      assert a + b == b;
    } else {
      var head := if a[0].channel == channel then [a[0]] else [];
      calc {
        On(a + b, channel);
        { assert (a + b)[1..] == a[1..] + b; }
        head + On(a[1..] + b, channel);
        { OnConcat(a[1..], b, channel); }
        head + (On(a[1..], channel) + On(b, channel));
        On(a, channel) + On(b, channel);
      }
    }
  }

  /** A list that agrees with the history still does when a frame is added to both. */
  lemma {:induction false} LiveMore(list: seq<AirFrame>, history: seq<AirFrame>, f: AirFrame, channel: nat, now: real)
    requires Live(list, now) == Live(On(history, channel), now)
    ensures Live(if channel == f.channel then list + [f] else list, now) == Live(On(history + [f], channel), now)
  {
    OnConcat(history, [f], channel);
    LiveConcat(On(history, channel), On([f], channel), now);
    LiveConcat(list, [f], now);
    assert On([f], channel) == if channel == f.channel then [f] else [];
  }

  /** What was thrown away earlier would be thrown away later anyway. */
  lemma {:induction false} LiveOfLive(fs: seq<AirFrame>, t: real, now: real)
    requires t <= now
    ensures Live(Live(fs, t), now) == Live(fs, now)
  {
    if fs != [] {
      LiveOfLive(fs[1..], t, now);
      var head := if Kept(fs[0], t) then [fs[0]] else [];
      LiveConcat(head, Live(fs[1..], t), now);
      assert Kept(fs[0], now) ==> Kept(fs[0], t);
      assert Live([fs[0]], now) == if Kept(fs[0], now) then [fs[0]] else [];
    }
  }
}

module ChannelControlModule {
  import opened ChannelControlSpec
  import opened Geometry

  datatype HostEntry = HostEntry(
    pos: Coord,
    channel: int,
    neighbors: set<Host>,
    isNeighborListValid: bool,
    neighborList: seq<Host>)

  predicate NoDuplicates(list: seq<Host>) {
    forall i, j :: 0 <= i < j < |list| ==> list[i] != list[j]
  }

  function Elements(list: seq<Host>): set<Host> { set h | h in list }

  /** The cached vector, when it is valid, lists the neighbours once each. */
  predicate CacheOk(e: HostEntry) {
    e.isNeighborListValid ==> NoDuplicates(e.neighborList) && Elements(e.neighborList) == e.neighbors
  }

  function WithNeighbors(e: HostEntry, ns: set<Host>): HostEntry {
    e.(neighbors := ns, isNeighborListValid := false)
  }

  function Forgotten(e: HostEntry, h: Host): HostEntry { WithNeighbors(e, e.neighbors - {h}) }

  function Relinked(ns: set<Host>, h: Host, link: bool): set<Host> { if link then ns + {h} else ns - {h} }

  predicate SamePlace(e: HostEntry, f: HostEntry) { e.pos == f.pos && e.channel == f.channel }

  ghost predicate Graph(hosts: map<Host, HostEntry>) {
    forall a, b :: a in hosts && b in hosts[a].neighbors ==> b in hosts && a != b && a in hosts[b].neighbors
  }

  predicate InReach(hosts: map<Host, HostEntry>, range: real, a: Host, b: Host)
    requires a in hosts && b in hosts
  {
    InRange(hosts[a].pos, hosts[b].pos, range)
  }

  /** The neighbour sets are those of the history. */
  ghost predicate Agrees(hosts: map<Host, HostEntry>, log: seq<Op>, range: real) {
    forall a, b :: a in hosts ==> (b in hosts[a].neighbors <==> Linked(log, range, a, b))
  }

  /** The effect of looking at one pair of hosts: they are linked exactly if in range, and nothing else changes. */
  ghost predicate PairLinked(old': map<Host, HostEntry>, hosts: map<Host, HostEntry>, range: real, h: Host, k: Host) {
    && hosts.Keys == old'.Keys && h in hosts && k in hosts && k != h
    && CacheOk(hosts[h]) && SamePlace(hosts[h], old'[h])
    && CacheOk(hosts[k]) && SamePlace(hosts[k], old'[k])
    && hosts[h].neighbors == Relinked(old'[h].neighbors, k, InReach(hosts, range, h, k))
    && hosts[k].neighbors == Relinked(old'[k].neighbors, h, InReach(hosts, range, h, k))
    && forall g :: g in hosts && g != h && g != k ==> hosts[g] == old'[g]
  }

  /** The pairs of `h` with the hosts not in `todo` have been looked at. */
  ghost predicate Relinking(old': map<Host, HostEntry>, hosts: map<Host, HostEntry>, range: real, h: Host, todo: set<Host>) {
    && hosts.Keys == old'.Keys && h in hosts
    && (forall k :: k in hosts ==> CacheOk(hosts[k]) && SamePlace(hosts[k], old'[k]))
    && (forall b :: b in hosts[h].neighbors <==>
          if b in todo then b in old'[h].neighbors else b in hosts && b != h && InReach(hosts, range, h, b))
    && (forall k :: k in hosts && k != h ==>
          hosts[k].neighbors ==
          if k in todo then old'[k].neighbors else Relinked(old'[k].neighbors, h, InReach(hosts, range, h, k)))
  }

  lemma {:induction false} RelinkNext(old': map<Host, HostEntry>, hosts: map<Host, HostEntry>, hosts': map<Host, HostEntry>,
                                      range: real, h: Host, k: Host, todo: set<Host>)
    requires Relinking(old', hosts, range, h, todo) && PairLinked(hosts, hosts', range, h, k) && k in todo
    ensures Relinking(old', hosts', range, h, todo - {k})
  {
    forall g | g in hosts'
      ensures CacheOk(hosts'[g]) && SamePlace(hosts'[g], old'[g])
    {
      assert CacheOk(hosts[g]) && SamePlace(hosts[g], old'[g]);
    }
  }

  /** A pair that was not looked at yet is linked on both sides or on neither, if it was so at first. */
  lemma {:induction false} StillMutual(old': map<Host, HostEntry>, hosts: map<Host, HostEntry>, range: real,
                                       h: Host, k: Host, todo: set<Host>)
    requires Relinking(old', hosts, range, h, todo) && k in todo && k in hosts && k != h
    requires k in old'[h].neighbors <==> h in old'[k].neighbors
    ensures (k in hosts[h].neighbors <==> h in hosts[k].neighbors) && CacheOk(hosts[h]) && CacheOk(hosts[k])
  {
  }

  /** Every entry agrees with the history. */
  ghost predicate Faithful(hosts: map<Host, HostEntry>, log: seq<Op>, range: real) {
    && (forall h :: h in hosts <==> Registered(log, h))
    && (forall h :: h in hosts ==> hosts[h].pos == PosOf(log, h) && hosts[h].channel == ChannelOf(log, h))
    && (forall h :: h in hosts ==> CacheOk(hosts[h]))
    && Agrees(hosts, log, range)
  }

  lemma {:induction false} FaithfulGraph(hosts: map<Host, HostEntry>, log: seq<Op>, range: real)
    requires Agrees(hosts, log, range) && forall h :: h in hosts <==> Registered(log, h)
    ensures Graph(hosts)
  {
    forall a, b | a in hosts && b in hosts[a].neighbors
      ensures b in hosts && a != b && a in hosts[b].neighbors
    {
      LinkedIsGraph(log, range, a, b);
    }
  }

  /** When all pairs of the host that moved have been looked at, every pair agrees with the history again. */
  lemma {:induction false} MoveLinks(old': map<Host, HostEntry>, hosts: map<Host, HostEntry>, log: seq<Op>, range: real,
                                     h: Host, pos: Coord, a: Host, b: Host)
    requires Relinking(old', hosts, range, h, {}) && a in hosts && Registered(log, h) && Registered(log, a)
    requires b in hosts <==> Registered(log, b)
    requires b in old'[a].neighbors <==> Linked(log, range, a, b)
    requires old'[h].pos == pos && (a != h ==> old'[a].pos == PosOf(log, a))
    requires b in hosts && b != h ==> old'[b].pos == PosOf(log, b)
    ensures b in hosts[a].neighbors <==> Linked(log + [Move(h, pos)], range, a, b)
  {
    LinkedAcrossMove(log, range, h, pos, a, b);
    LinkedIsGraph(log, range, a, b);
    assert SamePlace(hosts[a], old'[a]) && SamePlace(hosts[h], old'[h]);
    assert b in hosts ==> SamePlace(hosts[b], old'[b]);
  }

  lemma {:induction false} MoveFaithful(old': map<Host, HostEntry>, moved: map<Host, HostEntry>, hosts: map<Host, HostEntry>,
                                        log: seq<Op>, range: real, h: Host, pos: Coord)
    requires Faithful(old', log, range) && h in old' && moved == old'[h := old'[h].(pos := pos)]
    requires Relinking(moved, hosts, range, h, {})
    ensures Faithful(hosts, log + [Move(h, pos)], range)
  {
    assert Before(log + [Move(h, pos)]) == log;
    forall a, b | a in hosts
      ensures b in hosts[a].neighbors <==> Linked(log + [Move(h, pos)], range, a, b)
    {
      assert b in old'[a].neighbors <==> Linked(log, range, a, b);
      MoveLinks(moved, hosts, log, range, h, pos, a, b);
    }
    forall k | k in hosts
      ensures hosts[k].pos == PosOf(log + [Move(h, pos)], k) && hosts[k].channel == ChannelOf(log + [Move(h, pos)], k)
    {
      assert SamePlace(hosts[k], moved[k]);
    }
  }

  class ChannelControl {
    const maxInterferenceDistance: real
    const numChannels: nat
    var hosts: map<Host, HostEntry>
    ghost var log: seq<Op>

    ghost predicate Valid()
      reads this
    {
      Faithful(hosts, log, maxInterferenceDistance)
    }

    constructor (range: real, channels: nat)
      ensures Valid() && log == [] && maxInterferenceDistance == range && numChannels == channels
    {
      maxInterferenceDistance, numChannels, hosts, log := range, channels, map[], [];
    }

    method RegisterHost(h: Host, pos: Coord) returns (ok: bool)
      requires Valid()
      modifies `hosts, `log
      ensures ok <==> !Registered(old(log), h)
      ensures Valid() && log == if ok then old(log) + [Register(h, pos)] else old(log)
    {
      if h in hosts {
        return false;
      }
      forall b
        ensures !Linked(log, maxInterferenceDistance, h, b) && !Linked(log, maxInterferenceDistance, b, h)
      {
        LinkedIsGraph(log, maxInterferenceDistance, h, b);
        LinkedIsGraph(log, maxInterferenceDistance, b, h);
      }
      hosts := hosts[h := HostEntry(pos, 0, {}, false, [])];
      log := log + [Register(h, pos)];
      assert Before(log) == old(log);
      return true;
    }

    method UpdateHostChannel(h: Host, channel: int) returns (ok: bool)
      requires Valid() && h in hosts
      modifies `hosts, `log
      ensures ok <==> 0 <= channel < numChannels
      ensures Valid() && log == if ok then old(log) + [Tune(h, channel)] else old(log)
    {
      if channel >= numChannels || channel < 0 {
        return false;
      }
      hosts := hosts[h := hosts[h].(channel := channel)];
      log := log + [Tune(h, channel)];
      assert Before(log) == old(log);
      return true;
    }

    /** The host leaves every neighbour set, and every cache is thrown away, before it is erased. */
    method UnregisterHost(h: Host) returns (ok: bool)
      requires Valid()
      modifies `hosts, `log
      ensures ok <==> Registered(old(log), h)
      ensures Valid() && log == if ok then old(log) + [Unregister(h)] else old(log)
    {
      if h !in hosts {
        return false;
      }
      var todo := hosts.Keys;
      while todo != {}
        invariant todo <= hosts.Keys == old(hosts).Keys && log == old(log)
        invariant forall k :: k in hosts ==>
          hosts[k] == if k in todo then old(hosts)[k] else Forgotten(old(hosts)[k], h)
      {
        var k :| k in todo;
        todo := todo - {k};
        hosts := hosts[k := Forgotten(hosts[k], h)];
      }
      hosts := hosts - {h};
      log := log + [Unregister(h)];
      assert Before(log) == old(log);
      forall a, b | a in hosts
        ensures b in hosts[a].neighbors <==> Linked(log, maxInterferenceDistance, a, b)
      {
        assert b in old(hosts)[a].neighbors <==> Linked(old(log), maxInterferenceDistance, a, b);
      }
      return true;
    }

    /** Links and unlinks the host until its neighbours are exactly the hosts in range. */
    method UpdateConnections(h: Host)
      requires h in hosts && Graph(hosts) && forall k :: k in hosts ==> CacheOk(hosts[k])
      modifies `hosts
      ensures Relinking(old(hosts), hosts, maxInterferenceDistance, h, {})
    {
      var todo := hosts.Keys;
      while todo != {}
        invariant todo <= hosts.Keys && Relinking(old(hosts), hosts, maxInterferenceDistance, h, todo - {h})
      {
        var k :| k in todo;
        todo := todo - {k};
        if k != h {
          ghost var (before, left) := (hosts, todo + {k} - {h});
          assert todo - {h} == left - {k};
          assert k in old(hosts)[h].neighbors <==> h in old(hosts)[k].neighbors;
          StillMutual(old(hosts), hosts, maxInterferenceDistance, h, k, left);
          UpdateConnection(h, k);
          RelinkNext(old(hosts), before, hosts, maxInterferenceDistance, h, k, left);
        }
      }
    }

    method UpdateConnection(h: Host, k: Host)
      requires h in hosts && k in hosts && k != h
      requires k in hosts[h].neighbors <==> h in hosts[k].neighbors
      requires CacheOk(hosts[h]) && CacheOk(hosts[k])
      modifies `hosts
      ensures PairLinked(old(hosts), hosts, maxInterferenceDistance, h, k)
    {
      var inRange := InRange(hosts[h].pos, hosts[k].pos, maxInterferenceDistance);
      if inRange {
        if k !in hosts[h].neighbors {
          hosts := hosts[h := WithNeighbors(hosts[h], hosts[h].neighbors + {k})];
          hosts := hosts[k := WithNeighbors(hosts[k], hosts[k].neighbors + {h})];
        }
      } else {
        if k in hosts[h].neighbors {
          hosts := hosts[h := WithNeighbors(hosts[h], hosts[h].neighbors - {k})];
          hosts := hosts[k := WithNeighbors(hosts[k], hosts[k].neighbors - {h})];
        }
      }
    }

    method UpdateHostPosition(h: Host, pos: Coord)
      requires Valid() && h in hosts
      modifies `hosts, `log
      ensures Valid() && log == old(log) + [Move(h, pos)]
    {
      hosts := hosts[h := hosts[h].(pos := pos)];
      ghost var moved := hosts;
      assert Agrees(hosts, log, maxInterferenceDistance);
      FaithfulGraph(hosts, log, maxInterferenceDistance);
      UpdateConnections(h);
      MoveFaithful(old(hosts), moved, hosts, log, maxInterferenceDistance, h, pos);
      log := log + [Move(h, pos)];
    }

    /** The cached vector, rebuilt from the set if it is out of date. */
    method GetNeighbors(h: Host) returns (list: seq<Host>)
      requires Valid() && h in hosts
      modifies `hosts
      ensures Valid() && NoDuplicates(list)
      ensures forall b :: b in list <==> Linked(log, maxInterferenceDistance, h, b)
      ensures hosts.Keys == old(hosts).Keys
      ensures forall k :: k in hosts ==> hosts[k].channel == old(hosts)[k].channel
    {
      if !hosts[h].isNeighborListValid {
        var v := [];
        var todo := hosts[h].neighbors;
        while todo != {}
          invariant todo <= hosts[h].neighbors && hosts == old(hosts)
          invariant NoDuplicates(v) && Elements(v) == hosts[h].neighbors - todo
        {
          var k :| k in todo;
          assert k !in Elements(v);
          todo := todo - {k};
          assert Elements(v + [k]) == Elements(v) + {k};
          v := v + [k];
        }
        hosts := hosts[h := hosts[h].(neighborList := v, isNeighborListValid := true)];
      }
      list := hosts[h].neighborList;
      assert forall b :: b in list <==> b in Elements(list);
    }

    /**
     One copy goes to every present neighbour tuned to the frame's channel, and to nobody else; then the
     frame is registered as being on the air.
     */
    method SendToChannel(h: Host, frame: AirFrame, air: Transmissions, t: real) returns (copies: seq<Host>)
      requires Valid() && h in hosts && air.numChannels == numChannels
      requires air.Valid() && air.now <= t && frame.channel < numChannels
      modifies `hosts, air
      ensures Valid() && NoDuplicates(copies)
      ensures forall b :: b in copies <==> Linked(log, maxInterferenceDistance, h, b) && ChannelOf(log, b) == frame.channel
      ensures air.Valid() && air.now == t && air.history == old(air.history) + [frame.(timestamp := t)]
    {
      var neighbors := GetNeighbors(h);
      forall b | b in neighbors
        ensures b in hosts
      {
        LinkedIsGraph(log, maxInterferenceDistance, h, b);
      }
      copies := [];
      for i := 0 to |neighbors|
        invariant NoDuplicates(copies)
        invariant forall b :: b in copies <==> b in neighbors[..i] && hosts[b].channel == frame.channel
      {
        if hosts[neighbors[i]].channel == frame.channel {
          copies := copies + [neighbors[i]];
        }
      }
      air.AddOngoingTransmission(frame, t);
    }
  }

  /** The transmissions on the air, kept so that hosts can switch channels. */
  class Transmissions {
    const numChannels: nat
    var transmissions: seq<seq<AirFrame>>
    var lastOngoingTransmissionsUpdate: real
    ghost var history: seq<AirFrame>
    ghost var now: real

    /** Of each channel's list only frames that are too old are missing. */
    ghost predicate Valid()
      reads this
    {
      && numChannels > 0 && |transmissions| == numChannels
      && (numChannels == 1 ==> transmissions[0] == [])
      && (numChannels > 1 ==>
            forall c :: 0 <= c < numChannels ==> Live(transmissions[c], now) == Live(On(history, c), now))
    }

    constructor (channels: nat)
      requires channels > 0
      ensures Valid() && history == [] && now == 0.0 && numChannels == channels
    {
      numChannels := channels;
      transmissions := seq(channels, i => []);
      lastOngoingTransmissionsUpdate, history, now := 0.0, [], 0.0;
    }

    ghost method Advance(t: real)
      requires Valid() && now <= t
      modifies `now
      ensures Valid() && now == t
    {
      if numChannels > 1 {
        forall c | 0 <= c < numChannels
          ensures Live(transmissions[c], t) == Live(On(history, c), t)
        {
          LiveOfLive(transmissions[c], now, t);
          LiveOfLive(On(history, c), now, t);
        }
      }
      now := t;
    }

    method PurgeChannel(list: seq<AirFrame>, t: real) returns (kept: seq<AirFrame>)
      ensures kept == Live(list, t)
    {
      kept := list;
      var i := 0;
      while i < |kept|
        invariant 0 <= i <= |kept|
        invariant kept[..i] + Live(kept[i..], t) == Live(list, t)
        decreases |kept| - i
      {
        var frame := kept[i];
        assert kept[i..][1..] == kept[i + 1..];
        if frame.timestamp + frame.duration + PURGE_INTERVAL < t {
          var next := kept[..i] + kept[i + 1..];
          assert next[..i] == kept[..i] && next[i..] == kept[i + 1..];
          kept := next;
        } else {
          assert kept[..i + 1] == kept[..i] + [frame];
          i := i + 1;
        }
      }
      assert kept[..i] == kept && kept[i..] == [];
    }

    method PurgeOngoingTransmissions(t: real)
      requires Valid() && now == t
      modifies `transmissions
      ensures Valid()
      ensures forall c :: 0 <= c < numChannels ==> transmissions[c] == Live(old(transmissions)[c], t)
    {
      for i := 0 to numChannels
        invariant |transmissions| == numChannels
        invariant forall c :: 0 <= c < i ==> transmissions[c] == Live(old(transmissions)[c], t)
        invariant forall c :: i <= c < numChannels ==> transmissions[c] == old(transmissions)[c]
      {
        var kept := PurgeChannel(transmissions[i], t);
        transmissions := transmissions[i := kept];
      }
      forall c | 0 <= c < numChannels
        ensures Live(transmissions[c], t) == Live(old(transmissions)[c], t)
      {
        LiveOfLive(old(transmissions)[c], t, t);
      }
    }

    /** Whenever the purges happened, the answer is the whole history filtered by age. */
    method GetOngoingTransmissions(channel: int, t: real) returns (ok: bool, list: seq<AirFrame>)
      requires Valid() && now <= t
      modifies this
      ensures Valid() && now == t && history == old(history)
      ensures ok <==> 0 <= channel < numChannels
      ensures ok ==> list == if numChannels > 1 then Live(On(history, channel), t) else []
      ensures ok && numChannels > 1 ==>
        && (forall f :: f in history && f.channel == channel && f.timestamp + f.duration >= t ==> f in list)
        && (forall f :: f in list ==> f in history && f.channel == channel && f.timestamp + f.duration >= t - 1.0)
    {
      Advance(t);
      list := [];
      ok := 0 <= channel < numChannels;
      if ok {
        PurgeOngoingTransmissions(t);
        list := transmissions[channel];
        LiveOfLive(old(transmissions)[channel], t, t);
        if numChannels > 1 {
          forall f
            ensures f in history && f.channel == channel && f.timestamp + f.duration >= t ==> f in list
            ensures f in list ==> f in history && f.channel == channel && f.timestamp + f.duration >= t - 1.0
          {
            OnTheAirAnswered(history, channel, t, f);
          }
        }
      }
    }

    method AddOngoingTransmission(frame: AirFrame, t: real)
      requires Valid() && now <= t && frame.channel < numChannels
      modifies this
      ensures Valid() && now == t && history == old(history) + [frame.(timestamp := t)]
    {
      Advance(t);
      var f := frame.(timestamp := t);
      if numChannels == 1 {
        history := history + [f];
        return;
      }
      if t - lastOngoingTransmissionsUpdate > PURGE_INTERVAL {
        PurgeOngoingTransmissions(t);
        lastOngoingTransmissionsUpdate := t;
      }
      ghost var before := transmissions;
      transmissions := transmissions[f.channel := transmissions[f.channel] + [f]];
      history := history + [f];
      forall c | 0 <= c < numChannels
        ensures Live(transmissions[c], t) == Live(On(history, c), t)
      {
        LiveMore(before[c], old(history), f, c, t);
      }
    }
  }
}
