/**
 Datagram reassembly: a region that grows from offset 0, and the fragments that do not
 touch it yet.
 */
module ReassemblySpec {

  datatype Region = Region(beg: nat, end: nat, islast: bool)

  predicate Wf(r: Region) { r.beg <= r.end }

  /** Regions that follow one another without a gap. */
  predicate Chain(from: nat, rs: seq<Region>, to: nat)
    decreases rs
  {
    if rs == [] then from == to else rs[0].beg == from && Chain(rs[0].end, rs[1..], to)
  }

  predicate Within(main: Region, r: Region) { main.beg <= r.beg && r.end <= main.end }

  predicate Mergeable(main: Region, r: Region) {
    main.end == r.beg || main.beg == r.end || Within(main, r)
  }

  /** Absorbing stored fragments: the main region grows along a chain until nothing touches it. */
  ghost predicate Merged(main: Region, frags: set<Region>, main': Region, frags': set<Region>, chain: seq<Region>) {
    && main'.beg == main.beg && Chain(main.end, chain, main'.end)
    && (forall r :: r in chain ==> r in frags)
    && (main'.islast <==> main.islast || exists r :: r in chain && r.islast)
    && frags' <= frags
    && (forall r :: r in frags' ==> !Mergeable(main', r))
    && (forall r :: r in frags ==> r in frags' || Within(main', r))
  }

  /** The main region with the fragment that follows it. */
  function Followed(main: Region, r: Region): Region { Region(main.beg, r.end, main.islast || r.islast) }

  /** The effect of one fragment. */
  ghost predicate Adds(main: Region, frags: set<Region>, r: Region, main': Region, frags': set<Region>) {
    if main.end == r.beg then
      exists chain :: Merged(Followed(main, r), frags, main', frags', chain)
    else if main.end < r.beg then main' == main && frags' == frags + {r}
    else main' == main && frags' == frags
  }

  /** The same, with the fragments that were joined to the main region, in order. */
  ghost predicate Joins(main: Region, frags: set<Region>, r: Region, joined: seq<Region>,
                        main': Region, frags': set<Region>)
  {
    && Adds(main, frags, r, main', frags')
    && if main.end == r.beg
       then joined != [] && joined[0] == r && Merged(Followed(main, r), frags, main', frags', joined[1..])
       else joined == []
  }

  // ---------------------------------------------------------------------------
  // Nothing is claimed that was not received
  // ---------------------------------------------------------------------------

  predicate Covers(r: Region, x: nat) { r.beg <= x < r.end }

  function Regions(rs: seq<Region>): set<Region> { set r | r in rs }

  ghost predicate Had(rs: set<Region>, x: nat) { exists r :: r in rs && Covers(r, x) }

  ghost predicate HadLast(rs: set<Region>, end: nat) { exists r :: r in rs && r.islast && r.end <= end }

  /** For any fragments, even overlapping ones. */
  ghost predicate Sound(received: set<Region>, main: Region, frags: set<Region>) {
    && main.beg == 0
    && frags <= received
    && (forall r :: r in received ==> Wf(r))
    && (forall r :: r in frags ==> !Mergeable(main, r))
    && (forall x: nat :: x < main.end ==> Had(received, x))
    && (main.islast ==> HadLast(received, main.end))
  }

  lemma {:induction false} ChainGrows(from: nat, rs: seq<Region>, to: nat)
    requires Chain(from, rs, to) && forall r :: r in rs ==> Wf(r)
    ensures from <= to
    ensures forall r :: r in rs ==> from <= r.beg && r.end <= to
    ensures forall x: nat :: from <= x < to ==> Had(Regions(rs), x)
    decreases rs
  {
    if rs != [] {
      ChainGrows(rs[0].end, rs[1..], to);
      assert rs[0] in rs && Wf(rs[0]);
      forall x: nat | from <= x < to
        ensures Had(Regions(rs), x)
      {
        if x < rs[0].end {
          assert Covers(rs[0], x);
        } else {
          assert Had(Regions(rs[1..]), x);
          var r :| r in rs[1..] && Covers(r, x);
          assert r in rs;
        }
      }
    }
  }

  lemma {:induction false} MergedSound(received: set<Region>, main: Region, frags: set<Region>, main': Region,
                                       frags': set<Region>,
                    chain: seq<Region>)
    requires Merged(main, frags, main', frags', chain) && main.beg == 0 && frags <= received
    requires forall r :: r in received ==> Wf(r)
    requires forall x: nat :: x < main.end ==> Had(received, x)
    requires main.islast ==> HadLast(received, main.end)
    ensures Sound(received, main', frags')
  {
    ChainGrows(main.end, chain, main'.end);
    forall x: nat | x < main'.end
      ensures Had(received, x)
    {
      if x >= main.end {
        assert Had(Regions(chain), x);
        var r :| r in Regions(chain) && Covers(r, x);
        assert r in received;
      }
    }
    if main.islast {
      var r :| r in received && r.islast && r.end <= main.end;
      assert r.end <= main'.end;
    } else if main'.islast {
      var r :| r in chain && r.islast;
      assert r in received && r.end <= main'.end;
    }
  }

  lemma {:induction false} HadMore(rs: set<Region>, all: set<Region>, end: nat)
    requires rs <= all
    ensures forall x: nat :: Had(rs, x) ==> Had(all, x)
    ensures HadLast(rs, end) ==> HadLast(all, end)
  {
    forall x: nat | Had(rs, x)
      ensures Had(all, x)
    {
      var r :| r in rs && Covers(r, x);
      assert r in all;
    }
    if HadLast(rs, end) {
      var r :| r in rs && r.islast && r.end <= end;
      assert r in all;
    }
  }

  /** Whatever comes, the buffer claims only what it was given. */
  lemma {:induction false} AddsSound(received: set<Region>, main: Region, frags: set<Region>, r: Region,
                                     main': Region, frags': set<Region>)
    requires Sound(received, main, frags) && Wf(r) && Adds(main, frags, r, main', frags')
    ensures Sound(received + {r}, main', frags')
  {
    var all := received + {r};
    HadMore(received, all, main.end);
    if main.end == r.beg {
      var main1 := Followed(main, r);
      var chain :| Merged(main1, frags, main', frags', chain);
      forall x: nat | x < main1.end
        ensures Had(all, x)
      {
        if x >= main.end {
          assert Covers(r, x);
        }
      }
      if main.islast {
        var q :| q in all && q.islast && q.end <= main.end;
        assert q.end <= main1.end;
      } else if r.islast {
        assert r in all;
      }
      MergedSound(all, main1, frags, main', frags', chain);
    }
  }

  // ---------------------------------------------------------------------------
  // Any fragments: what is joined, and what is passed over
  // ---------------------------------------------------------------------------

  /** A fragment that reaches from inside the main region beyond its end. */
  predicate Straddles(main: Region, r: Region) { r.beg < main.end < r.end }

  ghost predicate Straddled(received: set<Region>, main: Region) { exists r :: r in received && Straddles(main, r) }

  /** Every fragment received is covered, or straddles the end, or is kept. */
  ghost predicate Placed(received: set<Region>, main: Region, frags: set<Region>) {
    forall r :: r in received ==> r in frags || Within(main, r) || Straddles(main, r)
  }

  /** The main region consists of fragments that each began where it ended when they were joined. */
  ghost predicate BuiltFrom(received: set<Region>, joined: seq<Region>, main: Region) {
    && Chain(0, joined, main.end)
    && (forall r :: r in joined ==> r in received)
    && (main.islast <==> HasLast(joined))
  }

  ghost predicate HasLast(rs: seq<Region>) { exists r :: r in rs && r.islast }

  lemma {:induction false} ChainConcat(a: nat, u: seq<Region>, b: nat, v: seq<Region>, c: nat)
    requires Chain(a, u, b) && Chain(b, v, c)
    ensures Chain(a, u + v, c)
    decreases u
  {
    if u == [] {
      assert u + v == v;
    } else {
      assert (u + v)[1..] == u[1..] + v;
      ChainConcat(u[0].end, u[1..], b, v, c);
    }
  }

  /** The main region only grows, along a chain of received fragments. */
  lemma {:induction false} JoinsChain(received: set<Region>, main: Region, frags: set<Region>, r: Region,
                                      joined: seq<Region>, main': Region, frags': set<Region>)
    requires Joins(main, frags, r, joined, main', frags') && frags <= received && Wf(r)
    requires forall q :: q in received ==> Wf(q)
    ensures Chain(main.end, joined, main'.end) && main.end <= main'.end && main'.beg == main.beg
    ensures main.end == r.beg ==> r.end <= main'.end
    ensures forall q :: q in joined ==> q in received + {r}
    ensures main'.islast <==> main.islast || HasLast(joined)
  {
    if main.end == r.beg {
      var chain := joined[1..];
      assert joined == [r] + chain && forall q :: q in joined <==> q == r || q in chain;
      ChainGrows(r.end, chain, main'.end);
      assert HasLast(joined) <==> r.islast || exists q :: q in chain && q.islast;
    }
  }

  lemma {:induction false} JoinsBuilds(received: set<Region>, main: Region, frags: set<Region>, r: Region,
                                       joined: seq<Region>, main': Region, frags': set<Region>, all: seq<Region>)
    requires Joins(main, frags, r, joined, main', frags') && Sound(received, main, frags) && Wf(r)
    requires BuiltFrom(received, all, main)
    ensures BuiltFrom(received + {r}, all + joined, main')
  {
    JoinsChain(received, main, frags, r, joined, main', frags');
    ChainConcat(0, all, main.end, joined, main'.end);
    assert forall q :: q in all + joined <==> q in all || q in joined;
  }

  lemma {:induction false} JoinsPlaced(received: set<Region>, main: Region, frags: set<Region>, r: Region,
                                       joined: seq<Region>, main': Region, frags': set<Region>)
    requires Joins(main, frags, r, joined, main', frags') && Sound(received, main, frags) && Wf(r)
    requires Placed(received, main, frags)
    ensures Placed(received + {r}, main', frags')
  {
    JoinsChain(received, main, frags, r, joined, main', frags');
  }

  /** The next offset was received exactly if a fragment straddles the end. */
  lemma {:induction false} NextHadExactlyWhen(received: set<Region>, main: Region, frags: set<Region>)
    requires Sound(received, main, frags) && Placed(received, main, frags)
    ensures Had(received, main.end) <==> Straddled(received, main)
  {
    if Had(received, main.end) {
      var r :| r in received && Covers(r, main.end);
      assert r !in frags || r.beg < main.end;
      assert Straddles(main, r);
    }
    if Straddled(received, main) {
      var r :| r in received && Straddles(main, r);
      assert Covers(r, main.end);
    }
  }

  /** A new fragment is used or kept exactly if it does not begin inside the main region. */
  lemma {:induction false} KeptExactlyWhen(main: Region, frags: set<Region>, r: Region, joined: seq<Region>,
                                           main': Region, frags': set<Region>)
    requires Joins(main, frags, r, joined, main', frags') && r !in frags
    ensures r in joined || r in frags' <==> main.end <= r.beg
  {
  }

  datatype State = State(main: Region, frags: set<Region>)

  const EMPTY := State(Region(0, 0, false), {})

  /** The states of a buffer given the fragments `order`, and what each of them led to be joined. */
  ghost predicate IsRunOf(order: seq<Region>, ss: seq<State>, js: seq<seq<Region>>) {
    && |ss| == |order| + 1 && |js| == |order| && ss[0] == EMPTY
    && (forall k :: 0 <= k < |order| ==> Wf(order[k]))
    && forall k :: 0 <= k < |order| ==>
         Joins(ss[k].main, ss[k].frags, order[k], js[k], ss[k + 1].main, ss[k + 1].frags)
  }

  function Flat(js: seq<seq<Region>>): seq<Region> {
    if js == [] then [] else Flat(js[..|js| - 1]) + js[|js| - 1]
  }

  lemma {:induction false} RunInv(order: seq<Region>, ss: seq<State>, js: seq<seq<Region>>)
    requires IsRunOf(order, ss, js)
    ensures var s := ss[|order|]; var received := Regions(order);
      Sound(received, s.main, s.frags) && Placed(received, s.main, s.frags) && BuiltFrom(received, Flat(js), s.main)
  {
    if order != [] {
      var n := |order| - 1;
      var received := Regions(order[..n]);
      RunInv(order[..n], ss[..n + 1], js[..n]);
      assert Regions(order) == received + {order[n]};
      var (s, s') := (ss[n], ss[n + 1]);
      AddsSound(received, s.main, s.frags, order[n], s'.main, s'.frags);
      JoinsPlaced(received, s.main, s.frags, order[n], js[n], s'.main, s'.frags);
      JoinsBuilds(received, s.main, s.frags, order[n], js[n], s'.main, s'.frags, Flat(js[..n]));
    }
  }

  /** Everything up to `end` was received, and the next offset was not. */
  ghost predicate LongestPrefix(received: set<Region>, end: nat) {
    (forall x: nat :: x < end ==> Had(received, x)) && !Had(received, end)
  }

  /**
   After any fragments in any order, overlapping or not: the main region is the longest received
   prefix exactly if no fragment straddles its end, and it is taken to be complete exactly if some last
   fragment began where the region ended when it was joined.
   */
  lemma {:induction false} PrefixExactlyWhen(order: seq<Region>, ss: seq<State>, js: seq<seq<Region>>)
    requires IsRunOf(order, ss, js)
    ensures var main := ss[|order|].main; var received := Regions(order);
      && (LongestPrefix(received, main.end) <==> !Straddled(received, main))
      && Chain(0, Flat(js), main.end)
      && (main.islast <==> HasLast(Flat(js)))
  {
    RunInv(order, ss, js);
    NextHadExactlyWhen(Regions(order), ss[|order|].main, ss[|order|].frags);
  }

  lemma {:induction false} ChainReaches(from: nat, rs: seq<Region>, to: nat)
    requires Chain(from, rs, to) && from != to
    ensures exists r :: r in rs && r.end == to
    decreases rs
  {
    if rs[0].end == to {
      assert rs[0] in rs;
    } else {
      ChainReaches(rs[0].end, rs[1..], to);
      var r :| r in rs[1..] && r.end == to;
      assert r in rs;
    }
  }

  /** The fragments are cut, in whatever ways, from data of length `n`; those that reach its end are marked as last. */
  predicate CutFrom(order: seq<Region>, n: nat) {
    n > 0 && forall k :: 0 <= k < |order| ==> order[k].end <= n && (order[k].islast <==> order[k].end == n)
  }

  /**
   When all of a datagram was received, in fragments of different cuts, it is complete exactly if no
   fragment straddles the end of what was joined.
   */
  lemma {:induction false} OverlapsCompleteExactlyWhen(order: seq<Region>, ss: seq<State>, js: seq<seq<Region>>, n: nat)
    requires IsRunOf(order, ss, js) && CutFrom(order, n)
    ensures var main := ss[|order|].main; var received := Regions(order);
      && (main.islast <==> main.end == n)
      && ((forall x: nat :: x < n ==> Had(received, x)) ==> (main.islast <==> !Straddled(received, main)))
  {
    var main := ss[|order|].main;
    var received := Regions(order);
    RunInv(order, ss, js);
    assert forall r :: r in received ==> r.end <= n && (r.islast <==> r.end == n);
    ChainGrows(0, Flat(js), main.end);
    if main.end == n {
      ChainReaches(0, Flat(js), n);
    }
    BuiltWithin(received, Flat(js), main, n);
    NextHadExactlyWhen(received, main, ss[|order|].frags);
  }

  lemma {:induction false} BuiltWithin(received: set<Region>, joined: seq<Region>, main: Region, n: nat)
    requires BuiltFrom(received, joined, main) && forall r :: r in received ==> Wf(r) && r.end <= n
    ensures main.end <= n && forall r :: r in joined ==> r.end <= main.end
  {
    ChainGrows(0, joined, main.end);
    if main.end > 0 {
      ChainReaches(0, joined, main.end);
    }
  }

  // ---------------------------------------------------------------------------
  // Fragments of one datagram
  // ---------------------------------------------------------------------------

  /** The cut points 0 = cuts[0] < cuts[1] < ... of a datagram that was sent in pieces. */
  predicate Cuts(cuts: seq<nat>) {
    |cuts| >= 2 && cuts[0] == 0 && forall i, j :: 0 <= i < j < |cuts| ==> cuts[i] < cuts[j]
  }

  function Pieces(cuts: seq<nat>): nat
    requires Cuts(cuts)
  {
    |cuts| - 1
  }

  function Piece(cuts: seq<nat>, i: nat): Region
    requires Cuts(cuts) && i < Pieces(cuts)
  {
    Region(cuts[i], cuts[i + 1], i == Pieces(cuts) - 1)
  }

  /** The first `p` pieces are joined, the next is missing, and the others received are set aside. */
  ghost predicate Assembled(cuts: seq<nat>, got: set<nat>, p: nat, main: Region, frags: set<Region>)
    requires Cuts(cuts)
  {
    && p <= Pieces(cuts)
    && main == Region(0, cuts[p], p == Pieces(cuts))
    && (forall i :: i in got ==> i < Pieces(cuts))
    && (forall i: nat :: i < p ==> i in got)
    && (p < Pieces(cuts) ==> p !in got)
    && (forall r :: r in frags ==> exists i :: i in got && i > p && r == Piece(cuts, i))
    && (forall i :: i in got && i > p ==> Piece(cuts, i) in frags)
  }

  lemma CutsOrdered(cuts: seq<nat>, i: nat, j: nat)
    requires Cuts(cuts) && i < |cuts| && j < |cuts|
    ensures i <= j <==> cuts[i] <= cuts[j]
  {
  }

  /** A chain of pieces is a run of consecutive pieces. */
  lemma {:induction false} ChainOfPieces(cuts: seq<nat>, got: set<nat>, chain: seq<Region>, k: nat, to: nat)
    requires Cuts(cuts) && k <= Pieces(cuts) && Chain(cuts[k], chain, to)
    requires forall i :: i in got ==> i < Pieces(cuts)
    requires forall r :: r in chain ==> exists i :: i in got && r == Piece(cuts, i)
    ensures k + |chain| <= Pieces(cuts) && to == cuts[k + |chain|]
    ensures forall i: nat :: k <= i < k + |chain| ==> i in got
    ensures (exists r :: r in chain && r.islast) <==> chain != [] && k + |chain| == Pieces(cuts)
    decreases chain
  {
    if chain != [] {
      assert chain[0] in chain;
      var i :| i in got && chain[0] == Piece(cuts, i);
      CutsOrdered(cuts, i, k);
      CutsOrdered(cuts, k, i);
      assert i == k;
      assert forall r :: r in chain[1..] ==> r in chain;
      ChainOfPieces(cuts, got, chain[1..], k + 1, to);
      assert (exists r :: r in chain && r.islast) <==> chain[0].islast || exists r :: r in chain[1..] && r.islast;
    }
  }

  /** Merging stops only before a piece that has not been received. */
  lemma {:induction false} NextIsMissing(cuts: seq<nat>, got: set<nat>, p: nat, main: Region, frags: set<Region>,
                      main1: Region, main': Region, frags': set<Region>, chain: seq<Region>, q: nat)
    requires Cuts(cuts) && p < q < Pieces(cuts) && Assembled(cuts, got, p, main, frags)
    requires Merged(main1, frags, main', frags', chain) && main'.end == cuts[q]
    ensures q !in got
  {
    if q in got {
      var r := Piece(cuts, q);
      assert r in frags;
      assert Mergeable(main', r) && !Within(main', r);
      assert false;
    }
  }

  lemma {:induction false} LeftOver(cuts: seq<nat>, got: set<nat>, p: nat, main: Region, frags: set<Region>,
                 main1: Region, main': Region, frags': set<Region>, chain: seq<Region>, q: nat)
    requires Cuts(cuts) && p < q <= Pieces(cuts) && Assembled(cuts, got, p, main, frags)
    requires Merged(main1, frags, main', frags', chain) && main'.beg == 0 && main'.end == cuts[q]
    ensures forall r :: r in frags' ==> exists i :: i in got && i > q && r == Piece(cuts, i)
    ensures forall i :: i in got && i > q ==> Piece(cuts, i) in frags'
  {
    forall r | r in frags'
      ensures exists i :: i in got && i > q && r == Piece(cuts, i)
    {
      var i :| i in got && i > p && r == Piece(cuts, i);
      CutsOrdered(cuts, i + 1, q);
      assert i > q;
    }
    forall i | i in got && i > q
      ensures Piece(cuts, i) in frags'
    {
      assert Piece(cuts, i) in frags;
      CutsOrdered(cuts, i + 1, q);
    }
  }

  lemma {:induction false} JoinsPieces(cuts: seq<nat>, got: set<nat>, p: nat, main: Region, frags: set<Region>,
                    main': Region, frags': set<Region>, chain: seq<Region>)
    requires Cuts(cuts) && p < Pieces(cuts) && Assembled(cuts, got, p, main, frags)
    requires Merged(Followed(main, Piece(cuts, p)), frags, main', frags', chain)
    ensures p + 1 + |chain| <= Pieces(cuts)
    ensures Assembled(cuts, got + {p}, p + 1 + |chain|, main', frags')
  {
    var main1 := Followed(main, Piece(cuts, p));
    ChainOfPieces(cuts, got, chain, p + 1, main'.end);
    var q := p + 1 + |chain|;
    if q < Pieces(cuts) {
      NextIsMissing(cuts, got, p, main, frags, main1, main', frags', chain, q);
    }
    LeftOver(cuts, got, p, main, frags, main1, main', frags', chain, q);
  }

  /** A piece that is not the next one is ignored if it was joined before, and else kept for later. */
  lemma {:induction false} KeepsPiece(cuts: seq<nat>, got: set<nat>, p: nat, main: Region, frags: set<Region>, i: nat,
                  main': Region, frags': set<Region>)
    requires Cuts(cuts) && Assembled(cuts, got, p, main, frags) && i < Pieces(cuts) && i != p
    requires Adds(main, frags, Piece(cuts, i), main', frags')
    ensures Assembled(cuts, got + {i}, p, main', frags')
  {
    if i < p {
      assert cuts[i] < cuts[p];
      assert got + {i} == got;
    } else {
      assert cuts[p] < cuts[i];
    }
  }

  /** Each piece, new or duplicate and in whatever order, takes the buffer to the next such state. */
  lemma {:induction false} AddsPiece(cuts: seq<nat>, got: set<nat>, p: nat, main: Region, frags: set<Region>, i: nat,
                  main': Region, frags': set<Region>) returns (q: nat)
    requires Cuts(cuts) && Assembled(cuts, got, p, main, frags) && i < Pieces(cuts)
    requires Adds(main, frags, Piece(cuts, i), main', frags')
    ensures Assembled(cuts, got + {i}, q, main', frags')
  {
    q := p;
    if i == p {
      var chain :| Merged(Followed(main, Piece(cuts, p)), frags, main', frags', chain);
      JoinsPieces(cuts, got, p, main, frags, main', frags', chain);
      q := p + 1 + |chain|;
    } else {
      KeepsPiece(cuts, got, p, main, frags, i, main', frags');
    }
  }

  /** The states of a buffer that is given the pieces `order`, in that order. */
  ghost predicate IsRun(cuts: seq<nat>, order: seq<nat>, ss: seq<State>)
    requires Cuts(cuts)
  {
    && |ss| == |order| + 1 && ss[0] == EMPTY
    && (forall k :: 0 <= k < |order| ==> order[k] < Pieces(cuts))
    && forall k :: 0 <= k < |order| ==>
         Adds(ss[k].main, ss[k].frags, Piece(cuts, order[k]), ss[k + 1].main, ss[k + 1].frags)
  }

  function Got(order: seq<nat>): set<nat> { set i | i in order }

  lemma RunPrefix(cuts: seq<nat>, order: seq<nat>, ss: seq<State>)
    requires Cuts(cuts) && IsRun(cuts, order, ss) && order != []
    ensures var n := |order| - 1;
      && IsRun(cuts, order[..n], ss[..n + 1]) && order[n] < Pieces(cuts)
      && Adds(ss[n].main, ss[n].frags, Piece(cuts, order[n]), ss[n + 1].main, ss[n + 1].frags)
      && Got(order) == Got(order[..n]) + {order[n]}
  {
  }

  lemma {:induction false} RunAssembles(cuts: seq<nat>, order: seq<nat>, ss: seq<State>) returns (p: nat)
    requires Cuts(cuts) && IsRun(cuts, order, ss)
    ensures Assembled(cuts, Got(order), p, ss[|order|].main, ss[|order|].frags)
  {
    if order == [] {
      p := 0;
    } else {
      var n := |order| - 1;
      RunPrefix(cuts, order, ss);
      p := RunAssembles(cuts, order[..n], ss[..n + 1]);
      p := AddsPiece(cuts, Got(order[..n]), p, ss[n].main, ss[n].frags, order[n], ss[n + 1].main, ss[n + 1].frags);
    }
  }

  /** The datagram is complete exactly when every piece has arrived; then its length is right. */
  lemma {:induction false} CompleteExactlyWhen(cuts: seq<nat>, order: seq<nat>, ss: seq<State>)
    requires Cuts(cuts) && IsRun(cuts, order, ss)
    ensures var main := ss[|order|].main;
      && main.beg == 0
      && (main.islast <==> forall i: nat :: i < Pieces(cuts) ==> i in order)
      && (main.islast ==> main.end == cuts[Pieces(cuts)])
  {
    var p := RunAssembles(cuts, order, ss);
    assert forall i: nat :: i in order <==> i in Got(order);
  }

  // ---------------------------------------------------------------------------
  // Two ways in which overlapping fragments fail
  // ---------------------------------------------------------------------------

  const WIDE := Region(0, 10, false)
  const LEFT := Region(0, 5, false)
  const RIGHT := Region(5, 20, true)

  lemma {:induction false} JoinsAlone(main: Region, r: Region)
    requires main.end == r.beg
    ensures Joins(main, {}, r, [r], Followed(main, r), {})
  {
    assert [r][1..] == [];
    assert Merged(Followed(main, r), {}, Followed(main, r), {}, [r][1..]);
  }

  /**
   The same three fragments: in one order the last of them straddles the end and the datagram never
   completes. Both orders are run here, and have no other outcome.
   */
  lemma {:induction false} StraddlingDependsOnOrder()
    returns (ss: seq<State>, js: seq<seq<Region>>, tt: seq<State>, ks: seq<seq<Region>>)
    ensures CutFrom([WIDE, LEFT, RIGHT], 20) && multiset([WIDE, LEFT, RIGHT]) == multiset([LEFT, RIGHT, WIDE])
    ensures IsRunOf([WIDE, LEFT, RIGHT], ss, js) && ss[3] == State(Region(0, 10, false), {}) && Straddles(ss[3].main, RIGHT)
    ensures IsRunOf([LEFT, RIGHT, WIDE], tt, ks) && tt[3] == State(Region(0, 20, true), {})
    ensures forall ss': seq<State>, js': seq<seq<Region>> :: IsRunOf([WIDE, LEFT, RIGHT], ss', js') ==> ss'[3] == ss[3]
    ensures forall tt': seq<State>, ks': seq<seq<Region>> :: IsRunOf([LEFT, RIGHT, WIDE], tt', ks') ==> tt'[3] == tt[3]
  {
    var (wide, left, whole) := (State(WIDE, {}), State(LEFT, {}), State(Region(0, 20, true), {}));
    JoinsAlone(EMPTY.main, WIDE);
    JoinsAlone(EMPTY.main, LEFT);
    JoinsAlone(LEFT, RIGHT);
    ss, js := [EMPTY, wide, wide, wide], [[WIDE], [], []];
    tt, ks := [EMPTY, left, whole, whole], [[LEFT], [RIGHT], []];
    forall ss': seq<State>, js': seq<seq<Region>> | IsRunOf([WIDE, LEFT, RIGHT], ss', js')
      ensures ss'[3] == ss[3]
    {
      assert Adds(ss'[0].main, ss'[0].frags, WIDE, ss'[1].main, ss'[1].frags);
      NothingToMerge(Region(0, 10, false), ss'[1].main, ss'[1].frags);
      assert Adds(ss'[1].main, ss'[1].frags, LEFT, ss'[2].main, ss'[2].frags);
      assert Adds(ss'[2].main, ss'[2].frags, RIGHT, ss'[3].main, ss'[3].frags);
    }
    forall tt': seq<State>, ks': seq<seq<Region>> | IsRunOf([LEFT, RIGHT, WIDE], tt', ks')
      ensures tt'[3] == tt[3]
    {
      assert Adds(tt'[0].main, tt'[0].frags, LEFT, tt'[1].main, tt'[1].frags);
      NothingToMerge(Region(0, 5, false), tt'[1].main, tt'[1].frags);
      assert Adds(tt'[1].main, tt'[1].frags, RIGHT, tt'[2].main, tt'[2].frags);
      NothingToMerge(Region(0, 20, true), tt'[2].main, tt'[2].frags);
      assert Adds(tt'[2].main, tt'[2].frags, WIDE, tt'[3].main, tt'[3].frags);
    }
  }

  const FRONT := Region(0, 10, false)
  const BACK := Region(10, 20, true)
  const WHOLE := Region(0, 20, false)

  /**
   The same three fragments: in one order the last one is taken for a duplicate, though nothing straddles
   the end. Both orders are run here, and have no other outcome.
   */
  lemma {:induction false} SwallowingDependsOnOrder()
    returns (ss: seq<State>, js: seq<seq<Region>>, tt: seq<State>, ks: seq<seq<Region>>)
    ensures !CutFrom([WHOLE, FRONT, BACK], 20) && multiset([WHOLE, FRONT, BACK]) == multiset([FRONT, BACK, WHOLE])
    ensures IsRunOf([WHOLE, FRONT, BACK], ss, js) && ss[3] == State(Region(0, 20, false), {})
    ensures !Straddled(Regions([WHOLE, FRONT, BACK]), ss[3].main)
    ensures IsRunOf([FRONT, BACK, WHOLE], tt, ks) && tt[3] == State(Region(0, 20, true), {})
    ensures forall ss': seq<State>, js': seq<seq<Region>> :: IsRunOf([WHOLE, FRONT, BACK], ss', js') ==> ss'[3] == ss[3]
    ensures forall tt': seq<State>, ks': seq<seq<Region>> :: IsRunOf([FRONT, BACK, WHOLE], tt', ks') ==> tt'[3] == tt[3]
  {
    assert [WHOLE, FRONT, BACK][0] == WHOLE;
    var (whole, front, both) := (State(WHOLE, {}), State(FRONT, {}), State(Region(0, 20, true), {}));
    JoinsAlone(EMPTY.main, WHOLE);
    JoinsAlone(EMPTY.main, FRONT);
    JoinsAlone(FRONT, BACK);
    ss, js := [EMPTY, whole, whole, whole], [[WHOLE], [], []];
    tt, ks := [EMPTY, front, both, both], [[FRONT], [BACK], []];
    forall ss': seq<State>, js': seq<seq<Region>> | IsRunOf([WHOLE, FRONT, BACK], ss', js')
      ensures ss'[3] == ss[3]
    {
      assert Adds(ss'[0].main, ss'[0].frags, WHOLE, ss'[1].main, ss'[1].frags);
      NothingToMerge(Region(0, 20, false), ss'[1].main, ss'[1].frags);
      assert Adds(ss'[1].main, ss'[1].frags, FRONT, ss'[2].main, ss'[2].frags);
      assert Adds(ss'[2].main, ss'[2].frags, BACK, ss'[3].main, ss'[3].frags);
    }
    forall tt': seq<State>, ks': seq<seq<Region>> | IsRunOf([FRONT, BACK, WHOLE], tt', ks')
      ensures tt'[3] == tt[3]
    {
      assert Adds(tt'[0].main, tt'[0].frags, FRONT, tt'[1].main, tt'[1].frags);
      NothingToMerge(Region(0, 10, false), tt'[1].main, tt'[1].frags);
      assert Adds(tt'[1].main, tt'[1].frags, BACK, tt'[2].main, tt'[2].frags);
      NothingToMerge(Region(0, 20, true), tt'[2].main, tt'[2].frags);
      assert Adds(tt'[2].main, tt'[2].frags, WHOLE, tt'[3].main, tt'[3].frags);
    }
  }

  lemma {:induction false} SwallowsBack(main': Region, frags': set<Region>)
    requires exists chain :: Merged(Region(0, 20, false), {BACK}, main', frags', chain)
    ensures main' == Region(0, 20, false) && frags' == {}
  {
    var chain :| Merged(Region(0, 20, false), {BACK}, main', frags', chain);
    HeadInside(chain);
    assert Mergeable(Region(0, 20, false), BACK);
  }

  /**
   Without the front part, in either order: all is received, and the datagram never completes. Both orders
   are run here, and have no other outcome.
   */
  lemma {:induction false} SwallowedInEitherOrder()
    returns (ss: seq<State>, js: seq<seq<Region>>, tt: seq<State>, ks: seq<seq<Region>>)
    ensures IsRunOf([WHOLE, BACK], ss, js) && IsRunOf([BACK, WHOLE], tt, ks)
    ensures ss[2] == tt[2] == State(Region(0, 20, false), {})
    ensures forall ss': seq<State>, js': seq<seq<Region>> :: IsRunOf([WHOLE, BACK], ss', js') ==> ss'[2] == ss[2]
    ensures forall tt': seq<State>, ks': seq<seq<Region>> :: IsRunOf([BACK, WHOLE], tt', ks') ==> tt'[2] == tt[2]
  {
    var whole := State(WHOLE, {});
    JoinsAlone(EMPTY.main, WHOLE);
    assert Merged(WHOLE, {BACK}, WHOLE, {}, [WHOLE][1..]);
    ss, js := [EMPTY, whole, whole], [[WHOLE], []];
    tt, ks := [EMPTY, State(EMPTY.main, {BACK}), whole], [[], [WHOLE]];
    forall ss': seq<State>, js': seq<seq<Region>> | IsRunOf([WHOLE, BACK], ss', js')
      ensures ss'[2] == ss[2]
    {
      assert Adds(ss'[0].main, ss'[0].frags, WHOLE, ss'[1].main, ss'[1].frags);
      NothingToMerge(Region(0, 20, false), ss'[1].main, ss'[1].frags);
      assert Adds(ss'[1].main, ss'[1].frags, BACK, ss'[2].main, ss'[2].frags);
    }
    forall tt': seq<State>, ks': seq<seq<Region>> | IsRunOf([BACK, WHOLE], tt', ks')
      ensures tt'[2] == tt[2]
    {
      assert Adds(tt'[0].main, tt'[0].frags, BACK, tt'[1].main, tt'[1].frags);
      assert tt'[1].frags == {BACK};
      assert Adds(tt'[1].main, tt'[1].frags, WHOLE, tt'[2].main, tt'[2].frags);
      SwallowsBack(tt'[2].main, tt'[2].frags);
    }
  }

  lemma {:induction false} NothingToMerge(main: Region, main': Region, frags': set<Region>)
    requires exists chain :: Merged(main, {}, main', frags', chain)
    ensures main' == main && frags' == {}
  {
    var chain :| Merged(main, {}, main', frags', chain);
    HeadInside(chain);
  }

  lemma {:induction false} MergedFixpoint(main: Region, frags: set<Region>, main': Region, frags': set<Region>,
                                          chain: seq<Region>)
    requires Merged(main, frags, main', frags', chain) && forall r :: r in frags ==> !Mergeable(main, r)
    ensures main' == main && frags' == frags
  {
    HeadInside(chain);
  }

  lemma HeadInside(rs: seq<Region>)
    ensures rs != [] ==> rs[0] in rs
  {
  }

  lemma {:induction false} ChainAppend(from: nat, rs: seq<Region>, r: Region)
    requires Chain(from, rs, r.beg)
    ensures Chain(from, rs + [r], r.end)
    decreases rs
  {
    if rs == [] {
      assert (rs + [r])[1..] == [];
    } else {
      assert (rs + [r])[1..] == rs[1..] + [r];
      ChainAppend(rs[0].end, rs[1..], r);
    }
  }
}

module ReassemblyModule {
  import opened ReassemblySpec

  /** What has been absorbed so far, whether or not more can be. */
  ghost predicate Absorbing(main: Region, frags: set<Region>, main': Region, frags': set<Region>, chain: seq<Region>) {
    && main'.beg == main.beg && main.end <= main'.end && Chain(main.end, chain, main'.end)
    && (forall r :: r in chain ==> r in frags)
    && (main'.islast <==> main.islast || exists r :: r in chain && r.islast)
    && frags' <= frags
    && (forall r :: r in frags ==> r in frags' || Within(main', r))
  }

  lemma {:induction false} AbsorbNext(main: Region, frags: set<Region>, main': Region, frags': set<Region>,
                                      chain: seq<Region>,
                   r: Region, frags'': set<Region>)
    requires Absorbing(main, frags, main', frags', chain) && main.beg == 0
    requires Wf(r) && r in frags' && main'.end == r.beg && frags'' <= frags' && frags' <= frags'' + {r}
    ensures Absorbing(main, frags, Followed(main', r), frags'', chain + [r])
  {
    ChainAppend(main.end, chain, r);
    assert forall q :: q in chain + [r] <==> q in chain || q == r;
  }

  lemma {:induction false} DropAt(fs: seq<Region>, i: nat)
    requires i < |fs|
    ensures var rest := fs[..i] + fs[i + 1..];
      Regions(rest) <= Regions(fs) <= Regions(rest) + {fs[i]}
  {
    forall r | r in fs
      ensures r in fs[..i] + fs[i + 1..] || r == fs[i]
    {
      var j :| 0 <= j < |fs| && fs[j] == r;
      if j < i {
        assert fs[..i][j] == r;
      } else if j > i {
        assert fs[i + 1..][j - i - 1] == r;
      }
    }
  }

  class ReassemblyBuffer {
    var main: Region
    var fragments: seq<Region>
    ghost var received: set<Region>
    ghost var joined: seq<Region>      // to the main region, in order

    ghost predicate Valid()
      reads this
    {
      && Sound(received, main, Regions(fragments))
      && Placed(received, main, Regions(fragments))
      && BuiltFrom(received, joined, main)
    }

    constructor ()
      ensures Valid() && main == Region(0, 0, false) && fragments == [] && received == {}
    {
      main, fragments, received, joined := Region(0, 0, false), [], {}, [];
    }

    /** Sweeps over the stored fragments until a whole sweep changes nothing. */
    method MergeFragments() returns (ghost chain: seq<Region>)
      requires main.beg == 0 && forall r :: r in fragments ==> Wf(r)
      modifies `main, `fragments
      ensures Merged(old(main), Regions(old(fragments)), main, Regions(fragments), chain)
    {
      chain := [];
      ghost var all := Regions(fragments);
      var oncemore := true;
      while oncemore
        invariant main.beg == 0 && forall r :: r in all ==> Wf(r)
        invariant Absorbing(old(main), all, main, Regions(fragments), chain)
        invariant !oncemore ==> forall j :: 0 <= j < |fragments| ==> !Mergeable(main, fragments[j])
        decreases |fragments| + if oncemore then 1 else 0
      {
        oncemore := false;
        var i := 0;
        ghost var before := |fragments|;
        while i < |fragments|
          invariant 0 <= i <= |fragments| <= before && (oncemore ==> |fragments| < before)
          invariant main.beg == 0 && Absorbing(old(main), all, main, Regions(fragments), chain)
          invariant !oncemore ==> forall j :: 0 <= j < i ==> !Mergeable(main, fragments[j])
          decreases |fragments| - i
        {
          var frag := fragments[i];
          var rest := fragments[..i] + fragments[i + 1..];
          var deleteit := false;
          assert frag in Regions(fragments);
          DropAt(fragments, i);
          if main.end == frag.beg {
            AbsorbNext(old(main), all, main, Regions(fragments), chain, frag, Regions(rest));
            chain := chain + [frag];
            main := main.(end := frag.end);
            if frag.islast {
              main := main.(islast := true);
            }
            deleteit := true;
          } else if main.beg == frag.end {
            main := main.(beg := frag.beg);
            deleteit := true;
          } else if main.beg <= frag.beg && main.end >= frag.end {
            deleteit := true;
          }
          if deleteit {
            fragments := rest;
            oncemore := true;
          } else {
            i := i + 1;
          }
        }
      }
    }

    method Merge(r: Region) returns (ghost js: seq<Region>)
      requires Valid() && Wf(r)
      modifies `main, `fragments
      ensures Joins(old(main), Regions(old(fragments)), r, js, main, Regions(fragments))
    {
      js := [];
      if main.end == r.beg {
        main := main.(end := r.end);
        if r.islast {
          main := main.(islast := true);
        }
        ghost var chain := MergeFragments();
        assert Merged(Followed(old(main), r), Regions(old(fragments)), main, Regions(fragments), chain);
        js := [r] + chain;
        assert js[1..] == chain;
      } else if main.beg == r.end {
        main := main.(beg := r.beg);
        ghost var chain := MergeFragments();
        MergedFixpoint(old(main), Regions(old(fragments)), main, Regions(fragments), chain);
      } else if main.end < r.beg || main.beg > r.end {
        fragments := fragments + [r];
        assert Regions(fragments) == Regions(old(fragments)) + {r};
      }
    }

    /** True exactly when a last fragment has been joined; what is joined is the longest prefix unless straddled. */
    method AddFragment(r: Region) returns (complete: bool)
      requires Valid() && Wf(r)
      modifies this
      ensures Valid() && received == old(received) + {r}
      ensures Adds(old(main), Regions(old(fragments)), r, main, Regions(fragments))
      ensures old(joined) <= joined && (complete <==> HasLast(joined))
      ensures LongestPrefix(received, main.end) <==> !Straddled(received, main)
    {
      ghost var js := Merge(r);
      ghost var frags := Regions(old(fragments));
      AddsSound(received, old(main), frags, r, main, Regions(fragments));
      JoinsPlaced(received, old(main), frags, r, js, main, Regions(fragments));
      JoinsBuilds(received, old(main), frags, r, js, main, Regions(fragments), joined);
      received, joined := received + {r}, joined + js;
      NextHadExactlyWhen(received, main, Regions(fragments));
      complete := main.beg == 0 && main.islast;
    }

    /** The fragments joined reach from 0 to there, and that is the longest received prefix unless one straddles it. */
    method GetTotalLength() returns (n: nat)
      requires Valid()
      ensures Chain(0, joined, n)
      ensures LongestPrefix(received, n) <==> !Straddled(received, main)
    {
      NextHadExactlyWhen(received, main, Regions(fragments));
      n := main.end;
    }
  }
}
