/**
 What clients and server do with each input, and that it leads to leases: whom the server serves, that
 a client can join from any state, and that a lease can be renewed.
 */
module DhcpProgress {
  import opened DhcpSpec
  import opened DhcpSystem
  import opened DhcpStray
  import opened Options

  // ---------------------------------------------------------------------------
  // The client's state diagram
  // ---------------------------------------------------------------------------

  /** The phase an input leads to. */
  function NextPhase(c: Client, i: Input): Phase {
    if i.Associated? then SELECTING
    else if i.T1? then RENEWING
    else if i.T2? && c.phase == RENEWING then REBINDING
    else if TakesOffer(c, i) then REQUESTING
    else if TakesAck(c, i) then BOUND
    else c.phase
  }

  /** The input makes the client send: it moves to a phase that waits for an answer, or has waited in vain. */
  predicate Asks(c: Client, i: Input) {
    i.Associated? || i.Timeout? || i.T1? || (i.T2? && c.phase == RENEWING) || TakesOffer(c, i)
  }

  /** A DISCOVER to find a server; a REQUEST to the server whose offer was taken; else a REQUEST to any. */
  predicate Sends(c: Client, x: Xid, sent: Msg) {
    && sent.xid == x && sent.chaddr == c.mac
    && (if c.phase == SELECTING then sent.Discover? else sent.Request?)
    && (c.phase == REQUESTING ==> c.lease.Some? && sent.server == c.lease.value.server)
    && (c.phase in {RENEWING, REBINDING} ==> sent.server == 0)
  }

  /** Which phase an input leads to, what is then sent, and what becomes of the counter and of T2. */
  lemma ClientDiagram(c: Client, i: Input, x: Xid)
    requires ClientInv(c) && Possible(c, i) && !Crashes(c, i)
    ensures var r := React(c, i, x);
      && r.c.phase == NextPhase(c, i)
      && (r.sent.Some? <==> Asks(c, i))
      && (r.sent.Some? ==> Sends(r.c, x, r.sent.value))
      && r.c.retry == (if i.Timeout? then (c.retry + 1) % 11 else c.retry)
      && (r.c.t2 <==> TakesAck(c, i) || (c.t2 && !i.Associated? && !i.T2?))
  {
  }

  function Timeouts(acts: seq<Action>, m: Mac): nat {
    if acts == [] then 0
    else
      var a := acts[|acts| - 1];
      Timeouts(acts[..|acts| - 1], m) + if TimesOut(a, m) then 1 else 0
  }

  predicate TimesOut(a: Action, m: Mac) { a.AtClient? && a.m == m && a.i.Timeout? }

  lemma {:induction false} DoRetry(s: System, a: Action, m: Mac)
    requires Enabled(s, a) && !Faulty(s, a) && m in s.clients && ClientInv(s.clients[m])
    ensures m in Do(s, a).clients
    ensures Do(s, a).clients[m].retry == if TimesOut(a, m) then (s.clients[m].retry + 1) % 11 else s.clients[m].retry
  {
    if a.AtClient? && a.m == m {
      ClientDiagram(s.clients[m], a.i, a.x);
    }
  }

  /** The counter `r` after `k` timeouts. */
  predicate Shows(r: nat, k: nat) { r == k % 11 }

  lemma ShowsNext(r: nat, k: nat)
    requires Shows(r, k)
    ensures Shows((r + 1) % 11, k + 1)
  {
  }

  lemma {:induction false} DoShows(s: System, a: Action, m: Mac, k: nat)
    requires Enabled(s, a) && !Faulty(s, a) && m in s.clients && ClientInv(s.clients[m]) && Shows(s.clients[m].retry, k)
    ensures m in Do(s, a).clients && Shows(Do(s, a).clients[m].retry, k + if TimesOut(a, m) then 1 else 0)
  {
    DoRetry(s, a, m);
    ShowsNext(s.clients[m].retry, k);
  }

  /** In every run the retry counter counts the timeouts modulo 11; nothing else resets it, not even a lease. */
  lemma {:induction false} RetryCountsTimeouts(ss: seq<System>, acts: seq<Action>, m: Mac)
    requires IsRun(ss, acts) && m in ss[|acts|].clients
    ensures Shows(ss[|acts|].clients[m].retry, Timeouts(acts, m))
  {
    if acts != [] {
      var n := |acts| - 1;
      RetryCountsTimeouts(ss[..n + 1], acts[..n], m);
      ReachableClients(ss[..n + 1], acts[..n], m);
      DoShows(ss[n], acts[n], m, Timeouts(acts[..n], m));
    }
  }

  // ---------------------------------------------------------------------------
  // Whom the server serves
  // ---------------------------------------------------------------------------

  /** The MACs that sent a DISCOVER, each once, in the order of their first. */
  function Askers(msgs: seq<Msg>): seq<Mac> {
    if msgs == [] then []
    else
      var (before, msg) := (Askers(msgs[..|msgs| - 1]), msgs[|msgs| - 1]);
      if msg.Discover? && msg.chaddr !in before then before + [msg.chaddr] else before
  }

  function First(macs: seq<Mac>, n: nat): seq<Mac> { if |macs| <= n then macs else macs[..n] }

  /** First come, first served, as long as there are addresses. */
  lemma {:induction false} FirstAskersServed(p: Pool, msgs: seq<Msg>)
    ensures ServeAll(p, [], msgs) == First(Askers(msgs), p.size)
  {
    if msgs != [] {
      FirstAskersServed(p, msgs[..|msgs| - 1]);
    }
  }

  /**
   A REQUEST, whichever server it names, is acknowledged exactly if its sender was among the first to
   discover; the acknowledgement carries the sender's place in that order.
   */
  lemma {:induction false} RequestAnsweredExactlyWhen(p: Pool, msgs: seq<Msg>, x: Xid, m: Mac, server: Ip)
    ensures var answer := Serve(p, ServeAll(p, [], msgs), Request(x, m, server)).1;
      && (answer.Some? <==> m in First(Askers(msgs), p.size))
      && (answer.Some? ==> answer.value == Ack(x, m, p.Address(IndexOf(First(Askers(msgs), p.size), m)), p.server))
  {
    FirstAskersServed(p, msgs);
  }

  // ---------------------------------------------------------------------------
  // Leases are renewed
  // ---------------------------------------------------------------------------

  lemma {:induction false} RunMore(ss: seq<System>, acts: seq<Action>, a: Action, s: System)
    requires IsRun(ss, acts) && AllUnshared(ss, acts)
    requires Enabled(ss[|acts|], a) && Unshared(ss[|acts|], a) && !Faulty(ss[|acts|], a) && s == Do(ss[|acts|], a)
    ensures IsRun(ss + [s], acts + [a]) && AllUnshared(ss + [s], acts + [a])
  {
  }

  lemma {:induction false} ExtendUnshared(ss: seq<System>, acts: seq<Action>, a: Action)
    returns (ss': seq<System>, acts': seq<Action>, s: System)
    requires IsRun(ss, acts) && AllUnshared(ss, acts) && Enabled(ss[|acts|], a) && Unshared(ss[|acts|], a)
    ensures !Faulty(ss[|acts|], a) && s == Do(ss[|acts|], a) && SysInv(s)
    ensures IsRun(ss', acts') && AllUnshared(ss', acts') && s == ss'[|acts'|] && acts' == acts + [a]
  {
    ReachableInv(ss, acts);
    DoInv(ss[|acts|], a);
    s := Do(ss[|acts|], a);
    RunMore(ss, acts, a, s);
    ss', acts' := ss + [s], acts + [a];
  }

  /** The address the server has for a MAC. */
  function Own(s: System, m: Mac): Ip
    requires m in s.macs
  {
    s.pool.Address(IndexOf(s.macs, m))
  }

  function AckFor(s: System, x: Xid, m: Mac): Msg
    requires m in s.macs
  {
    Ack(x, m, Own(s, m), s.pool.server)
  }

  lemma RequestIsAcked(s: System, x: Xid, m: Mac, server: Ip)
    requires m in s.macs && Request(x, m, server) in s.net
    ensures var s' := Do(s, AtServer(Request(x, m, server)));
      s' == s.(net := s.net + {AckFor(s, x, m)})
  {
  }

  lemma AckBinds(s: System, x: Xid, m: Mac, y: Xid)
    requires SysInv(s) && m in s.macs && m in s.clients && s.clients[m].xid == x && AckFor(s, x, m) in s.net
    requires s.clients[m].lease.Some? && Own(s, m) != 0
    ensures var a := AtClient(m, Receive(AckFor(s, x, m)), y);
      && Enabled(s, a) && !Faulty(s, a)
      && var c := Do(s, a).clients[m]; c.phase == BOUND && c.iface == s.clients[m].lease.value.ip && c.t1 && c.t2
  {
    assert AgreeInv(s, m);
  }

  lemma T1Asks(s: System, m: Mac, x: Xid)
    requires SysInv(s) && m in s.clients && s.clients[m].phase == BOUND
    ensures var a := AtClient(m, T1, x);
      && Enabled(s, a) && !Faulty(s, a)
      && var s' := Do(s, a);
         && s'.macs == s.macs && s'.pool == s.pool && Request(x, m, 0) in s'.net
         && m in s'.clients && s'.clients[m].xid == x && s'.clients[m].lease == s.clients[m].lease
         && s'.clients[m].phase == RENEWING && s'.clients[m].iface == s.clients[m].iface
  {
    assert AgreeInv(s, m);
  }

  /**
   From every reachable state in which a client is bound: when T1 fires, its REQUEST reaches the server and the
   answer comes back, the client is bound again, to the same address, and both timers run.
   */
  lemma {:induction false} RenewalCompletes(ss: seq<System>, acts: seq<Action>, m: Mac, x: Xid)
    returns (ss': seq<System>, acts': seq<Action>)
    requires IsRun(ss, acts) && AllUnshared(ss, acts) && Unshared(ss[|acts|], AtClient(m, T1, x))
    requires m in ss[|acts|].clients && ss[|acts|].clients[m].phase == BOUND
    ensures var s := ss[|acts|];
      && m in s.macs && IsRun(ss', acts') && AllUnshared(ss', acts')
      && acts' == acts + [AtClient(m, T1, x), AtServer(Request(x, m, 0)), AtClient(m, Receive(AckFor(s, x, m)), x)]
      && m in ss'[|acts'|].clients
      && var (c, c') := (s.clients[m], ss'[|acts'|].clients[m]);
         c'.phase == BOUND && c'.iface == c.iface && c'.t1 && c'.t2
  {
    var s := ss[|acts|];
    ReachableInv(ss, acts);
    assert AgreeInv(s, m);
    T1Asks(s, m, x);
    var s1, s2, s3: System;
    ss', acts', s1 := ExtendUnshared(ss, acts, AtClient(m, T1, x));
    RequestIsAcked(s1, x, m, 0);
    ss', acts', s2 := ExtendUnshared(ss', acts', AtServer(Request(x, m, 0)));
    assert AgreeInv(s1, m);
    AckBinds(s2, x, m, x);
    ss', acts', s3 := ExtendUnshared(ss', acts', AtClient(m, Receive(AckFor(s, x, m)), x));
  }

  // ---------------------------------------------------------------------------
  // Clients join
  // ---------------------------------------------------------------------------

  /** The server has an address for a MAC, or one to give. */
  predicate HasRoom(s: System, m: Mac) { m in s.macs || |s.macs| < s.pool.size }

  /** The address that it has or would give. */
  function Coming(s: System, m: Mac): Ip {
    if m in s.macs then Own(s, m) else s.pool.Address(|s.macs|)
  }

  lemma {:induction false} DiscoverIsAnswered(s: System, x: Xid, m: Mac)
    requires HasRoom(s, m) && Discover(x, m) in s.net
    ensures var s' := Do(s, AtServer(Discover(x, m)));
      && m in s'.macs && Own(s', m) == Coming(s, m) && s'.clients == s.clients && s'.users == s.users && s'.pool == s.pool
      && Offer(x, m, Coming(s, m), s.pool.server) in s'.net
  {
    if m !in s.macs {
      IndexOfLast(s.macs, m);
    }
  }

  lemma AssociationAsks(s: System, m: Mac, x: Xid)
    requires m in s.clients && s.clients[m].mac == m
    ensures var a := AtClient(m, Associated, x);
      && Enabled(s, a) && !Faulty(s, a)
      && var s' := Do(s, a);
         && s'.macs == s.macs && s'.pool == s.pool && Discover(x, m) in s'.net && s'.users == s.users[x := m]
         && m in s'.clients && s'.clients[m].xid == x && s'.clients[m].phase == SELECTING
  {
  }

  lemma OfferIsTaken(s: System, m: Mac, x: Xid, y: Xid, ip: Ip)
    requires m in s.clients && s.clients[m].mac == m && s.clients[m].xid == x && s.clients[m].phase == SELECTING
    requires Offer(x, m, ip, s.pool.server) in s.net && ip != 0
    ensures var a := AtClient(m, Receive(Offer(x, m, ip, s.pool.server)), y);
      && Enabled(s, a) && !Faulty(s, a)
      && var s' := Do(s, a);
         && s'.macs == s.macs && s'.pool == s.pool && Request(y, m, s.pool.server) in s'.net
         && m in s'.clients && s'.clients[m].xid == y && s'.clients[m].lease == Some(Lease(ip, s.pool.server))
  {
  }

  lemma {:induction false} GetsOffer(ss: seq<System>, acts: seq<Action>, m: Mac, x: Xid, ip: Ip)
    returns (ss': seq<System>, acts': seq<Action>, s': System)
    requires IsRun(ss, acts) && AllUnshared(ss, acts) && Unshared(ss[|acts|], AtClient(m, Associated, x))
    requires m in ss[|acts|].clients && HasRoom(ss[|acts|], m) && ip == Coming(ss[|acts|], m)
    ensures IsRun(ss', acts') && AllUnshared(ss', acts') && s' == ss'[|acts'|] && SysInv(s')
    ensures acts' == acts + [AtClient(m, Associated, x), AtServer(Discover(x, m))]
    ensures s'.users == ss[|acts|].users[x := m] && s'.pool == ss[|acts|].pool && m in s'.macs && Own(s', m) == ip
    ensures m in s'.clients && s'.clients[m].mac == m && s'.clients[m].xid == x && s'.clients[m].phase == SELECTING
    ensures Offer(x, m, ip, s'.pool.server) in s'.net
  {
    ReachableInv(ss, acts);
    assert AgreeInv(ss[|acts|], m);
    AssociationAsks(ss[|acts|], m, x);
    var s1: System;
    ss', acts', s1 := ExtendUnshared(ss, acts, AtClient(m, Associated, x));
    DiscoverIsAnswered(s1, x, m);
    ss', acts', s' := ExtendUnshared(ss', acts', AtServer(Discover(x, m)));
    assert AgreeInv(s', m);
  }

  lemma {:induction false} GetsAck(ss: seq<System>, acts: seq<Action>, m: Mac, x: Xid, y: Xid, s: System, ip: Ip)
    returns (ss': seq<System>, acts': seq<Action>, s': System)
    requires IsRun(ss, acts) && AllUnshared(ss, acts) && s == ss[|acts|] && SysInv(s)
    requires m in s.macs && Own(s, m) == ip && ip != 0 && Unshared(s, AtClient(m, Associated, y))
    requires m in s.clients && s.clients[m].mac == m && s.clients[m].xid == x && s.clients[m].phase == SELECTING
    requires Offer(x, m, ip, s.pool.server) in s.net
    ensures IsRun(ss', acts') && AllUnshared(ss', acts') && s' == ss'[|acts'|] && SysInv(s') && s'.pool == s.pool
    ensures acts' == acts + [AtClient(m, Receive(Offer(x, m, ip, s.pool.server)), y),
                             AtServer(Request(y, m, s.pool.server))]
    ensures m in s'.macs && Own(s', m) == ip && AckFor(s', y, m) in s'.net && Unshared(s', AtClient(m, Associated, y))
    ensures m in s'.clients && s'.clients[m].xid == y && s'.clients[m].lease == Some(Lease(ip, s.pool.server))
  {
    OfferIsTaken(s, m, x, y, ip);
    var s1: System;
    ss', acts', s1 := ExtendUnshared(ss, acts, AtClient(m, Receive(Offer(x, m, ip, s.pool.server)), y));
    RequestIsAcked(s1, y, m, s.pool.server);
    ss', acts', s' := ExtendUnshared(ss', acts', AtServer(Request(y, m, s.pool.server)));
  }

  /**
   From every reachable state, whatever a client is doing: if the server has an address for it or one to give,
   and that is not 0, then it is bound to that address as soon as the four messages of a new association get through.
   */
  lemma {:induction false} JoinCompletes(ss: seq<System>, acts: seq<Action>, m: Mac, x: Xid, y: Xid)
    returns (ss': seq<System>, acts': seq<Action>)
    requires IsRun(ss, acts) && AllUnshared(ss, acts) && m in ss[|acts|].clients
    requires Unshared(ss[|acts|], AtClient(m, Associated, x)) && Unshared(ss[|acts|], AtClient(m, Associated, y))
    requires HasRoom(ss[|acts|], m) && Coming(ss[|acts|], m) != 0
    ensures var (s, ip) := (ss[|acts|], Coming(ss[|acts|], m));
      && IsRun(ss', acts') && AllUnshared(ss', acts')
      && acts' == acts + [AtClient(m, Associated, x), AtServer(Discover(x, m))]
                       + [AtClient(m, Receive(Offer(x, m, ip, s.pool.server)), y), AtServer(Request(y, m, s.pool.server))]
                       + [AtClient(m, Receive(Ack(y, m, ip, s.pool.server)), y)]
      && m in ss'[|acts'|].clients && var c := ss'[|acts'|].clients[m]; c.phase == BOUND && c.iface == ip && c.t1 && c.t2
  {
    var ip := Coming(ss[|acts|], m);
    var s2, s4, s5: System;
    ss', acts', s2 := GetsOffer(ss, acts, m, x, ip);
    ss', acts', s4 := GetsAck(ss', acts', m, x, y, s2, ip);
    AckBinds(s4, y, m, y);
    ss', acts', s5 := ExtendUnshared(ss', acts', AtClient(m, Receive(AckFor(s4, y, m)), y));
  }

  /** Otherwise it never is: a client that holds a lease or an address has been served. */
  lemma {:induction false} NeverWithoutServer(ss: seq<System>, acts: seq<Action>, m: Mac)
    requires IsRun(ss, acts) && AllUnshared(ss, acts) && m in ss[|acts|].clients && m !in ss[|acts|].macs
    ensures var c := ss[|acts|].clients[m]; c.lease.None? && c.iface == 0 && c.phase in {IDLE, SELECTING}
  {
    ReachableInv(ss, acts);
    assert AgreeInv(ss[|acts|], m);
  }
}
