/**
 DHCP client and server as state machines, and the messages between them.

 The server is described by the list of the MAC addresses it has served, in order:
 the i-th of them owns the i-th address of the pool for ever.
 */
module DhcpSpec {
  import opened Options

  type Mac = nat
  type Ip = nat              // 0 is the unspecified address
  type Xid = int

  const RETRY_MAX := 10
  const ADDRESSES := 0x1_0000_0000

  datatype Msg =
    | Discover(xid: Xid, chaddr: Mac)
    | Request(xid: Xid, chaddr: Mac, server: Ip)     // server is 0 when renewing or rebinding
    | Offer(xid: Xid, chaddr: Mac, yiaddr: Ip, server: Ip)
    | Ack(xid: Xid, chaddr: Mac, yiaddr: Ip, server: Ip)

  // ---------------------------------------------------------------------------
  // Client
  // ---------------------------------------------------------------------------

  datatype Phase = IDLE | INIT | SELECTING | REQUESTING | BOUND | RENEWING | REBINDING

  datatype Wait = WAIT_OFFER | WAIT_ACK

  datatype Lease = Lease(ip: Ip, server: Ip)

  datatype Client = Client(
    mac: Mac,
    phase: Phase,
    xid: Xid,
    lease: Option<Lease>,
    retry: nat,
    timeout: Option<Wait>,   // the response timer, if pending
    t1: bool,                // pending
    t2: bool,                // pending
    iface: Ip)               // the address the interface is configured with

  datatype Input =
    | Associated
    | Timeout
    | T1
    | T2
    | Receive(msg: Msg)

  /** The client and what it sends. */
  datatype Reaction = Reaction(c: Client, sent: Option<Msg>)

  predicate Possible(c: Client, i: Input) {
    match i
    case Timeout => c.timeout.Some?
    case T1 => c.t1
    case T2 => c.t2
    case _ => true
  }

  /** An acknowledgement for a client that was never offered anything makes it follow a null pointer. */
  predicate Crashes(c: Client, i: Input) {
    || (i.Receive? && i.msg.Ack? && i.msg.xid == c.xid && i.msg.yiaddr != 0 && c.lease.None?)
    || (i.T1? && c.lease.None?)
    || (i.T2? && c.phase == RENEWING && c.lease.None?)
    || (i.Timeout? && c.timeout == Some(WAIT_ACK) && c.phase in {REQUESTING, RENEWING, REBINDING} && c.lease.None?)
  }

  function Select(c: Client, x: Xid): Reaction {
    Reaction(c.(phase := SELECTING, xid := x, timeout := Some(WAIT_OFFER)), Some(Discover(x, c.mac)))
  }

  function Restart(c: Client, x: Xid): Reaction {
    Select(c.(t1 := false, t2 := false), x)
  }

  /** Ask for the lease, for the first time or again, and wait for the answer. */
  function Ask(c: Client, p: Phase, x: Xid): Reaction
    requires c.lease.Some?
  {
    Reaction(c.(phase := p, xid := x, timeout := Some(WAIT_ACK)),
             Some(Request(x, c.mac, if p == REQUESTING then c.lease.value.server else 0)))
  }

  function Bind(c: Client): Reaction
    requires c.lease.Some?
  {
    Reaction(c.(phase := BOUND, timeout := None, t1 := true, t2 := true, iface := c.lease.value.ip), None)
  }

  /** What entering a phase does; INIT is passed through on the way to SELECTING. */
  function Enter(c: Client, p: Phase, x: Xid): Reaction
    requires p != IDLE && (p == INIT || p == SELECTING || c.lease.Some?)
  {
    if p == INIT then Restart(c, x)
    else if p == SELECTING then Select(c, x)
    else if p == BOUND then Bind(c)
    else if p == REBINDING then Ask(c.(t1 := false, t2 := false), p, x)
    else Ask(c, p, x)
  }

  /** The reaction to an input; `x` is the transaction id drawn if something is sent. */
  function React(c: Client, i: Input, x: Xid): Reaction
    requires Possible(c, i) && !Crashes(c, i)
  {
    match i
    case Associated => Restart(c, x)
    case Timeout => OnTimeout(c, x)
    case T1 => Ask(c.(t1 := false), RENEWING, x)
    case T2 =>
      if c.phase == RENEWING then Ask(c.(t1 := false, t2 := false), REBINDING, x)
      else Reaction(c.(t2 := false), None)
    case Receive(msg) => OnMessage(c, msg, x)
  }

  function OnTimeout(c: Client, x: Xid): Reaction
    requires c.timeout.Some? && !Crashes(c, Timeout)
  {
    var again := c.retry < RETRY_MAX;
    var c1 := c.(retry := if again then c.retry + 1 else 0, timeout := None);
    match c.timeout.value
    case WAIT_OFFER => if again then Select(c1, x) else Restart(c1, x)
    case WAIT_ACK =>
      match c.phase
      case REQUESTING => Ask(c1, REQUESTING, x)
      case RENEWING => Ask(c1, RENEWING, x)
      case REBINDING => Ask(c1.(t1 := false, t2 := false), REBINDING, x)
      case _ => Reaction(c1, None)
  }

  function OnMessage(c: Client, msg: Msg, x: Xid): Reaction
    requires !Crashes(c, Receive(msg))
  {
    if msg.Offer? && msg.xid == c.xid && c.phase == SELECTING && msg.yiaddr != 0 then
      Ask(c.(lease := Some(Lease(msg.yiaddr, msg.server))), REQUESTING, x)
    else if msg.Ack? && msg.xid == c.xid && msg.yiaddr != 0 then Bind(c)
    else Reaction(c, None)
  }

  // ---------------------------------------------------------------------------
  // Server
  // ---------------------------------------------------------------------------

  datatype Pool = Pool(begin: nat, size: nat, server: Ip)
  {
    predicate Ok() { size <= ADDRESSES }

    /** The i-th address; addresses are 32 bits wide. */
    function Address(i: nat): Ip { (begin + i) % ADDRESSES }
  }

  lemma AddressesDiffer(p: Pool, i: nat, j: nat)
    requires p.Ok() && i < j < p.size
    ensures p.Address(i) != p.Address(j)
  {
  }

  function IndexOf(macs: seq<Mac>, m: Mac): (i: nat)
    requires m in macs
    ensures i < |macs| && macs[i] == m
    ensures forall j :: 0 <= j < i ==> macs[j] != m
  {
    if macs[0] == m then 0 else 1 + IndexOf(macs[1..], m)
  }

  function Reply(p: Pool, i: nat, msg: Msg): Msg
    requires msg.Discover? || msg.Request?
  {
    if msg.Discover? then Offer(msg.xid, msg.chaddr, p.Address(i), p.server)
    else Ack(msg.xid, msg.chaddr, p.Address(i), p.server)
  }

  /** The MACs served after a message, and the answer to it. */
  function Serve(p: Pool, macs: seq<Mac>, msg: Msg): (seq<Mac>, Option<Msg>) {
    if !msg.Discover? && !msg.Request? then (macs, None)
    else if msg.chaddr in macs then (macs, Some(Reply(p, IndexOf(macs, msg.chaddr), msg)))
    else if msg.Discover? && |macs| < p.size then (macs + [msg.chaddr], Some(Reply(p, |macs|, msg)))
    else (macs, None)
  }
}

/**
 Any number of clients and one server on a network that may lose, duplicate and
 reorder: every message ever sent may reach anyone, any number of times, or never.
 */
module DhcpSystem {
  import opened DhcpSpec
  import opened Options

  datatype System = System(
    pool: Pool,
    clients: map<Mac, Client>,
    macs: seq<Mac>,          // served so far
    net: set<Msg>,           // every message ever sent
    users: map<Xid, Mac>)    // who used which transaction id last

  datatype Action =
    | AtClient(m: Mac, i: Input, x: Xid)
    | AtServer(msg: Msg)

  predicate Enabled(s: System, a: Action) {
    match a
    case AtClient(m, i, _) => m in s.clients && Possible(s.clients[m], i) && (i.Receive? ==> i.msg in s.net)
    case AtServer(msg) => msg in s.net
  }

  predicate Faulty(s: System, a: Action) {
    a.AtClient? && a.m in s.clients && Crashes(s.clients[a.m], a.i)
  }

  function Do(s: System, a: Action): System
    requires Enabled(s, a) && !Faulty(s, a)
  {
    match a
    case AtClient(m, i, x) =>
      var r := React(s.clients[m], i, x);
      var s1 := s.(clients := s.clients[m := r.c]);
      if r.sent.Some? then s1.(net := s.net + {r.sent.value}, users := s.users[x := m]) else s1
    case AtServer(msg) =>
      var (macs, answer) := Serve(s.pool, s.macs, msg);
      s.(macs := macs, net := if answer.Some? then s.net + {answer.value} else s.net)
  }

  /** No two clients ever draw the same transaction id, and nobody draws 0. */
  predicate Unshared(s: System, a: Action) {
    a.AtClient? ==> a.x != 0 && (a.x in s.users ==> s.users[a.x] == a.m)
  }

  /** Nobody ever draws a transaction id a second time. */
  predicate Fresh(s: System, a: Action) {
    a.AtClient? ==> a.x != 0 && a.x !in s.users
  }

  // ---------------------------------------------------------------------------
  // One client, whatever it receives
  // ---------------------------------------------------------------------------

  /** Timers belong to states. */
  predicate ClientInv(c: Client) {
    && c.phase != INIT && (c.phase == IDLE ==> c.xid == 0)
    && (c.timeout == Some(WAIT_OFFER) <==> c.phase == SELECTING)
    && (c.timeout == Some(WAIT_ACK) <==> c.phase in {REQUESTING, RENEWING, REBINDING})
    && (c.t1 <==> c.phase == BOUND)
    && (c.t2 ==> c.phase in {BOUND, RENEWING})
    && c.retry <= RETRY_MAX
    && (c.phase in {REQUESTING, BOUND, RENEWING, REBINDING} ==> c.lease.Some?)
    && (c.phase in {BOUND, RENEWING, REBINDING} ==> c.iface == c.lease.value.ip)
  }

  lemma ReactInv(c: Client, i: Input, x: Xid)
    requires ClientInv(c) && Possible(c, i) && !Crashes(c, i)
    ensures ClientInv(React(c, i, x).c)
  {
  }

  // ---------------------------------------------------------------------------
  // The system invariant
  // ---------------------------------------------------------------------------

  /** The server has given this address to this MAC. */
  predicate Given(p: Pool, macs: seq<Mac>, m: Mac, ip: Ip) {
    m in macs && ip == p.Address(IndexOf(macs, m))
  }

  ghost predicate ServerInv(s: System) {
    && s.pool.Ok() && |s.macs| <= s.pool.size
    && forall i, j :: 0 <= i < j < |s.macs| ==> s.macs[i] != s.macs[j]
  }

  /** What a message that is or was on the network tells. */
  predicate MsgInv(s: System, msg: Msg) {
    && msg.xid in s.users && s.users[msg.xid] == msg.chaddr && msg.chaddr in s.clients
    && (msg.Offer? || msg.Ack? ==> Given(s.pool, s.macs, msg.chaddr, msg.yiaddr))
    && (msg.Request? || msg.Ack? ==> s.clients[msg.chaddr].lease.Some?)
  }

  /** What a client knows agrees with the server. */
  predicate AgreeInv(s: System, m: Mac)
    requires m in s.clients
  {
    var c := s.clients[m];
    && c.mac == m && ClientInv(c)
    && (c.xid != 0 ==> c.xid in s.users && s.users[c.xid] == m)
    && (c.lease.Some? ==> Given(s.pool, s.macs, m, c.lease.value.ip) && c.lease.value.ip != 0)
    && (c.iface != 0 ==> Given(s.pool, s.macs, m, c.iface))
  }

  ghost predicate SysInv(s: System) {
    && ServerInv(s)
    && 0 !in s.users
    && (forall msg :: msg in s.net ==> MsgInv(s, msg))
    && (forall m :: m in s.clients ==> AgreeInv(s, m))
  }

  ghost predicate Initial(s: System) {
    && s.pool.Ok() && s.macs == [] && s.net == {} && s.users == map[]
    && forall m :: m in s.clients ==>
         s.clients[m] == Client(m, IDLE, 0, None, 0, None, false, false, 0)
  }

  // ---------------------------------------------------------------------------
  // It is kept
  // ---------------------------------------------------------------------------

  lemma {:induction false} IndexStable(macs: seq<Mac>, m: Mac, x: Mac)
    requires m in macs
    ensures IndexOf(macs + [x], m) == IndexOf(macs, m)
  {
    if macs[0] != m {
      assert (macs + [x])[1..] == macs[1..] + [x];
      IndexStable(macs[1..], m, x);
    }
  }

  lemma {:induction false} IndexOfLast(macs: seq<Mac>, x: Mac)
    requires x !in macs
    ensures IndexOf(macs + [x], x) == |macs|
  {
    if macs != [] {
      assert (macs + [x])[1..] == macs[1..] + [x];
      IndexOfLast(macs[1..], x);
    }
  }

  /** What is given is never taken back, moved or given to another. */
  lemma {:induction false} ServeKeeps(p: Pool, macs: seq<Mac>, msg: Msg, m: Mac, ip: Ip)
    requires Given(p, macs, m, ip)
    ensures Given(p, Serve(p, macs, msg).0, m, ip)
  {
    IndexStable(macs, m, msg.chaddr);
  }

  lemma {:induction false} ServeAnswers(p: Pool, macs: seq<Mac>, msg: Msg)
    ensures var (macs', answer) := Serve(p, macs, msg);
      answer.Some? ==>
        && answer.value.chaddr == msg.chaddr && answer.value.xid == msg.xid
        && (answer.value.Offer? <==> msg.Discover?) && (answer.value.Ack? <==> msg.Request?)
        && (answer.value.Offer? || answer.value.Ack?)
        && Given(p, macs', msg.chaddr, answer.value.yiaddr)
  {
    if msg.chaddr !in macs {
      IndexOfLast(macs, msg.chaddr);
    }
  }

  lemma {:induction false} ServerStep(s: System, msg: Msg)
    requires SysInv(s) && msg in s.net
    ensures SysInv(Do(s, AtServer(msg)))
  {
    var s' := Do(s, AtServer(msg));
    assert MsgInv(s, msg);
    ServeAnswers(s.pool, s.macs, msg);
    forall m2 | m2 in s'.net
      ensures MsgInv(s', m2)
    {
      if m2 in s.net {
        assert MsgInv(s, m2);
        if m2.Offer? || m2.Ack? {
          ServeKeeps(s.pool, s.macs, msg, m2.chaddr, m2.yiaddr);
        }
      }
    }
    forall m | m in s'.clients
      ensures AgreeInv(s', m)
    {
      assert AgreeInv(s, m);
      var c := s.clients[m];
      if c.lease.Some? {
        ServeKeeps(s.pool, s.macs, msg, m, c.lease.value.ip);
      }
      if c.iface != 0 {
        ServeKeeps(s.pool, s.macs, msg, m, c.iface);
      }
    }
  }

  /** In a system where ids are not shared no client ever follows a null pointer. */
  lemma {:induction false} NoCrash(s: System, a: Action)
    requires SysInv(s) && Enabled(s, a)
    ensures !Faulty(s, a)
  {
    if a.AtClient? {
      assert AgreeInv(s, a.m);
      if a.i.Receive? {
        assert MsgInv(s, a.i.msg);
      }
    }
  }

  /** Where a client's id, lease and address come from, and what it sends. */
  lemma ReactFacts(c: Client, i: Input, x: Xid)
    requires ClientInv(c) && Possible(c, i) && !Crashes(c, i)
    ensures var r := React(c, i, x);
      && r.c.mac == c.mac
      && r.c.xid == (if r.sent.Some? then x else c.xid)
      && (r.c.lease == c.lease
          || (i.Receive? && i.msg.Offer? && i.msg.xid == c.xid && i.msg.yiaddr != 0 && c.phase == SELECTING
              && r.c.lease == Some(Lease(i.msg.yiaddr, i.msg.server))))
      && (r.c.iface == c.iface || (c.lease.Some? && r.c.lease == c.lease && r.c.iface == c.lease.value.ip))
      && (r.sent.Some? ==>
            && r.sent.value.xid == x && r.sent.value.chaddr == c.mac
            && (r.sent.value.Discover? || r.sent.value.Request?)
            && (r.sent.value.Request? ==> r.c.lease.Some?))
  {
  }

  lemma {:induction false} ClientAgrees(s: System, a: Action)
    requires SysInv(s) && Enabled(s, a) && !Faulty(s, a) && Unshared(s, a) && a.AtClient?
    ensures AgreeInv(Do(s, a), a.m)
    ensures var sent := React(s.clients[a.m], a.i, a.x).sent; sent.Some? ==> MsgInv(Do(s, a), sent.value)
  {
    assert AgreeInv(s, a.m);
    if a.i.Receive? {
      assert MsgInv(s, a.i.msg);
    }
    ReactInv(s.clients[a.m], a.i, a.x);
    ReactFacts(s.clients[a.m], a.i, a.x);
  }

  lemma {:induction false} ClientStep(s: System, a: Action)
    requires SysInv(s) && Enabled(s, a) && !Faulty(s, a) && Unshared(s, a) && a.AtClient?
    ensures SysInv(Do(s, a))
  {
    var s' := Do(s, a);
    ClientAgrees(s, a);
    ReactFacts(s.clients[a.m], a.i, a.x);
    forall msg | msg in s'.net
      ensures MsgInv(s', msg)
    {
      if msg in s.net {
        assert MsgInv(s, msg);
      }
    }
    forall m | m in s'.clients
      ensures AgreeInv(s', m)
    {
      if m != a.m {
        assert AgreeInv(s, m);
      }
    }
  }

  lemma {:induction false} DoInv(s: System, a: Action)
    requires SysInv(s) && Enabled(s, a) && Unshared(s, a)
    ensures !Faulty(s, a) && SysInv(Do(s, a))
  {
    NoCrash(s, a);
    match a
    case AtClient(_, _, _) => ClientStep(s, a);
    case AtServer(msg) => ServerStep(s, msg);
  }

  // ---------------------------------------------------------------------------
  // Whole runs
  // ---------------------------------------------------------------------------

  ghost predicate IsRun(ss: seq<System>, acts: seq<Action>) {
    && |ss| == |acts| + 1
    && Initial(ss[0])
    && forall k :: 0 <= k < |acts| ==>
         Enabled(ss[k], acts[k]) && !Faulty(ss[k], acts[k]) && ss[k + 1] == Do(ss[k], acts[k])
  }

  ghost predicate AllUnshared(ss: seq<System>, acts: seq<Action>)
    requires |ss| == |acts| + 1
  {
    forall k :: 0 <= k < |acts| ==> Unshared(ss[k], acts[k])
  }

  ghost predicate AllFresh(ss: seq<System>, acts: seq<Action>)
    requires |ss| == |acts| + 1
  {
    forall k :: 0 <= k < |acts| ==> Fresh(ss[k], acts[k])
  }

  lemma {:induction false} ReachableInv(ss: seq<System>, acts: seq<Action>)
    requires IsRun(ss, acts) && AllUnshared(ss, acts)
    ensures SysInv(ss[|acts|])
  {
    if acts != [] {
      var n := |acts| - 1;
      ReachableInv(ss[..n + 1], acts[..n]);
      DoInv(ss[n], acts[n]);
    }
  }

  /** An address belongs to at most one MAC. */
  lemma {:induction false} GivenOnce(s: System, m1: Mac, m2: Mac, ip: Ip)
    requires ServerInv(s) && Given(s.pool, s.macs, m1, ip) && Given(s.pool, s.macs, m2, ip)
    ensures m1 == m2
  {
    var (i, j) := (IndexOf(s.macs, m1), IndexOf(s.macs, m2));
    if i < j {
      AddressesDiffer(s.pool, i, j);
    } else if j < i {
      AddressesDiffer(s.pool, j, i);
    }
  }

  /**
   However messages are lost, duplicated, reordered and broadcast: two interfaces are never
   configured with the same address, in whatever phase their clients are; a client that holds a
   lease holds the one the server has for its MAC; and no client crashes.
   */
  lemma {:induction false} NoSharedAddress(ss: seq<System>, acts: seq<Action>, m1: Mac, m2: Mac)
    requires IsRun(ss, acts) && AllUnshared(ss, acts)
    requires var s := ss[|acts|]; m1 in s.clients && m2 in s.clients && m1 != m2
    ensures var s := ss[|acts|]; var (c1, c2) := (s.clients[m1], s.clients[m2]);
      && (c1.iface != 0 ==> c1.iface != c2.iface)
      && (c1.phase in {BOUND, RENEWING, REBINDING} ==>
            c1.iface != 0 && c1.lease.Some? && c1.iface == c1.lease.value.ip && Given(s.pool, s.macs, m1, c1.iface))
    ensures forall a :: Enabled(ss[|acts|], a) ==> !Faulty(ss[|acts|], a)
  {
    var s := ss[|acts|];
    ReachableInv(ss, acts);
    assert AgreeInv(s, m1) && AgreeInv(s, m2);
    if s.clients[m1].iface != 0 && s.clients[m1].iface == s.clients[m2].iface {
      GivenOnce(s, m1, m2, s.clients[m1].iface);
    }
    forall a | Enabled(s, a)
      ensures !Faulty(s, a)
    {
      NoCrash(s, a);
    }
  }

  // ---------------------------------------------------------------------------
  // Acknowledgements and requests
  // ---------------------------------------------------------------------------

  ghost predicate Requested(net: set<Msg>, x: Xid, m: Mac) {
    exists r :: r in net && r.Request? && r.xid == x && r.chaddr == m
  }

  /** With fresh ids an id names one message: a DISCOVER or a REQUEST, never both. */
  ghost predicate LatestInv(s: System) {
    && (forall a :: a in s.net && a.Ack? ==> Requested(s.net, a.xid, a.chaddr))
    && (forall d, r :: d in s.net && d.Discover? && r in s.net && r.Request? ==> d.xid != r.xid)
    && (forall m :: m in s.clients && s.clients[m].phase == SELECTING ==> Discover(s.clients[m].xid, m) in s.net)
  }

  /** What a step adds to the network carries a new id, or is the answer to a message already there. */
  lemma {:induction false} DoSends(s: System, a: Action)
    requires SysInv(s) && Enabled(s, a) && !Faulty(s, a) && Fresh(s, a)
    ensures s.net <= Do(s, a).net
    ensures forall k :: k in Do(s, a).net && k !in s.net ==>
      && ((k.Discover? || k.Request?) ==> k.xid !in s.users)
      && (k.Ack? ==> a.AtServer? && a.msg.Request? && a.msg.xid == k.xid && a.msg.chaddr == k.chaddr)
  {
    if a.AtClient? {
      assert AgreeInv(s, a.m);
    }
  }

  /** A client that is selecting was so before, or has just asked. */
  lemma {:induction false} DoSelects(s: System, a: Action, m: Mac)
    requires SysInv(s) && Enabled(s, a) && !Faulty(s, a) && m in s.clients
    requires Do(s, a).clients[m].phase == SELECTING
    ensures Do(s, a).clients[m] == s.clients[m] || Discover(Do(s, a).clients[m].xid, m) in Do(s, a).net
  {
    if a.AtClient? {
      assert AgreeInv(s, a.m);
    }
  }

  lemma {:induction false} DoLatest(s: System, a: Action)
    requires SysInv(s) && LatestInv(s) && Enabled(s, a) && !Faulty(s, a) && Fresh(s, a)
    ensures LatestInv(Do(s, a))
  {
    var s' := Do(s, a);
    DoSends(s, a);
    forall k | k in s'.net && k.Ack?
      ensures Requested(s'.net, k.xid, k.chaddr)
    {
      if k in s.net {
        var r :| r in s.net && r.Request? && r.xid == k.xid && r.chaddr == k.chaddr;
        assert r in s'.net;
      } else {
        assert a.msg in s'.net;
      }
    }
    forall d, r | d in s'.net && d.Discover? && r in s'.net && r.Request?
      ensures d.xid != r.xid
    {
      assert d in s.net ==> MsgInv(s, d);
      assert r in s.net ==> MsgInv(s, r);
      assert d in s.net || r in s.net;
    }
    assert s'.clients.Keys == s.clients.Keys;
    forall m | m in s.clients && s'.clients[m].phase == SELECTING
      ensures Discover(s'.clients[m].xid, m) in s'.net
    {
      DoSelects(s, a, m);
    }
  }

  lemma {:induction false} ReachableLatest(ss: seq<System>, acts: seq<Action>)
    requires IsRun(ss, acts) && AllFresh(ss, acts)
    ensures SysInv(ss[|acts|]) && LatestInv(ss[|acts|])
  {
    if acts != [] {
      var n := |acts| - 1;
      ReachableLatest(ss[..n + 1], acts[..n]);
      assert Fresh(ss[n], acts[n]);
      DoInv(ss[n], acts[n]);
      DoLatest(ss[n], acts[n]);
    }
  }

  /**
   An acknowledgement that a client accepts answers the request it sent last, finds the lease it
   asked for, and confirms exactly the address it then configures.
   */
  lemma {:induction false} AckAnswersLatestRequest(ss: seq<System>, acts: seq<Action>, m: Mac, ack: Msg)
    requires IsRun(ss, acts) && AllFresh(ss, acts)
    requires var s := ss[|acts|]; m in s.clients && ack in s.net && ack.Ack? && ack.xid == s.clients[m].xid
    ensures var s := ss[|acts|]; var c := s.clients[m];
      && ack.chaddr == m
      && Requested(s.net, c.xid, m)
      && c.phase in {REQUESTING, BOUND, RENEWING, REBINDING}
      && c.lease.Some? && c.lease.value.ip == ack.yiaddr
  {
    var s := ss[|acts|];
    ReachableLatest(ss, acts);
    assert MsgInv(s, ack);
    assert AgreeInv(s, m);
    assert Requested(s.net, ack.xid, ack.chaddr);
  }

  // ---------------------------------------------------------------------------
  // The server alone
  // ---------------------------------------------------------------------------

  function ServeAll(p: Pool, macs: seq<Mac>, msgs: seq<Msg>): seq<Mac> {
    if msgs == [] then macs else Serve(p, ServeAll(p, macs, msgs[..|msgs| - 1]), msgs[|msgs| - 1]).0
  }

  /** Addresses are handed out from the start of the pool, to different MACs, and for good. */
  lemma {:induction false} ServerRun(p: Pool, macs: seq<Mac>, msgs: seq<Msg>)
    requires |macs| <= p.size && forall i, j :: 0 <= i < j < |macs| ==> macs[i] != macs[j]
    ensures var macs' := ServeAll(p, macs, msgs);
      && macs <= macs' && |macs'| <= p.size
      && (forall i, j :: 0 <= i < j < |macs'| ==> macs'[i] != macs'[j])
  {
    if msgs != [] {
      ServerRun(p, macs, msgs[..|msgs| - 1]);
    }
  }

  /** A DISCOVER goes unanswered exactly when the whole pool belongs to others. */
  lemma {:induction false} DiscoverUnansweredExactlyWhen(p: Pool, msgs: seq<Msg>, x: Xid, m: Mac)
    ensures var macs := ServeAll(p, [], msgs);
      Serve(p, macs, Discover(x, m)).1.None? <==> m !in macs && |macs| == p.size
  {
    ServerRun(p, [], msgs);
  }

  // ---------------------------------------------------------------------------
  // Why ids must not be shared, and must not be 0
  // ---------------------------------------------------------------------------

  const NEWCOMER_1 := Client(1, IDLE, 0, None, 0, None, false, false, 0)
  const NEWCOMER_2 := Client(2, IDLE, 0, None, 0, None, false, false, 0)
  const EXAMPLE := System(Pool(100, 2, 9), map[1 := NEWCOMER_1, 2 := NEWCOMER_2], [], {}, map[])

  lemma {:induction false} Extend(ss: seq<System>, acts: seq<Action>, a: Action)
    returns (ss': seq<System>, acts': seq<Action>, s: System)
    requires IsRun(ss, acts) && Enabled(ss[|acts|], a) && !Faulty(ss[|acts|], a)
    ensures IsRun(ss', acts') && s == ss'[|acts'|] == Do(ss[|acts|], a)
  {
    s := Do(ss[|acts|], a);
    ss', acts' := ss + [s], acts + [a];
  }

  lemma {:induction false} SharedIdAsked() returns (ss: seq<System>, acts: seq<Action>, s: System)
    ensures IsRun(ss, acts) && s == ss[|acts|]
    ensures s.pool == Pool(100, 2, 9) && s.macs == [] && s.clients.Keys == {1, 2}
    ensures forall m :: m in s.clients ==>
      s.clients[m] == Client(m, SELECTING, 7, None, 0, Some(WAIT_OFFER), false, false, 0)
    ensures Discover(7, 1) in s.net && Discover(7, 2) in s.net
  {
    ss, acts := [EXAMPLE], [];
    ss, acts, s := Extend(ss, acts, AtClient(1, Associated, 7));
    ss, acts, s := Extend(ss, acts, AtClient(2, Associated, 7));
  }

  lemma {:induction false} SharedIdAnswered() returns (ss: seq<System>, acts: seq<Action>, s: System)
    ensures IsRun(ss, acts) && s == ss[|acts|]
    ensures s.pool == Pool(100, 2, 9) && s.macs == [1, 2] && s.clients.Keys == {1, 2}
    ensures forall m :: m in s.clients ==>
      s.clients[m] == Client(m, SELECTING, 7, None, 0, Some(WAIT_OFFER), false, false, 0)
    ensures Offer(7, 1, 100, 9) in s.net
  {
    ss, acts, s := SharedIdAsked();
    ss, acts, s := Extend(ss, acts, AtServer(Discover(7, 1)));
    assert s.macs == [1];
    ss, acts, s := Extend(ss, acts, AtServer(Discover(7, 2)));
  }

  /** Both clients ask with the id 7, and both take the offer made to the first. */
  lemma {:induction false} SharedIdSharesOffer() returns (ss: seq<System>, acts: seq<Action>, s: System)
    ensures IsRun(ss, acts) && s == ss[|acts|]
    ensures s.pool == Pool(100, 2, 9) && s.macs == [1, 2] && s.clients.Keys == {1, 2}
    ensures forall m :: m in s.clients ==>
      s.clients[m] == Client(m, REQUESTING, 7 + m, Some(Lease(100, 9)), 0, Some(WAIT_ACK), false, false, 0)
    ensures Request(8, 1, 9) in s.net && Request(9, 2, 9) in s.net
  {
    var offer := Offer(7, 1, 100, 9);
    ss, acts, s := SharedIdAnswered();
    ss, acts, s := Extend(ss, acts, AtClient(1, Receive(offer), 8));
    ss, acts, s := Extend(ss, acts, AtClient(2, Receive(offer), 9));
  }

  lemma {:induction false} SharedIdAcked() returns (ss: seq<System>, acts: seq<Action>, s: System)
    ensures IsRun(ss, acts) && s == ss[|acts|] && s.clients.Keys == {1, 2}
    ensures forall m :: m in s.clients ==>
      s.clients[m] == Client(m, REQUESTING, 7 + m, Some(Lease(100, 9)), 0, Some(WAIT_ACK), false, false, 0)
    ensures Ack(8, 1, 100, 9) in s.net && Ack(9, 2, 101, 9) in s.net
  {
    ss, acts, s := SharedIdSharesOffer();
    assert IndexOf(s.macs, 1) == 0 && IndexOf(s.macs, 2) == 1;
    ss, acts, s := Extend(ss, acts, AtServer(Request(8, 1, 9)));
    ss, acts, s := Extend(ss, acts, AtServer(Request(9, 2, 9)));
  }

  /** Two clients that draw the same id end up bound to one address. */
  lemma {:induction false} SharedIdSharesAddress() returns (ss: seq<System>, acts: seq<Action>, s: System)
    ensures IsRun(ss, acts) && s == ss[|acts|]
    ensures s.clients.Keys == {1, 2} && s.clients[1].phase == s.clients[2].phase == BOUND
    ensures s.clients[1].iface == s.clients[2].iface == 100
  {
    ss, acts, s := SharedIdAcked();
    ss, acts, s := Extend(ss, acts, AtClient(1, Receive(Ack(8, 1, 100, 9)), 10));
    ss, acts, s := Extend(ss, acts, AtClient(2, Receive(Ack(9, 2, 101, 9)), 11));
  }

  lemma {:induction false} FirstAnswered() returns (ss: seq<System>, acts: seq<Action>, s: System)
    ensures IsRun(ss, acts) && s == ss[|acts|] && s.pool == EXAMPLE.pool && s.macs == [1] && s.clients.Keys == {1, 2}
    ensures s.clients[1] == Client(1, SELECTING, 7, None, 0, Some(WAIT_OFFER), false, false, 0)
    ensures s.clients[2] == NEWCOMER_2 && Offer(7, 1, 100, 9) in s.net
  {
    ss, acts := [EXAMPLE], [];
    ss, acts, s := Extend(ss, acts, AtClient(1, Associated, 7));
    ss, acts, s := Extend(ss, acts, AtServer(Discover(7, 1)));
  }

  /** A client that draws 0 can make one that has not started yet follow a null pointer. */
  lemma {:induction false} ZeroIdCrashes() returns (ss: seq<System>, acts: seq<Action>, a: Action)
    ensures IsRun(ss, acts) && Enabled(ss[|acts|], a) && Faulty(ss[|acts|], a)
  {
    var s: System;
    ss, acts, s := FirstAnswered();
    ss, acts, s := Extend(ss, acts, AtClient(1, Receive(Offer(7, 1, 100, 9)), 0));
    ss, acts, s := Extend(ss, acts, AtServer(Request(0, 1, 9)));
    a := AtClient(2, Receive(Ack(0, 1, 100, 9)), 0);
  }
}
