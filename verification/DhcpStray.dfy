/**
 What DHCP promises when transaction ids are drawn in any way at all.

 The client takes an OFFER that was made to another if the ids agree: it does not compare the
 hardware address. All that can go wrong with its lease comes from that.
 */
module DhcpStray {
  import opened DhcpSpec
  import opened DhcpSystem
  import opened Options

  /** The OFFER each client took last, and the one that was last when its interface was configured. */
  datatype Taken = Taken(offered: map<Mac, Msg>, bound: map<Mac, Msg>)

  const NOTHING_TAKEN := Taken(map[], map[])

  predicate TakesOffer(c: Client, i: Input) {
    i.Receive? && i.msg.Offer? && i.msg.xid == c.xid && c.phase == SELECTING && i.msg.yiaddr != 0
  }

  predicate TakesAck(c: Client, i: Input) {
    i.Receive? && i.msg.Ack? && i.msg.xid == c.xid && i.msg.yiaddr != 0
  }

  function Note(k: Taken, s: System, a: Action): Taken
    requires Enabled(s, a)
  {
    if a.AtServer? then k
    else if TakesOffer(s.clients[a.m], a.i) then k.(offered := k.offered[a.m := a.i.msg])
    else if TakesAck(s.clients[a.m], a.i) && a.m in k.offered then k.(bound := k.bound[a.m := k.offered[a.m]])
    else k
  }

  ghost function TakenOf(ss: seq<System>, acts: seq<Action>): Taken
    requires IsRun(ss, acts)
  {
    if acts == [] then NOTHING_TAKEN
    else
      var n := |acts| - 1;
      Note(TakenOf(ss[..n + 1], acts[..n]), ss[n], acts[n])
  }

  /** A client takes an OFFER that was made to another. */
  predicate Stray(s: System, a: Action)
    requires Enabled(s, a)
  {
    a.AtClient? && TakesOffer(s.clients[a.m], a.i) && a.i.msg.chaddr != a.m
  }

  // ---------------------------------------------------------------------------
  // What holds for all ids
  // ---------------------------------------------------------------------------

  /** An OFFER that was sent, for this address. */
  predicate Names(net: set<Msg>, offer: Msg, ip: Ip) { offer in net && offer.Offer? && offer.yiaddr == ip != 0 }

  /** Lease and address of a client come from the OFFERs it took. */
  predicate FromOffers(s: System, k: Taken, m: Mac)
    requires m in s.clients
  {
    var c := s.clients[m];
    && (c.lease.Some? <==> m in k.offered) && (m in k.offered ==> Names(s.net, k.offered[m], c.lease.value.ip))
    && (c.iface != 0 <==> m in k.bound) && (m in k.bound ==> Names(s.net, k.bound[m], c.iface))
  }

  predicate Honest(s: System, msg: Msg) {
    msg.Offer? || msg.Ack? ==> Given(s.pool, s.macs, msg.chaddr, msg.yiaddr)
  }

  ghost predicate TakenInv(s: System, k: Taken) {
    && ServerInv(s)
    && (forall msg :: msg in s.net ==> Honest(s, msg))
    && (forall m :: m in s.clients ==> FromOffers(s, k, m))
  }

  lemma ReactTakes(c: Client, i: Input, x: Xid)
    requires Possible(c, i) && !Crashes(c, i)
    ensures var r := React(c, i, x);
      && r.c.lease == (if TakesOffer(c, i) then Some(Lease(i.msg.yiaddr, i.msg.server)) else c.lease)
      && r.c.iface == (if TakesAck(c, i) then c.lease.value.ip else c.iface)
      && (r.sent.Some? ==> r.sent.value.Discover? || r.sent.value.Request?)
  {
  }

  lemma {:induction false} ClientTakes(s: System, k: Taken, a: Action)
    requires TakenInv(s, k) && Enabled(s, a) && !Faulty(s, a) && a.AtClient?
    ensures TakenInv(Do(s, a), Note(k, s, a))
  {
    ReactTakes(s.clients[a.m], a.i, a.x);
    var (s', k') := (Do(s, a), Note(k, s, a));
    forall msg | msg in s'.net
      ensures Honest(s', msg)
    {
      assert msg in s.net ==> Honest(s, msg);
    }
    forall m | m in s'.clients
      ensures FromOffers(s', k', m)
    {
      assert FromOffers(s, k, m);
    }
  }

  lemma {:induction false} ServerTakes(s: System, k: Taken, a: Action)
    requires TakenInv(s, k) && Enabled(s, a) && a.AtServer?
    ensures TakenInv(Do(s, a), k)
  {
    ServeAnswers(s.pool, s.macs, a.msg);
    var s' := Do(s, a);
    forall msg | msg in s'.net
      ensures Honest(s', msg)
    {
      if msg in s.net && (msg.Offer? || msg.Ack?) {
        assert Honest(s, msg);
        ServeKeeps(s.pool, s.macs, a.msg, msg.chaddr, msg.yiaddr);
      }
    }
    forall m | m in s'.clients
      ensures FromOffers(s', k, m)
    {
      assert FromOffers(s, k, m);
    }
  }

  lemma {:induction false} ReachableTaken(ss: seq<System>, acts: seq<Action>)
    requires IsRun(ss, acts)
    ensures TakenInv(ss[|acts|], TakenOf(ss, acts))
  {
    if acts != [] {
      var n := |acts| - 1;
      ReachableTaken(ss[..n + 1], acts[..n]);
      var k := TakenOf(ss[..n + 1], acts[..n]);
      if acts[n].AtClient? {
        ClientTakes(ss[n], k, acts[n]);
      } else {
        ServerTakes(ss[n], k, acts[n]);
      }
    }
  }

  // ---------------------------------------------------------------------------
  // Exactly when a lease is right, and an address shared
  // ---------------------------------------------------------------------------

  /** In every run, with any ids: a client's lease is its own exactly if the OFFER it took last was made to it. */
  lemma {:induction false} LeaseOwnExactlyWhen(ss: seq<System>, acts: seq<Action>, m: Mac)
    requires IsRun(ss, acts) && m in ss[|acts|].clients && ss[|acts|].clients[m].lease.Some?
    ensures var s := ss[|acts|]; var offered := TakenOf(ss, acts).offered;
      m in offered && (Given(s.pool, s.macs, m, s.clients[m].lease.value.ip) <==> offered[m].chaddr == m)
  {
    var (s, k) := (ss[|acts|], TakenOf(ss, acts));
    ReachableTaken(ss, acts);
    assert FromOffers(s, k, m);
    assert Honest(s, k.offered[m]);
    if Given(s.pool, s.macs, m, s.clients[m].lease.value.ip) {
      GivenOnce(s, m, k.offered[m].chaddr, s.clients[m].lease.value.ip);
    }
  }

  /**
   In every run, with any ids: two interfaces share an address exactly if they were bound on OFFERs made
   to one client.
   */
  lemma {:induction false} SharedExactlyWhen(ss: seq<System>, acts: seq<Action>, m1: Mac, m2: Mac)
    requires IsRun(ss, acts) && m1 in ss[|acts|].clients && m2 in ss[|acts|].clients
    requires ss[|acts|].clients[m1].iface != 0 && ss[|acts|].clients[m2].iface != 0
    ensures var s := ss[|acts|]; var bound := TakenOf(ss, acts).bound;
      && m1 in bound && m2 in bound
      && (s.clients[m1].iface == s.clients[m2].iface <==> bound[m1].chaddr == bound[m2].chaddr)
  {
    var (s, k) := (ss[|acts|], TakenOf(ss, acts));
    ReachableTaken(ss, acts);
    assert FromOffers(s, k, m1) && FromOffers(s, k, m2);
    assert Honest(s, k.bound[m1]) && Honest(s, k.bound[m2]);
    if s.clients[m1].iface == s.clients[m2].iface {
      GivenOnce(s, k.bound[m1].chaddr, k.bound[m2].chaddr, s.clients[m1].iface);
    }
  }

  ghost predicate NoStray(ss: seq<System>, acts: seq<Action>)
    requires IsRun(ss, acts)
  {
    forall n :: 0 <= n < |acts| ==> !Stray(ss[n], acts[n])
  }

  ghost predicate Own(k: Taken) {
    && (forall m :: m in k.offered ==> k.offered[m].chaddr == m)
    && (forall m :: m in k.bound ==> k.bound[m].chaddr == m)
  }

  lemma NoteOwn(k: Taken, s: System, a: Action)
    requires Enabled(s, a) && Own(k) && !Stray(s, a)
    ensures Own(Note(k, s, a))
  {
  }

  lemma {:induction false} OwnOffers(ss: seq<System>, acts: seq<Action>)
    requires IsRun(ss, acts) && NoStray(ss, acts)
    ensures Own(TakenOf(ss, acts))
  {
    if acts != [] {
      var n := |acts| - 1;
      NoStrayBefore(ss, acts);
      OwnOffers(ss[..n + 1], acts[..n]);
      NoteOwn(TakenOf(ss[..n + 1], acts[..n]), ss[n], acts[n]);
    }
  }

  lemma {:induction false} NoStrayBefore(ss: seq<System>, acts: seq<Action>)
    requires IsRun(ss, acts) && NoStray(ss, acts) && acts != []
    ensures var n := |acts| - 1; IsRun(ss[..n + 1], acts[..n]) && NoStray(ss[..n + 1], acts[..n]) && !Stray(ss[n], acts[n])
  {
    var n := |acts| - 1;
    assert IsRun(ss[..n + 1], acts[..n]);
    forall i | 0 <= i < n
      ensures !Stray(ss[..n + 1][i], acts[..n][i])
    {
      assert ss[..n + 1][i] == ss[i] && acts[..n][i] == acts[i];
    }
  }

  /** So an address is shared only after some client took an OFFER made to another. */
  lemma {:induction false} SharedOnlyAfterStray(ss: seq<System>, acts: seq<Action>, m1: Mac, m2: Mac)
    requires IsRun(ss, acts) && m1 in ss[|acts|].clients && m2 in ss[|acts|].clients && m1 != m2
    requires ss[|acts|].clients[m1].iface == ss[|acts|].clients[m2].iface != 0
    ensures !NoStray(ss, acts)
  {
    SharedExactlyWhen(ss, acts, m1, m2);
    if NoStray(ss, acts) {
      OwnOffers(ss, acts);
    }
  }

  // ---------------------------------------------------------------------------
  // Exactly when a client follows a null pointer
  // ---------------------------------------------------------------------------

  lemma {:induction false} ReachableClients(ss: seq<System>, acts: seq<Action>, m: Mac)
    requires IsRun(ss, acts) && m in ss[|acts|].clients
    ensures ClientInv(ss[|acts|].clients[m])
  {
    if acts != [] {
      var n := |acts| - 1;
      ReachableClients(ss[..n + 1], acts[..n], m);
      if acts[n].AtClient? && acts[n].m == m {
        ReactInv(ss[n].clients[m], acts[n].i, acts[n].x);
      }
    }
  }

  /** In every run, with any ids: a client crashes exactly if it takes an acknowledgement and never took an OFFER. */
  lemma {:induction false} CrashesExactlyWhen(ss: seq<System>, acts: seq<Action>, a: Action)
    requires IsRun(ss, acts) && Enabled(ss[|acts|], a)
    ensures Faulty(ss[|acts|], a) <==>
      a.AtClient? && TakesAck(ss[|acts|].clients[a.m], a.i) && a.m !in TakenOf(ss, acts).offered
  {
    if a.AtClient? {
      ReachableClients(ss, acts, a.m);
      ReachableTaken(ss, acts);
      assert FromOffers(ss[|acts|], TakenOf(ss, acts), a.m);
    }
  }
}
