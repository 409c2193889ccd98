/**
 The DHCP client and server modules: pointers, timers and tables, updated in place.
 */
module DhcpClientModule {
  import opened DhcpSpec
  import opened Options

  datatype TimerKind = WaitOffer | WaitAck | KindT1 | KindT2

  /** A timer is a null pointer or a message, which may have been delivered already. */
  datatype TimerPtr = Null | Message(kind: TimerKind, scheduled: bool)

  predicate Pending(t: TimerPtr) { t.Message? && t.scheduled }

  class DhcpClient {
    const clientMacAddress: Mac
    var clientState: Phase
    var xid: Xid
    var lease: Option<Lease>
    var retryCount: nat
    var timerTO: TimerPtr
    var timerT1: TimerPtr
    var timerT2: TimerPtr
    var ipAddress: Ip

    ghost function Abs(): Client
      reads this
    {
      Client(clientMacAddress, clientState, xid, lease, retryCount,
             if !Pending(timerTO) then None else Some(if timerTO.kind == WaitOffer then WAIT_OFFER else WAIT_ACK),
             Pending(timerT1), Pending(timerT2), ipAddress)
    }

    ghost predicate Valid()
      reads this
    {
      && (timerTO.Message? ==> timerTO.kind == WaitOffer || timerTO.kind == WaitAck)
      && (timerT1.Message? ==> timerT1.kind == KindT1)
      && (timerT2.Message? ==> timerT2.kind == KindT2)
    }

    constructor (mac: Mac)
      ensures Valid() && Abs() == Client(mac, IDLE, 0, None, 0, None, false, false, 0)
    {
      clientMacAddress := mac;
      clientState, xid, lease, retryCount := IDLE, 0, None, 0;
      timerTO, timerT1, timerT2, ipAddress := Null, Null, Null, 0;
    }

    method CancelTimerTO()
      modifies `timerTO
      ensures timerTO == Null
    {
      timerTO := Null;
    }

    method CancelTimerT1()
      modifies `timerT1
      ensures timerT1 == Null
    {
      timerT1 := Null;
    }

    method CancelTimerT2()
      modifies `timerT2
      ensures timerT2 == Null
    {
      timerT2 := Null;
    }

    method ScheduleTimerTO(kind: TimerKind)
      modifies `timerTO
      ensures timerTO == Message(kind, true)
    {
      CancelTimerTO();
      timerTO := Message(kind, true);
    }

    method ScheduleTimerT1()
      modifies `timerT1
      ensures timerT1 == Message(KindT1, true)
    {
      CancelTimerT1();
      timerT1 := Message(KindT1, true);
    }

    method ScheduleTimerT2()
      modifies `timerT2
      ensures timerT2 == Message(KindT2, true)
    {
      CancelTimerT2();
      timerT2 := Message(KindT2, true);
    }

    method SendDiscover(x: Xid) returns (sent: Option<Msg>)
      modifies `xid
      ensures xid == x && sent == Some(Discover(x, clientMacAddress))
    {
      xid := x;
      sent := Some(Discover(xid, clientMacAddress));
    }

    method SendRequest(x: Xid) returns (sent: Option<Msg>)
      requires clientState in {REQUESTING, RENEWING, REBINDING} && lease.Some?
      modifies `xid
      ensures xid == x
      ensures sent == Some(Request(x, clientMacAddress, if clientState == REQUESTING then lease.value.server else 0))
    {
      xid := x;
      if clientState == REQUESTING {
        sent := Some(Request(xid, clientMacAddress, lease.value.server));
      } else {
        sent := Some(Request(xid, clientMacAddress, 0));
      }
    }

    /** What entering a state means; `INIT` is passed through on the way to `SELECTING`. */
    method ChangeFSMState(newState: Phase, x: Xid) returns (sent: Option<Msg>)
      requires Valid() && newState != IDLE
      requires newState == INIT || newState == SELECTING || lease.Some?
      modifies this
      ensures Valid() && Reaction(Abs(), sent) == Enter(old(Abs()), newState, x)
      decreases newState == INIT
    {
      clientState := newState;
      sent := None;
      if newState == INIT {
        CancelTimerT1();
        CancelTimerT2();
        CancelTimerTO();
        sent := ChangeFSMState(SELECTING, x);
      }
      if newState == SELECTING {
        sent := SendDiscover(x);
        ScheduleTimerTO(WaitOffer);
      }
      if newState == REQUESTING {
        sent := SendRequest(x);
        ScheduleTimerTO(WaitAck);
      }
      if newState == BOUND {
        CancelTimerTO();
        ScheduleTimerT1();
        ScheduleTimerT2();
        ipAddress := lease.value.ip;
      }
      if newState == RENEWING {
        sent := SendRequest(x);
        ScheduleTimerTO(WaitAck);
      }
      if newState == REBINDING {
        CancelTimerT1();
        CancelTimerT2();
        CancelTimerTO();
        sent := SendRequest(x);
        ScheduleTimerTO(WaitAck);
      }
    }

    method HandleTimeout(x: Xid) returns (sent: Option<Msg>)
      requires Valid() && Pending(timerTO) && !Crashes(Abs(), Timeout)
      modifies this
      ensures Valid() && Reaction(Abs(), sent) == React(old(Abs()), Timeout, x)
    {
      var kind := timerTO.kind;
      timerTO := Message(kind, false);
      sent := None;
      if kind == WaitOffer {
        if retryCount < RETRY_MAX {
          sent := ChangeFSMState(SELECTING, x);
          retryCount := retryCount + 1;
        } else {
          retryCount := 0;
          sent := ChangeFSMState(INIT, x);
        }
      } else {
        retryCount := if retryCount < RETRY_MAX then retryCount + 1 else 0;
        if clientState == REQUESTING {
          sent := ChangeFSMState(REQUESTING, x);
        } else if clientState == RENEWING {
          sent := ChangeFSMState(RENEWING, x);
        } else if clientState == REBINDING {
          sent := ChangeFSMState(REBINDING, x);
        }
      }
    }

    method HandleT1(x: Xid) returns (sent: Option<Msg>)
      requires Valid() && Pending(timerT1) && !Crashes(Abs(), T1)
      modifies this
      ensures Valid() && Reaction(Abs(), sent) == React(old(Abs()), T1, x)
    {
      timerT1 := Message(KindT1, false);
      sent := ChangeFSMState(RENEWING, x);
    }

    method HandleT2(x: Xid) returns (sent: Option<Msg>)
      requires Valid() && Pending(timerT2) && !Crashes(Abs(), T2)
      modifies this
      ensures Valid() && Reaction(Abs(), sent) == React(old(Abs()), T2, x)
    {
      timerT2 := Message(KindT2, false);
      sent := None;
      if clientState == RENEWING {
        sent := ChangeFSMState(REBINDING, x);
      }
    }

    method HandleDHCPMessage(msg: Msg, x: Xid) returns (sent: Option<Msg>)
      requires Valid() && !Crashes(Abs(), Receive(msg))
      modifies this
      ensures Valid() && Reaction(Abs(), sent) == React(old(Abs()), Receive(msg), x)
    {
      sent := None;
      if (msg.Offer? || msg.Ack?) && msg.xid == xid {
        if msg.Offer? && clientState == SELECTING {
          if msg.yiaddr != 0 {
            lease := Some(Lease(msg.yiaddr, msg.server));
            sent := ChangeFSMState(REQUESTING, x);
          }
        }
        if msg.Ack? {
          if msg.yiaddr != 0 {
            sent := ChangeFSMState(BOUND, x);
          }
        }
      }
    }

    method ReceiveChangeNotification(x: Xid) returns (sent: Option<Msg>)
      requires Valid()
      modifies this
      ensures Valid() && Reaction(Abs(), sent) == React(old(Abs()), Associated, x)
    {
      sent := ChangeFSMState(INIT, x);
    }
  }
}

module DhcpServerModule {
  import opened DhcpSpec
  import opened Options

  datatype ServerLease = ServerLease(ip: Ip, mac: Mac, xid: Xid, leased: bool)

  /** The table holds exactly the first addresses of the pool, each leased to its MAC. */
  ghost predicate Table(p: Pool, macs: seq<Mac>, leased: map<Ip, ServerLease>) {
    && p.Ok() && |macs| <= p.size
    && (forall i, j :: 0 <= i < j < |macs| ==> macs[i] != macs[j])
    && (forall ip :: ip in leased ==> exists i :: 0 <= i < |macs| && ip == p.Address(i))
    && (forall i :: 0 <= i < |macs| ==> Entry(p, macs[i], p.Address(i), leased))
  }

  predicate Entry(p: Pool, mac: Mac, ip: Ip, leased: map<Ip, ServerLease>) {
    ip in leased && leased[ip].ip == ip && leased[ip].mac == mac && leased[ip].leased
  }

  /** A lease that is found is the one at the MAC's place in the list. */
  lemma {:induction false} FoundAtIndex(p: Pool, macs: seq<Mac>, leased: map<Ip, ServerLease>, ip: Ip)
    requires Table(p, macs, leased) && ip in leased
    ensures leased[ip].mac in macs && ip == leased[ip].ip == p.Address(IndexOf(macs, leased[ip].mac))
    ensures leased[ip].leased
  {
    var i :| 0 <= i < |macs| && ip == p.Address(i);
    assert Entry(p, macs[i], p.Address(i), leased);
  }

  lemma {:induction false} FoundExactlyWhen(p: Pool, macs: seq<Mac>, leased: map<Ip, ServerLease>, mac: Mac)
    requires Table(p, macs, leased)
    ensures mac in macs <==> exists ip :: ip in leased && leased[ip].mac == mac
  {
    if mac in macs {
      assert Entry(p, mac, p.Address(IndexOf(macs, mac)), leased);
    }
    forall ip | ip in leased && leased[ip].mac == mac
      ensures mac in macs
    {
      FoundAtIndex(p, macs, leased, ip);
    }
  }

  /** The first free address is the one after those given out. */
  lemma {:induction false} FreeIsNext(p: Pool, macs: seq<Mac>, leased: map<Ip, ServerLease>, i: nat)
    requires Table(p, macs, leased) && i < p.size && p.Address(i) !in leased
    requires forall j :: 0 <= j < i ==> p.Address(j) in leased
    ensures i == |macs|
  {
    if i > |macs| {
      var n := |macs|;
      assert p.Address(n) in leased;
      var k :| 0 <= k < n && p.Address(n) == p.Address(k);
      AddressesDiffer(p, k, n);
    }
  }

  lemma {:induction false} AssignKeepsTable(p: Pool, macs: seq<Mac>, leased: map<Ip, ServerLease>, mac: Mac,
                                            l: ServerLease)
    requires Table(p, macs, leased) && |macs| < p.size && mac !in macs
    requires l.ip == p.Address(|macs|) && l.mac == mac && l.leased
    ensures Table(p, macs + [mac], leased[l.ip := l])
  {
    var (macs', leased') := (macs + [mac], leased[l.ip := l]);
    forall i | 0 <= i < |macs'|
      ensures Entry(p, macs'[i], p.Address(i), leased')
    {
      if i < |macs| {
        assert Entry(p, macs[i], p.Address(i), leased);
        AddressesDiffer(p, i, |macs|);
      }
    }
    assert macs'[|macs|] == mac;
    forall ip | ip in leased'
      ensures exists i :: 0 <= i < |macs'| && ip == p.Address(i)
    {
      if ip in leased {
        var i :| 0 <= i < |macs| && ip == p.Address(i);
        assert 0 <= i < |macs'|;
      } else {
        assert ip == p.Address(|macs|);
      }
    }
  }

  lemma {:induction false} NoteKeepsTable(p: Pool, macs: seq<Mac>, leased: map<Ip, ServerLease>, ip: Ip, xid: Xid)
    requires Table(p, macs, leased) && ip in leased
    ensures Table(p, macs, leased[ip := leased[ip].(xid := xid)])
  {
    var leased' := leased[ip := leased[ip].(xid := xid)];
    forall i | 0 <= i < |macs|
      ensures Entry(p, macs[i], p.Address(i), leased')
    {
      assert Entry(p, macs[i], p.Address(i), leased);
    }
  }

  class DhcpServer {
    const pool: Pool
    var leased: map<Ip, ServerLease>
    ghost var macs: seq<Mac>

    ghost predicate Valid()
      reads this
    {
      Table(pool, macs, leased)
    }

    constructor (p: Pool)
      requires p.Ok()
      ensures Valid() && pool == p && macs == []
    {
      pool, leased, macs := p, map[], [];
    }

    /** Any lease with this MAC, looking through the whole table. */
    method GetLeaseByMac(mac: Mac) returns (found: Option<Ip>)
      ensures found.Some? ==> found.value in leased && leased[found.value].mac == mac
      ensures found.None? ==> forall ip :: ip in leased ==> leased[ip].mac != mac
    {
      var todo := leased.Keys;
      while todo != {}
        invariant todo <= leased.Keys
        invariant forall ip :: ip in leased && ip !in todo ==> leased[ip].mac != mac
      {
        var ip :| ip in todo;
        if leased[ip].mac == mac {
          return Some(ip);
        }
        todo := todo - {ip};
      }
      return None;
    }

    /** The first address of the pool that is not in use, entered into the table if it is new. */
    method GetAvailableLease() returns (found: Option<nat>)
      modifies `leased
      ensures found.None? ==>
        && leased == old(leased)
        && forall j :: 0 <= j < pool.size ==> pool.Address(j) in leased && leased[pool.Address(j)].leased
      ensures found.Some? ==>
        && found.value < pool.size
        && (forall j :: 0 <= j < found.value ==> pool.Address(j) in old(leased) && old(leased)[pool.Address(j)].leased)
        && var ip := pool.Address(found.value);
           if ip in old(leased) then !old(leased)[ip].leased && leased == old(leased)
           else leased == old(leased)[ip := ServerLease(ip, 0, 0, false)]
    {
      for i := 0 to pool.size
        invariant leased == old(leased)
        invariant forall j :: 0 <= j < i ==> pool.Address(j) in leased && leased[pool.Address(j)].leased
      {
        var ip := pool.Address(i);
        if ip in leased {
          if !leased[ip].leased {
            return Some(i);
          }
        } else {
          leased := leased[ip := ServerLease(ip, 0, 0, false)];
          return Some(i);
        }
      }
      return None;
    }

    /** A MAC that has no lease yet gets the next address, if there is one. */
    method OfferNew(mac: Mac, xid: Xid) returns (answer: Option<Msg>)
      requires Valid() && mac !in macs
      modifies this
      ensures Valid() && (macs, answer) == Serve(pool, old(macs), Discover(xid, mac))
    {
      answer := None;
      var index := GetAvailableLease();
      if index.Some? {
        var ip := pool.Address(index.value);
        assert ip !in old(leased) by {
          if ip in old(leased) {
            FoundAtIndex(pool, macs, old(leased), ip);
          }
        }
        FreeIsNext(pool, macs, old(leased), index.value);
        leased := leased[ip := leased[ip].(mac := mac, xid := xid, leased := true)];
        AssignKeepsTable(pool, macs, old(leased), mac, leased[ip]);
        assert leased == old(leased)[ip := leased[ip]];
        macs := macs + [mac];
        answer := Some(Offer(leased[ip].xid, leased[ip].mac, leased[ip].ip, pool.server));
      } else if |macs| < pool.size {
        var k :| 0 <= k < |macs| && pool.Address(|macs|) == pool.Address(k);
        AddressesDiffer(pool, k, |macs|);
      }
    }

    /** Answers a DISCOVER or REQUEST as the specification says, whatever server id it carries. */
    method ProcessPacket(msg: Msg) returns (answer: Option<Msg>)
      requires Valid()
      modifies this
      ensures Valid() && (macs, answer) == Serve(pool, old(macs), msg)
    {
      answer := None;
      FoundExactlyWhen(pool, macs, leased, msg.chaddr);
      if msg.Discover? {
        var lease := GetLeaseByMac(msg.chaddr);
        if lease.None? {
          answer := OfferNew(msg.chaddr, msg.xid);
        } else {
          var ip := lease.value;
          FoundAtIndex(pool, macs, leased, ip);
          NoteKeepsTable(pool, macs, leased, ip, msg.xid);
          leased := leased[ip := leased[ip].(xid := msg.xid)];
          answer := Some(Offer(leased[ip].xid, leased[ip].mac, leased[ip].ip, pool.server));
        }
      } else if msg.Request? {
        var lease := GetLeaseByMac(msg.chaddr);
        if lease.Some? {
          var ip := lease.value;
          FoundAtIndex(pool, macs, leased, ip);
          NoteKeepsTable(pool, macs, leased, ip, msg.xid);
          if msg.server == pool.server {
            leased := leased[ip := leased[ip].(xid := msg.xid)];
          } else {
            leased := leased[ip := leased[ip].(xid := msg.xid, leased := true)];
          }
          answer := Some(Ack(leased[ip].xid, leased[ip].mac, leased[ip].ip, pool.server));
        }
      }
    }
  }
}
