/** The server object of src/dhcp/DhcpServer.cpp: its handlers change the lease table
    and the hold-down table in place, each exactly as LeaseModel says. */
module LeaseServer {
  import opened Net
  import opened HoldDown
  import opened PoolScan
  import opened LeaseModel

  lemma {:induction false} WireOrderInjective(x: Ip, y: Ip)
    requires WireOrder(x) == WireOrder(y)
    ensures x == y
  {
    assert x.d == y.d;
    assert x.c == y.c;
  }

  class DhcpServer {
    var cfg: Config
    var leases: Table
    var rejects: nat
    const declined: DeclinedAddresses

    ghost predicate Valid()
      reads this, declined
    {
      declined.Valid()
    }

    ghost function St(): State
      reads this, declined, declined.entries
    {
      State(leases, declined.entries[..], rejects)
    }

    constructor (settings: Config)
      ensures Valid() && cfg == settings && St() == START && fresh(declined) && fresh(declined.entries)
    {
      cfg, leases, rejects := settings, map[], 0;
      declined := new DeclinedAddresses();
    }

    method RemoveExpired(now: Sec)
      modifies this`leases
      ensures leases == Purge(old(leases), now)
    {
      var todo := leases.Keys;
      while todo != {}
        invariant todo <= old(leases).Keys
        invariant leases ==
          map ip | ip in old(leases) && (ip in todo || old(leases)[ip].expiry > now) :: old(leases)[ip]
      {
        var ip :| ip in todo;
        if leases[ip].expiry <= now { leases := leases - {ip}; }
        todo := todo - {ip};
      }
    }

    method CanAddLeaseEntry(ip: Ip, now: Sec) returns (ok: bool)
      modifies this`leases, this`rejects
      ensures (St(), ok) == MakeRoom(cfg, old(St()), ip, now)
    {
      if ip in leases { return true; }
      if |leases| >= cfg.cap { RemoveExpired(now); }
      if |leases| < cfg.cap { return true; }
      rejects := rejects + 1;
      return false;
    }

    method ReserveOffer(mac: Mac, ip: Ip, name: string, now: Sec) returns (ok: bool)
      modifies this`leases, this`rejects
      ensures (St(), ok) == Reserve(cfg, old(St()), mac, ip, name, now)
    {
      if ip in leases && leases[ip].expiry > Add32(now, OFFER_HOLD_SEC) {
        if name != "" { leases := leases[ip := leases[ip].(hostname := name)]; }
        return true;
      }
      ok := CanAddLeaseEntry(ip, now);
      if !ok { return; }
      leases := leases[ip := Lease(mac, Add32(now, OFFER_HOLD_SEC), name)];
    }

    method FindBound(mac: Mac) returns (r: Option<Ip>)
      ensures r == BoundChoice(cfg.bindings, leases, mac)
    {
      for i := 0 to |cfg.bindings|
        invariant BoundChoice(cfg.bindings, leases, mac) == BoundChoice(cfg.bindings[i..], leases, mac)
      {
        var b := cfg.bindings[i];
        if !b.enabled { continue; }
        if b.mac == mac && b.ip !in leases { return Some(b.ip); }
      }
      return None;
    }

    method FindLease(mac: Mac) returns (r: Option<Ip>)
      ensures r == FirstLease(leases, mac)
    {
      var todo := leases.Keys;
      r := None;
      while todo != {}
        invariant todo <= leases.Keys
        invariant r.None? ==> forall ip :: ip in leases && ip !in todo ==> leases[ip].mac != mac
        invariant r.Some? ==> r.value in leases && leases[r.value].mac == mac
        invariant r.Some? ==> forall ip :: ip in leases && ip !in todo && leases[ip].mac == mac ==>
          WireOrder(r.value) <= WireOrder(ip)
      {
        var ip :| ip in todo;
        todo := todo - {ip};
        if leases[ip].mac == mac && (r.None? || WireOrder(ip) < WireOrder(r.value)) { r := Some(ip); }
      }
      if r.Some? {
        assert IsFirstLease(leases, mac, r.value);
        WireOrderInjective(r.value, FirstLease(leases, mac).value);
      }
    }

    method ScanPool(env: Env) returns (r: Ip)
      requires Valid() && ScanEnds(cfg, St(), env)
      ensures r == PoolStage(cfg, St(), env)
    {
      hide ScanLeft, WireOrder, HostOrder, Next;
      var ip := cfg.rangeStart;
      while WireOrder(ip) <= WireOrder(cfg.rangeEnd)
        invariant PoolChoice(cfg, St(), env, cfg.rangeStart) == PoolChoice(cfg, St(), env, ip)
        decreases ScanLeft(cfg, St(), env, ip)
      {
        if ip != cfg.serverIp && ip !in leases {
          var refused := declined.Declined(ip, env.nowMs);
          if !refused && !env.poolInUse(ip) { return ip; }
        }
        ScanLeftShrinks(cfg, St(), env, ip);
        ip := Next(ip);
      }
      return NO_IP;
    }

    method ChooseIp(env: Env, mac: Mac) returns (r: Ip)
      requires Valid() && SelectEnds(cfg, St(), env, mac)
      ensures r == SelectIp(cfg, St(), env, mac)
    {
      var b := FindBound(mac);
      if b.Some? { return b.value; }
      var l := FindLease(mac);
      if l.Some? { return l.value; }
      r := ScanPool(env);
    }

    method SendOffer(env: Env, mac: Mac, requested: Ip, name: string) returns (reply: Reply)
      requires Valid() && (MayOffer(cfg, St(), env, mac, requested) || SelectEnds(cfg, St(), env, mac))
      modifies this`leases, this`rejects
      ensures (St(), reply) == OnDiscover(cfg, old(St()), env, mac, requested, name)
    {
      var offer := NO_IP;
      if requested != NO_IP && (InRange(cfg, requested) || Bound(cfg, mac, requested)) {
        var fixed := Bound(cfg, mac, requested);
        var refused := declined.Declined(requested, env.nowMs);
        refused := !fixed && refused;
        if fixed || (!refused && env.probe(requested).None?) { offer := requested; }
      }
      if offer == NO_IP { offer := ChooseIp(env, mac); }
      if offer == NO_IP { return NoReply; }
      var ok := ReserveOffer(mac, offer, name, env.NowSec());
      reply := if ok then Offer(mac, offer) else NoReply;
    }

    method AnswerRequest(env: Env, mac: Mac, serverId: Ip, requested: Ip, ciaddr: Ip, name: string)
      returns (reply: Reply)
      requires Valid()
      modifies this`leases, this`rejects
      ensures (St(), reply) == OnRequest(cfg, old(St()), env, mac, serverId, requested, ciaddr, name)
    {
      if serverId != NO_IP && serverId != cfg.serverIp { return NoReply; }
      var ip := if requested != NO_IP then requested else ciaddr;
      if ip == NO_IP || ip == cfg.serverIp || !(InRange(cfg, ip) || Bound(cfg, mac, ip)) { return Nak(mac); }
      var ack := false;
      var refused := declined.Declined(ip, env.nowMs);
      if Bound(cfg, mac, ip) {
        ack := true;
      } else if ip in leases {
        ack := leases[ip].mac == mac;
      } else if !refused {
        var owner := env.probe(ip);
        ack := owner.None? || owner.value == mac;
      }
      assert ack == MayAck(cfg, St(), env, mac, ip);
      if !ack { return Nak(mac); }
      var ok := CanAddLeaseEntry(ip, env.NowSec());
      if !ok { return Nak(mac); }
      leases := leases[ip := Lease(mac, Add32(env.NowSec(), cfg.leaseTimeSec), name)];
      return Ack(mac, ip);
    }

    method HandleMessage(env: Env, msg: Message) returns (reply: Reply)
      requires Valid() && (msg.Discover? ==> DiscoverEnds(cfg, St(), env, msg))
      modifies this`leases, this`rejects, declined.entries
      ensures Valid() && (St(), reply) == Handle(cfg, old(St()), env, msg)
    {
      reply := NoReply;
      if !ClientAllowed(cfg, msg.mac) { return; }
      match msg
      case Discover(mac, requested, name) => reply := SendOffer(env, mac, requested, name);
      case Request(mac, serverId, requested, ciaddr, name) =>
        reply := AnswerRequest(env, mac, serverId, requested, ciaddr, name);
      case Release(_, ciaddr) => leases := leases - {ciaddr};
      case Decline(mac, requested) =>
        if requested in leases && leases[requested].mac == mac { leases := leases - {requested}; }
        var _ := declined.Add(requested, env.nowMs);
      case Other(_) =>
    }

    /** One turn of the server loop. */
    method Turn(env: Env, ev: Event) returns (reply: Reply)
      requires Valid() && TurnEnds(cfg, St(), env, ev)
      modifies this`leases, this`rejects, declined.entries
      ensures Valid() && (St(), reply) == Step(cfg, old(St()), env, ev)
    {
      RemoveExpired(env.NowSec());
      reply := NoReply;
      if ev.Receive? { reply := HandleMessage(env, ev.msg); }
    }
  }
}
