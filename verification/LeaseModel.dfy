/** The lease state machine of src/dhcp/DhcpServer.cpp as values: what one message
    or one idle wake-up makes of the lease table, and what is answered. */
module LeaseModel {
  import opened Net
  import opened HoldDown
  import opened PoolScan

  /** Seconds since boot, a `uint32_t`. */
  type Sec = t: int | 0 <= t < 0x1_0000_0000

  const OFFER_HOLD_SEC: Sec := 60

  datatype Lease = Lease(mac: Mac, expiry: Sec, hostname: string)

  type Table = map<Ip, Lease>

  datatype Binding = Binding(mac: Mac, ip: Ip, enabled: bool)

  /** The settings one step sees. `allowed` is what the allow-list table answers,
      `None` when it has no storage. */
  datatype Config = Config(
    serverIp: Ip, rangeStart: Ip, rangeEnd: Ip, leaseTimeSec: Sec,
    bindings: seq<Binding>, cap: nat, allowOnly: bool, allowed: Option<set<Mac>>)

  /** The clock and the network during one step. A probe answers `None` for a free
      address, else the owner (all zeros when unknown). The requested address and
      the pool are probed separately, so their answers may differ. */
  datatype Env = Env(nowMs: Ms, probe: Ip -> Option<Mac>, poolInUse: Ip -> bool) {
    function NowSec(): Sec { nowMs / 1000 % 0x1_0000_0000 }
  }

  datatype State = State(leases: Table, declined: seq<Entry>, rejects: nat)

  datatype Message =
    | Discover(mac: Mac, requested: Ip, name: string)
    | Request(mac: Mac, serverId: Ip, requested: Ip, ciaddr: Ip, name: string)
    | Release(mac: Mac, ciaddr: Ip)
    | Decline(mac: Mac, requested: Ip)
    | Other(mac: Mac)

  datatype Event = Timeout | Receive(msg: Message)

  datatype Reply = NoReply | Offer(to: Mac, ip: Ip) | Ack(to: Mac, ip: Ip) | Nak(to: Mac)

  function Add32(a: Sec, b: Sec): Sec {
    if a + b < 0x1_0000_0000 then a + b else a + b - 0x1_0000_0000
  }

  // ----- Rules

  predicate InRange(cfg: Config, ip: Ip) {
    && ip != cfg.serverIp
    && HostOrder(cfg.rangeStart) <= HostOrder(ip) <= HostOrder(cfg.rangeEnd)
  }

  /** An enabled static binding gives this address to this client. */
  predicate Bound(cfg: Config, mac: Mac, ip: Ip) {
    exists b :: b in cfg.bindings && b.enabled && b.ip == ip && b.mac == mac
  }

  predicate ClientAllowed(cfg: Config, mac: Mac) {
    || !cfg.allowOnly
    || cfg.allowed.None?
    || mac in cfg.allowed.value
    || exists b :: b in cfg.bindings && b.enabled && b.mac == mac
  }

  predicate Free(cfg: Config, s: State, env: Env, ip: Ip) {
    && ip != cfg.serverIp
    && ip !in s.leases
    && !IsDeclined(s.declined, ip, env.nowMs)
    && !env.poolInUse(ip)
  }

  function Purge(leases: Table, now: Sec): Table {
    map ip | ip in leases && leases[ip].expiry > now :: leases[ip]
  }

  // ----- Choosing an address

  /** The first enabled binding of this client whose address has no entry. */
  function BoundChoice(bindings: seq<Binding>, leases: Table, mac: Mac): (r: Option<Ip>)
    ensures r.Some? ==> r.value !in leases && Binding(mac, r.value, true) in bindings
  {
    if bindings == [] then None
    else if bindings[0].enabled && bindings[0].mac == mac && bindings[0].ip !in leases then Some(bindings[0].ip)
    else BoundChoice(bindings[1..], leases, mac)
  }

  /** The entry of this client that comes first in the table's key order. */
  ghost predicate IsFirstLease(leases: Table, mac: Mac, ip: Ip) {
    && ip in leases && leases[ip].mac == mac
    && forall other :: other in leases && leases[other].mac == mac ==> WireOrder(ip) <= WireOrder(other)
  }

  ghost function FirstLease(leases: Table, mac: Mac): (r: Option<Ip>)
    ensures r.Some? ==> IsFirstLease(leases, mac, r.value)
    ensures r.None? ==> forall ip :: !IsFirstLease(leases, mac, ip)
  {
    if exists ip :: IsFirstLease(leases, mac, ip)
    then var ip :| IsFirstLease(leases, mac, ip); Some(ip)
    else None
  }

  /** The pool loop comes to an end: a pool that ends in 255.255.255.255 has no
      address past its end, so only a free address can stop the loop. */
  ghost predicate ScanEnds(cfg: Config, s: State, env: Env) {
    cfg.rangeEnd == LIMITED_BROADCAST ==> exists ip :: Free(cfg, s, env, ip)
  }

  /** How far the loop can still be from its end. */
  ghost function ScanLeft(cfg: Config, s: State, env: Env, ip: Ip): nat
    requires ScanEnds(cfg, s, env)
  {
    if cfg.rangeEnd != LIMITED_BROADCAST then 0xFFFF_FFFF - HostOrder(ip)
    else
      var target :| Free(cfg, s, env, target);
      Distance(ip, target)
  }

  lemma {:induction false} ScanLeftShrinks(cfg: Config, s: State, env: Env, ip: Ip)
    requires ScanEnds(cfg, s, env) && WireOrder(ip) <= WireOrder(cfg.rangeEnd) && !Free(cfg, s, env, ip)
    ensures ScanLeft(cfg, s, env, Next(ip)) < ScanLeft(cfg, s, env, ip)
  {
    hide Free;
    if cfg.rangeEnd != LIMITED_BROADCAST {
      NextIsLater(ip, cfg.rangeEnd);
    } else {
      forall target | Free(cfg, s, env, target) ensures Distance(Next(ip), target) < Distance(ip, target) {
        NextIsCloser(ip, target);
      }
    }
  }

  /** The pool stage from `ip` on; `NO_IP` when it runs out. */
  ghost function PoolChoice(cfg: Config, s: State, env: Env, ip: Ip): (r: Ip)
    requires ScanEnds(cfg, s, env)
    ensures r != NO_IP ==> Free(cfg, s, env, r)
    decreases ScanLeft(cfg, s, env, ip)
  {
    if WireOrder(ip) > WireOrder(cfg.rangeEnd) then NO_IP
    else if Free(cfg, s, env, ip) then ip
    else
      ScanLeftShrinks(cfg, s, env, ip);
      PoolChoice(cfg, s, env, Next(ip))
  }

  /** A loop that does not end chooses nothing. */
  ghost function PoolStage(cfg: Config, s: State, env: Env): (r: Ip)
    ensures r != NO_IP ==> Free(cfg, s, env, r)
  {
    if ScanEnds(cfg, s, env) then PoolChoice(cfg, s, env, cfg.rangeStart) else NO_IP
  }

  ghost function SelectIp(cfg: Config, s: State, env: Env, mac: Mac): Ip {
    match BoundChoice(cfg.bindings, s.leases, mac)
    case Some(ip) => ip
    case None =>
      match FirstLease(s.leases, mac)
      case Some(ip) => ip
      case None => PoolStage(cfg, s, env)
  }

  /** Selecting an address for this client ends: it has one already, or the scan ends. */
  ghost predicate SelectEnds(cfg: Config, s: State, env: Env, mac: Mac) {
    BoundChoice(cfg.bindings, s.leases, mac).None? && FirstLease(s.leases, mac).None? ==> ScanEnds(cfg, s, env)
  }

  // ----- Table updates

  /** Room for an entry of `ip`, purging a full table first. */
  function MakeRoom(cfg: Config, s: State, ip: Ip, now: Sec): (State, bool) {
    if ip in s.leases then (s, true)
    else
      var t := if |s.leases| >= cfg.cap then s.(leases := Purge(s.leases, now)) else s;
      if |t.leases| < cfg.cap then (t, true) else (t.(rejects := t.rejects + 1), false)
  }

  function Reserve(cfg: Config, s: State, mac: Mac, ip: Ip, name: string, now: Sec): (State, bool) {
    if ip in s.leases && s.leases[ip].expiry > Add32(now, OFFER_HOLD_SEC) then
      var kept := s.leases[ip];
      (if name == "" then s else s.(leases := s.leases[ip := kept.(hostname := name)]), true)
    else
      var (t, ok) := MakeRoom(cfg, s, ip, now);
      if !ok then (t, false)
      else (t.(leases := t.leases[ip := Lease(mac, Add32(now, OFFER_HOLD_SEC), name)]), true)
  }

  // ----- Messages

  /** A client may be offered the address it asks for. */
  predicate MayOffer(cfg: Config, s: State, env: Env, mac: Mac, ip: Ip) {
    ip != NO_IP && (Bound(cfg, mac, ip) ||
      (InRange(cfg, ip) && !IsDeclined(s.declined, ip, env.nowMs) && env.probe(ip).None?))
  }

  ghost function OfferChoice(cfg: Config, s: State, env: Env, mac: Mac, requested: Ip): Ip {
    if MayOffer(cfg, s, env, mac, requested) then requested else SelectIp(cfg, s, env, mac)
  }

  ghost function OnDiscover(cfg: Config, s: State, env: Env, mac: Mac, requested: Ip, name: string): (State, Reply) {
    var ip := OfferChoice(cfg, s, env, mac, requested);
    if ip == NO_IP then (s, NoReply)
    else
      var (t, ok) := Reserve(cfg, s, mac, ip, name, env.NowSec());
      (t, if ok then Offer(mac, ip) else NoReply)
  }

  predicate MayAck(cfg: Config, s: State, env: Env, mac: Mac, ip: Ip) {
    && ip != NO_IP && ip != cfg.serverIp
    && (|| Bound(cfg, mac, ip)
        || (&& InRange(cfg, ip)
            && if ip in s.leases then s.leases[ip].mac == mac
               else && !IsDeclined(s.declined, ip, env.nowMs)
                    && (env.probe(ip).None? || env.probe(ip).value == mac)))
  }

  function OnRequest(
    cfg: Config, s: State, env: Env, mac: Mac, serverId: Ip, requested: Ip, ciaddr: Ip, name: string): (State, Reply)
  {
    if serverId != NO_IP && serverId != cfg.serverIp then (s, NoReply)
    else
      var ip := if requested != NO_IP then requested else ciaddr;
      if !MayAck(cfg, s, env, mac, ip) then (s, Nak(mac))
      else
        var (t, ok) := MakeRoom(cfg, s, ip, env.NowSec());
        if !ok then (t, Nak(mac))
        else (t.(leases := t.leases[ip := Lease(mac, Add32(env.NowSec(), cfg.leaseTimeSec), name)]), Ack(mac, ip))
  }

  function OnDecline(s: State, env: Env, mac: Mac, ip: Ip): State
    requires |s.declined| == CAPACITY
  {
    var leases := if ip in s.leases && s.leases[ip].mac == mac then s.leases - {ip} else s.leases;
    s.(leases := leases, declined := Refuse(s.declined, ip, env.nowMs))
  }

  ghost function Handle(cfg: Config, s: State, env: Env, msg: Message): (State, Reply)
    requires |s.declined| == CAPACITY
  {
    if !ClientAllowed(cfg, msg.mac) then (s, NoReply)
    else
      match msg
      case Discover(mac, requested, name) => OnDiscover(cfg, s, env, mac, requested, name)
      case Request(mac, serverId, requested, ciaddr, name) =>
        OnRequest(cfg, s, env, mac, serverId, requested, ciaddr, name)
      case Release(_, ciaddr) => (s.(leases := s.leases - {ciaddr}), NoReply)
      case Decline(mac, requested) => (OnDecline(s, env, mac, requested), NoReply)
      case Other(_) => (s, NoReply)
  }

  /** One turn of the server loop: purge, then handle what arrived. */
  ghost function Step(cfg: Config, s: State, env: Env, ev: Event): (r: (State, Reply))
    requires |s.declined| == CAPACITY
    ensures |r.0.declined| == CAPACITY
  {
    var t := s.(leases := Purge(s.leases, env.NowSec()));
    match ev
    case Timeout => (t, NoReply)
    case Receive(msg) => Handle(cfg, t, env, msg)
  }

  /** The turn comes to an end: only a DISCOVER from an allowed client that asks for no
      address it may be offered gets as far as the pool. */
  ghost predicate TurnEnds(cfg: Config, s: State, env: Env, ev: Event) {
    ev.Receive? && ev.msg.Discover? ==> DiscoverEnds(cfg, s.(leases := Purge(s.leases, env.NowSec())), env, ev.msg)
  }

  ghost predicate DiscoverEnds(cfg: Config, s: State, env: Env, msg: Message)
    requires msg.Discover?
  {
    || !ClientAllowed(cfg, msg.mac) || MayOffer(cfg, s, env, msg.mac, msg.requested)
    || SelectEnds(cfg, s, env, msg.mac)
  }

  // ----- Runs

  /** One input of a run: settings may be reloaded between any two steps. */
  datatype Input = Input(cfg: Config, env: Env, ev: Event)

  /** The clock does not go back. */
  ghost predicate GoodRun(run: seq<Input>) {
    forall i, j :: 0 <= i <= j < |run| ==> run[i].env.nowMs <= run[j].env.nowMs
  }

  /** A server that has just started: no leases, no refusals. */
  const START: State := State(map[], EmptyTable(), 0)

  /** The state after the first `n` steps. */
  ghost function StateAfter(s: State, run: seq<Input>, n: nat): (r: State)
    requires n <= |run| && |s.declined| == CAPACITY
    ensures |r.declined| == CAPACITY
  {
    if n == 0 then s
    else Step(run[n - 1].cfg, StateAfter(s, run, n - 1), run[n - 1].env, run[n - 1].ev).0
  }

  /** The answer given in step `n`. */
  ghost function ReplyAt(s: State, run: seq<Input>, n: nat): Reply
    requires n < |run| && |s.declined| == CAPACITY
  {
    Step(run[n].cfg, StateAfter(s, run, n), run[n].env, run[n].ev).1
  }

  // ----- Which scans end

  /** The pool loop is still running after `n` addresses from `ip` on. */
  predicate StillScanning(cfg: Config, s: State, env: Env, ip: Ip, n: nat)
    decreases n
  {
    n == 0 ||
    (WireOrder(ip) <= WireOrder(cfg.rangeEnd) && !Free(cfg, s, env, ip) && StillScanning(cfg, s, env, Next(ip), n - 1))
  }

  lemma {:induction false} ScanStops(cfg: Config, s: State, env: Env, ip: Ip) returns (n: nat)
    requires ScanEnds(cfg, s, env)
    ensures !StillScanning(cfg, s, env, ip, n)
    decreases ScanLeft(cfg, s, env, ip)
  {
    hide Free, WireOrder, ScanLeft, Next, HostOrder, ScanEnds;
    n := 1;
    if WireOrder(ip) <= WireOrder(cfg.rangeEnd) && !Free(cfg, s, env, ip) {
      ScanLeftShrinks(cfg, s, env, ip);
      var more := ScanStops(cfg, s, env, Next(ip));
      n := 1 + more;
    }
  }

  lemma {:induction false} NothingPastBroadcast(ip: Ip)
    ensures WireOrder(ip) <= WireOrder(LIMITED_BROADCAST)
  {
  }

  lemma {:induction false} ScansForever(cfg: Config, s: State, env: Env, ip: Ip, n: nat)
    requires !ScanEnds(cfg, s, env)
    ensures StillScanning(cfg, s, env, ip, n)
    decreases n
  {
    hide Free, WireOrder, Next, HostOrder;
    NothingPastBroadcast(ip);
    if n > 0 { ScansForever(cfg, s, env, Next(ip), n - 1); }
  }

  /** The pool loop ends if and only if the pool does not end in 255.255.255.255 or
      some address, anywhere, is free; so with nothing free it ends if and only if
      the pool does not end there. */
  lemma {:induction false} ScanEndsExactlyWhen(cfg: Config, s: State, env: Env)
    ensures (exists n: nat :: !StillScanning(cfg, s, env, cfg.rangeStart, n)) <==>
      cfg.rangeEnd != LIMITED_BROADCAST || exists ip :: Free(cfg, s, env, ip)
  {
    hide Free, StillScanning;
    if ScanEnds(cfg, s, env) {
      var n := ScanStops(cfg, s, env, cfg.rangeStart);
    } else {
      forall n: nat ensures StillScanning(cfg, s, env, cfg.rangeStart, n) {
        ScansForever(cfg, s, env, cfg.rangeStart, n);
      }
    }
  }

  /** A pool that ends in 255.255.255.255 on a network where everything answers: the
      loop never ends. */
  lemma {:induction false} ScanCanRunForever(cfg: Config, s: State, n: nat)
    requires cfg.rangeEnd == LIMITED_BROADCAST
    ensures StillScanning(cfg, s, Env(0, _ => None, _ => true), cfg.rangeStart, n)
  {
    ScansForever(cfg, s, Env(0, _ => None, _ => true), cfg.rangeStart, n);
  }
}
