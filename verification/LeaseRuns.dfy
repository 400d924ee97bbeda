/** Who owns an address, how many entries there are, and how a refused client
    drains out: step by step and over whole runs. */
module LeaseRuns {
  import opened Net
  import opened HoldDown
  import opened PoolScan
  import opened LeaseModel

  /** The longest an entry can be set to live. */
  function Longest(cfg: Config): int {
    if cfg.leaseTimeSec > OFFER_HOLD_SEC then cfg.leaseTimeSec else OFFER_HOLD_SEC
  }

  /** The end of an offer made in this step fits the 32-bit seconds. */
  predicate HoldFits(x: Input) {
    x.env.nowMs / 1000 + OFFER_HOLD_SEC < 0x1_0000_0000
  }

  /** Expiry times of this step fit the 32-bit seconds. */
  predicate ClockFits(x: Input) {
    x.env.nowMs / 1000 + Longest(x.cfg) < 0x1_0000_0000
  }

  /** The hold-down table has its fixed size. */
  predicate Ready(s: State) { |s.declined| == CAPACITY }

  ghost function NextState(x: Input, s: State): State
    requires Ready(s)
  {
    Step(x.cfg, s, x.env, x.ev).0
  }

  predicate From(x: Input, mac: Mac) {
    x.ev.Receive? && x.ev.msg.mac == mac
  }

  // ----- Ownership

  /** What one step can make of an entry with more than the offer hold left: keep
      it, renew it for its owner or for a client bound to that address, or remove
      it by a RELEASE of the address or a DECLINE from its owner. */
  ghost predicate OwnedStep(x: Input, s: State, ip: Ip)
    requires Ready(s) && ip in s.leases
  {
    var t, owner := NextState(x, s), s.leases[ip].mac;
    if ip in t.leases then
      || (t.leases[ip].mac == owner && t.leases[ip].expiry == s.leases[ip].expiry)
      || (&& x.ev.Receive? && x.ev.msg.Request? && t.leases[ip].mac == x.ev.msg.mac
          && t.leases[ip].expiry == Add32(x.env.NowSec(), x.cfg.leaseTimeSec)
          && (t.leases[ip].mac == owner || Bound(x.cfg, t.leases[ip].mac, ip)))
    else
      x.ev.Receive? && (x.ev.msg == Release(x.ev.msg.mac, ip) || x.ev.msg == Decline(owner, ip))
  }

  lemma {:induction false} DiscoverKeepsOwner(x: Input, s: State, ip: Ip)
    requires Ready(s) && x.ev.Receive? && x.ev.msg.Discover?
    requires ip in s.leases && s.leases[ip].expiry > x.env.NowSec()
    ensures var t := NextState(x, s);
      && ip in t.leases && (HoldFits(x) ==> t.leases[ip].expiry >= s.leases[ip].expiry)
      && (s.leases[ip].expiry > x.env.NowSec() + OFFER_HOLD_SEC ==>
           t.leases[ip].mac == s.leases[ip].mac && t.leases[ip].expiry == s.leases[ip].expiry)
  {
    hide OfferChoice, ClientAllowed;
  }

  lemma {:induction false} LeaseOwnership(x: Input, s: State, ip: Ip)
    requires Ready(s) && ip in s.leases && s.leases[ip].expiry > x.env.NowSec() + OFFER_HOLD_SEC
    ensures OwnedStep(x, s, ip)
  {
    hide OnDiscover, IsDeclined, Refuse, ClientAllowed;
    if x.ev.Receive? && x.ev.msg.Discover? { DiscoverKeepsOwner(x, s, ip); }
  }

  /** An ACK to a client not bound to the address needs the address free of
      entries, or the entry its own; a free one must also not be held down. The
      client then has the entry for a whole lease time, under the name it gave. */
  lemma {:induction false} AckNeedsOwnership(x: Input, s: State)
    requires Ready(s) && Step(x.cfg, s, x.env, x.ev).1.Ack?
    ensures var Ack(mac, ip) := Step(x.cfg, s, x.env, x.ev).1;
      var left := Purge(s.leases, x.env.NowSec());
      && From(x, mac) && x.ev.msg.Request? && ip in NextState(x, s).leases
      && NextState(x, s).leases[ip] == Lease(mac, Add32(x.env.NowSec(), x.cfg.leaseTimeSec), x.ev.msg.name)
      && (Bound(x.cfg, mac, ip) || (ip in left && left[ip].mac == mac)
          || (ip !in left && InRange(x.cfg, ip) && !IsDeclined(s.declined, ip, x.env.nowMs)))
  {
  }

  /** The answer to a REQUEST for this server from an allowed client: an ACK if and only if
      the address is one, not the server's, and there is room for its entry, and the
      client is bound to it, or it lies in the range and its entry is the client's or,
      without an entry, it is not held down and nobody else answers the probe. */
  lemma {:induction false} AcknowledgedExactlyWhen(x: Input, s: State, ip: Ip)
    requires Ready(s) && x.ev.Receive? && x.ev.msg.Request? && ClientAllowed(x.cfg, x.ev.msg.mac)
    requires x.ev.msg.serverId == NO_IP || x.ev.msg.serverId == x.cfg.serverIp
    requires ip == if x.ev.msg.requested != NO_IP then x.ev.msg.requested else x.ev.msg.ciaddr
    ensures var cfg, mac, left := x.cfg, x.ev.msg.mac, Purge(s.leases, x.env.NowSec());
      Step(cfg, s, x.env, x.ev).1 == Ack(mac, ip) <==>
        && ip != NO_IP && ip != cfg.serverIp && (ip in left || |left| < cfg.cap)
        && (|| Binding(mac, ip, true) in cfg.bindings
            || (&& HostOrder(cfg.rangeStart) <= HostOrder(ip) <= HostOrder(cfg.rangeEnd)
                && if ip in left then left[ip].mac == mac
                   else && !IsDeclined(s.declined, ip, x.env.nowMs)
                        && (x.env.probe(ip) == None || x.env.probe(ip) == Some(mac))))
  {
    hide ClientAllowed, IsDeclined, HostOrder;
    var left := Purge(s.leases, x.env.NowSec());
    BoundIsListed(x.cfg, x.ev.msg.mac, ip);
    PurgeTwice(s.leases, x.env.NowSec());
  }

  lemma {:induction false} BoundIsListed(cfg: Config, mac: Mac, ip: Ip)
    ensures Bound(cfg, mac, ip) <==> Binding(mac, ip, true) in cfg.bindings
  {
    if Bound(cfg, mac, ip) {
      var b :| b in cfg.bindings && b.enabled && b.ip == ip && b.mac == mac;
      assert b == Binding(mac, ip, true);
    }
  }

  /** Who is served: everyone while the switch is off or the table has no storage, else
      the listed computers and the clients of enabled bindings. */
  lemma {:induction false} AllowedExactlyWhen(cfg: Config, mac: Mac)
    ensures ClientAllowed(cfg, mac) <==>
      (cfg.allowOnly && cfg.allowed != None ==>
         mac in cfg.allowed.value || exists ip :: Binding(mac, ip, true) in cfg.bindings)
  {
    if b :| b in cfg.bindings && b.enabled && b.mac == mac { assert b == Binding(mac, b.ip, true); }
  }

  /** A REQUEST for another server is like no message; one for this server from an
      allowed client is always answered, to that client, and a NAK changes no entry. */
  lemma {:induction false} RequestIsAnswered(x: Input, s: State)
    requires Ready(s) && x.ev.Receive? && x.ev.msg.Request? && ClientAllowed(x.cfg, x.ev.msg.mac)
    ensures var (t, reply) := Step(x.cfg, s, x.env, x.ev);
      if x.ev.msg.serverId != NO_IP && x.ev.msg.serverId != x.cfg.serverIp then
        (t, reply) == Step(x.cfg, s, x.env, Timeout)
      else
        && (reply.Ack? || reply.Nak?) && reply.to == x.ev.msg.mac
        && (reply.Nak? ==> t.leases == Purge(s.leases, x.env.NowSec()))
  {
    hide MayAck, ClientAllowed;
    PurgeTwice(s.leases, x.env.NowSec());
  }

  lemma {:induction false} PurgeTwice(leases: Table, now: Sec)
    ensures Purge(Purge(leases, now), now) == Purge(leases, now)
  {
  }

  /** The one address a message is about: asked for, given up, or chosen for it. */
  ghost function Touched(x: Input, s: State): Ip
    requires x.ev.Receive?
  {
    match x.ev.msg
    case Discover(mac, requested, _) => OfferChoice(x.cfg, s, x.env, mac, requested)
    case Request(_, _, requested, ciaddr, _) => if requested != NO_IP then requested else ciaddr
    case Release(_, ciaddr) => ciaddr
    case Decline(_, requested) => requested
    case Other(_) => NO_IP
  }

  /** A turn removes what has expired and otherwise changes at most the entry of the
      one address its message is about. */
  lemma {:induction false} StepTouchesOneEntry(x: Input, s: State, a: Ip)
    requires Ready(s)
    requires x.ev.Receive? ==> a != Touched(x, s.(leases := Purge(s.leases, x.env.NowSec())))
    ensures var left, t := Purge(s.leases, x.env.NowSec()), NextState(x, s).leases;
      (a in t <==> a in left) && (a in left ==> t[a] == left[a])
  {
    hide OfferChoice, MayAck, ClientAllowed, Refuse;
    PurgeTwice(s.leases, x.env.NowSec());
  }

  /** The message of this turn, if any, is about another address. */
  ghost predicate Elsewhere(x: Input, s: State, ip: Ip) {
    x.ev.Receive? ==> Touched(x, s.(leases := Purge(s.leases, x.env.NowSec()))) != ip
  }

  lemma {:induction false} StaysFree(start: State, run: seq<Input>, from: nat, n: nat, ip: Ip)
    requires Ready(start) && from <= n <= |run| && ip !in StateAfter(start, run, from).leases
    requires forall i :: from <= i < n ==> Elsewhere(run[i], StateAfter(start, run, i), ip)
    ensures ip !in StateAfter(start, run, n).leases
  {
    hide Step, Touched;
    if from < n {
      StaysFree(start, run, from, n - 1, ip);
      StepTouchesOneEntry(run[n - 1], StateAfter(start, run, n - 1), ip);
    }
  }

  /** A RELEASE from any allowed client, the owner or not, frees the address, and it
      has no entry until a message is about it again. */
  lemma {:induction false} ReleasedStaysFree(start: State, run: seq<Input>, j: nat, n: nat)
    requires Ready(start) && j < n <= |run| && run[j].ev.Receive? && run[j].ev.msg.Release?
    requires ClientAllowed(run[j].cfg, run[j].ev.msg.mac)
    requires forall i :: j < i < n ==> Elsewhere(run[i], StateAfter(start, run, i), run[j].ev.msg.ciaddr)
    ensures run[j].ev.msg.ciaddr !in StateAfter(start, run, n).leases
  {
    hide Step, Touched, ClientAllowed;
    ReleaseFreesTheAddress(run[j], StateAfter(start, run, j));
    StaysFree(start, run, j + 1, n, run[j].ev.msg.ciaddr);
  }

  /** A released address has no entry, whoever released it. */
  lemma {:induction false} ReleaseFreesTheAddress(x: Input, s: State)
    requires Ready(s) && x.ev.Receive? && x.ev.msg.Release? && ClientAllowed(x.cfg, x.ev.msg.mac)
    ensures x.ev.msg.ciaddr !in NextState(x, s).leases
  {
  }

  // ----- Where entries come from

  /** An entry after a turn keeps its owner and expiry from before, or the message of
      an allowed client has just set it for that client. */
  lemma {:induction false} EntryOrigin(x: Input, s: State, ip: Ip)
    requires Ready(s) && ip in NextState(x, s).leases
    ensures var left, e := Purge(s.leases, x.env.NowSec()), NextState(x, s).leases[ip];
      || (ip in left && e.mac == left[ip].mac && e.expiry == left[ip].expiry)
      || (&& x.ev.Receive? && e.mac == x.ev.msg.mac && ClientAllowed(x.cfg, e.mac)
          && (|| e.expiry == Add32(x.env.NowSec(), OFFER_HOLD_SEC)
              || e.expiry == Add32(x.env.NowSec(), x.cfg.leaseTimeSec)))
  {
    hide OfferChoice, ClientAllowed, MayAck, Refuse, Add32;
  }

  // ----- Expiry stays bounded

  ghost predicate ExpiryWithin(s: State, limit: int) {
    forall ip :: ip in s.leases ==> s.leases[ip].expiry <= limit
  }

  lemma {:induction false} StepExpiry(x: Input, s: State, limit: int)
    requires Ready(s) && ClockFits(x) && ExpiryWithin(s, limit)
    requires x.env.NowSec() + Longest(x.cfg) <= limit
    ensures ExpiryWithin(NextState(x, s), limit)
  {
    hide Step, ClientAllowed;
    forall ip | ip in NextState(x, s).leases
      ensures NextState(x, s).leases[ip].expiry <= limit
    {
      EntryOrigin(x, s, ip);
    }
  }

  lemma {:induction false} SecMonotone(a: Env, b: Env)
    requires a.nowMs <= b.nowMs && b.nowMs / 1000 < 0x1_0000_0000
    ensures a.NowSec() <= b.NowSec() == b.nowMs / 1000
  {
  }

  ghost predicate LeaseRun(run: seq<Input>, longest: nat) {
    && GoodRun(run)
    && forall i :: 0 <= i < |run| ==> ClockFits(run[i]) && Longest(run[i].cfg) <= longest
  }

  /** No entry outlives the longest lifetime counted from the last step. */
  lemma {:induction false} RunExpiry(run: seq<Input>, longest: nat, n: nat)
    requires LeaseRun(run, longest) && 0 < n <= |run|
    ensures ExpiryWithin(StateAfter(START, run, n), run[n - 1].env.NowSec() + longest)
  {
    hide Step;
    var s := StateAfter(START, run, n - 1);
    var limit := run[n - 1].env.NowSec() + longest;
    if n > 1 {
      RunExpiry(run, longest, n - 1);
      SecMonotone(run[n - 2].env, run[n - 1].env);
    }
    assert ExpiryWithin(s, limit);
    StepExpiry(run[n - 1], s, limit);
  }

  // ----- A confirmed lease is kept

  /** Nothing in this step may take `ip` from `owner`. */
  ghost predicate LeavesAlone(x: Input, ip: Ip, owner: Mac) {
    && (forall mac: Mac :: Bound(x.cfg, mac, ip) ==> mac == owner)
    && (x.ev.Receive? ==> x.ev.msg != Release(x.ev.msg.mac, ip) && x.ev.msg != Decline(owner, ip))
  }

  /** The owner's REQUEST for its address. */
  predicate Renews(x: Input, ip: Ip, owner: Mac) {
    From(x, owner) && x.ev.msg.Request? &&
    ip == if x.ev.msg.requested != NO_IP then x.ev.msg.requested else x.ev.msg.ciaddr
  }

  /** From any state, a client keeps its address until the last minute of the expiry it
      was given, whatever other clients send and however the settings change, short
      of a RELEASE of the address, its own DECLINE, a binding for someone else, or a
      renewal under a lease time that ends earlier. */
  lemma {:induction false} ConfirmedLeaseIsKept(start: State, run: seq<Input>, from: nat, n: nat, ip: Ip)
    requires Ready(start) && from <= n <= |run| && ip in StateAfter(start, run, from).leases
    requires var lease := StateAfter(start, run, from).leases[ip];
      forall i :: from <= i < n ==>
        && LeavesAlone(run[i], ip, lease.mac) && lease.expiry > run[i].env.NowSec() + OFFER_HOLD_SEC
        && (Renews(run[i], ip, lease.mac) ==> Add32(run[i].env.NowSec(), run[i].cfg.leaseTimeSec) >= lease.expiry)
    ensures var lease, s := StateAfter(start, run, from).leases[ip], StateAfter(start, run, n);
      ip in s.leases && s.leases[ip].mac == lease.mac && s.leases[ip].expiry >= lease.expiry
  {
    hide Step, OwnedStep, LeavesAlone, Renews;
    if from < n {
      ConfirmedLeaseIsKept(start, run, from, n - 1, ip);
      var x, s := run[n - 1], StateAfter(start, run, n - 1);
      LeaseOwnership(x, s, ip);
      KeptByOne(x, s, ip, StateAfter(start, run, from).leases[ip]);
    }
  }

  lemma {:induction false} KeptByOne(x: Input, s: State, ip: Ip, lease: Lease)
    requires Ready(s) && ip in s.leases && OwnedStep(x, s, ip)
    requires s.leases[ip].mac == lease.mac && lease.expiry <= s.leases[ip].expiry
    requires LeavesAlone(x, ip, lease.mac) && lease.expiry > x.env.NowSec() + OFFER_HOLD_SEC
    requires Renews(x, ip, lease.mac) ==> Add32(x.env.NowSec(), x.cfg.leaseTimeSec) >= lease.expiry
    ensures var t := NextState(x, s);
      ip in t.leases && t.leases[ip].mac == lease.mac && t.leases[ip].expiry >= lease.expiry
  {
    hide Step, Bound;
    if x.ev.Receive? && x.ev.msg.Request? && ip in NextState(x, s).leases { RenewedBy(x, s, ip); }
  }

  /** An entry whose owner sent the message and whose expiry changed was renewed. */
  lemma {:induction false} RenewedBy(x: Input, s: State, ip: Ip)
    requires Ready(s) && ip in s.leases && ip in NextState(x, s).leases
    requires x.ev.Receive? && x.ev.msg.Request?
    ensures NextState(x, s).leases[ip] == s.leases[ip] || Renews(x, ip, x.ev.msg.mac)
  {
    hide MayAck, ClientAllowed;
  }

  /** With one lease time throughout, no renewal ends earlier. */
  lemma {:induction false} FixedLeaseTimeKeepsLeases(run: seq<Input>, longest: nat, from: nat, n: nat, ip: Ip)
    requires LeaseRun(run, longest) && 0 < from <= n <= |run|
    requires forall i :: 0 <= i < |run| ==> Longest(run[i].cfg) == longest
    requires ip in StateAfter(START, run, from).leases
    requires var lease := StateAfter(START, run, from).leases[ip];
      forall i :: from <= i < n ==>
        LeavesAlone(run[i], ip, lease.mac) && lease.expiry > run[i].env.NowSec() + OFFER_HOLD_SEC
    ensures var lease, s := StateAfter(START, run, from).leases[ip], StateAfter(START, run, n);
      ip in s.leases && s.leases[ip].mac == lease.mac && s.leases[ip].expiry >= lease.expiry
  {
    hide StateAfter, LeavesAlone, Renews;
    var lease := StateAfter(START, run, from).leases[ip];
    RunExpiry(run, longest, from);
    forall i | from <= i < n
      ensures Add32(run[i].env.NowSec(), run[i].cfg.leaseTimeSec) >= lease.expiry
    {
      SecMonotone(run[from - 1].env, run[i].env);
    }
    ConfirmedLeaseIsKept(START, run, from, n, ip);
  }

  // ----- The cap

  lemma {:induction false} PurgeShrinks(leases: Table, now: Sec)
    ensures |Purge(leases, now)| <= |leases|
  {
    var kept := Purge(leases, now);
    assert kept.Keys <= leases.Keys;
    SubsetCardinality(kept.Keys, leases.Keys);
  }

  lemma {:induction false} InsertGrowsByOne(leases: Table, ip: Ip, lease: Lease)
    ensures |leases[ip := lease]| == if ip in leases then |leases| else |leases| + 1
  {
  }

  lemma {:induction false} RemoveShrinks(leases: Table, ip: Ip)
    ensures |leases - {ip}| <= |leases|
  {
  }

  lemma {:induction false} MakeRoomCap(cfg: Config, s: State, ip: Ip, now: Sec, lease: Lease)
    requires |s.leases| <= cfg.cap
    ensures var (t, ok) := MakeRoom(cfg, s, ip, now);
      |t.leases| <= cfg.cap && (ok ==> |t.leases[ip := lease]| <= cfg.cap)
  {
    PurgeShrinks(s.leases, now);
    var (t, _) := MakeRoom(cfg, s, ip, now);
    InsertGrowsByOne(t.leases, ip, lease);
  }

  lemma {:induction false} ReserveCap(cfg: Config, s: State, mac: Mac, ip: Ip, name: string, now: Sec)
    requires |s.leases| <= cfg.cap
    ensures |Reserve(cfg, s, mac, ip, name, now).0.leases| <= cfg.cap
  {
    MakeRoomCap(cfg, s, ip, now, Lease(mac, Add32(now, OFFER_HOLD_SEC), name));
    if ip in s.leases { InsertGrowsByOne(s.leases, ip, s.leases[ip].(hostname := name)); }
  }

  lemma {:induction false} RequestCap(cfg: Config, s: State, env: Env, msg: Message)
    requires |s.leases| <= cfg.cap && msg.Request?
    ensures |OnRequest(cfg, s, env, msg.mac, msg.serverId, msg.requested, msg.ciaddr, msg.name).0.leases| <= cfg.cap
  {
    var ip := if msg.requested != NO_IP then msg.requested else msg.ciaddr;
    MakeRoomCap(cfg, s, ip, env.NowSec(), Lease(msg.mac, Add32(env.NowSec(), cfg.leaseTimeSec), msg.name));
    hide MakeRoom, MayAck;
  }

  lemma {:induction false} DeclineCap(cfg: Config, s: State, env: Env, mac: Mac, ip: Ip)
    requires |s.declined| == CAPACITY && |s.leases| <= cfg.cap
    ensures |OnDecline(s, env, mac, ip).leases| <= cfg.cap
  {
  }

  lemma {:induction false} HandleKeepsCap(cfg: Config, s: State, env: Env, msg: Message)
    requires |s.declined| == CAPACITY && |s.leases| <= cfg.cap
    ensures |Handle(cfg, s, env, msg).0.leases| <= cfg.cap
  {
    hide Reserve, OnRequest, OfferChoice, ClientAllowed, OnDecline;
    match msg
    case Discover(mac, requested, name) =>
      ReserveCap(cfg, s, mac, OfferChoice(cfg, s, env, mac, requested), name, env.NowSec());
    case Request(_, _, _, _, _) => RequestCap(cfg, s, env, msg);
    case Release(_, ciaddr) => RemoveShrinks(s.leases, ciaddr);
    case Decline(mac, requested) => DeclineCap(cfg, s, env, mac, requested);
    case Other(_) =>
  }

  lemma {:induction false} StepKeepsCap(x: Input, s: State)
    requires Ready(s) && |s.leases| <= x.cfg.cap
    ensures |NextState(x, s).leases| <= x.cfg.cap
  {
    hide Handle;
    PurgeShrinks(s.leases, x.env.NowSec());
    if x.ev.Receive? {
      HandleKeepsCap(x.cfg, s.(leases := Purge(s.leases, x.env.NowSec())), x.env, x.ev.msg);
    }
  }

  /** With one cap throughout, every reachable table respects it. */
  lemma {:induction false} CapHolds(run: seq<Input>, cap: nat, n: nat)
    requires n <= |run|
    requires forall i :: 0 <= i < n ==> run[i].cfg.cap == cap
    ensures |StateAfter(START, run, n).leases| <= cap
  {
    hide Step;
    if n > 0 {
      CapHolds(run, cap, n - 1);
      StepKeepsCap(run[n - 1], StateAfter(START, run, n - 1));
    }
  }

  /** The purged table refuses a new entry exactly when `cap` unexpired ones are left. */
  lemma {:induction false} RefusedOnlyWhenFull(cfg: Config, s: State, ip: Ip, now: Sec)
    ensures var (t, ok) := MakeRoom(cfg, s, ip, now);
      && (!ok <==> ip !in s.leases && |Purge(s.leases, now)| >= cfg.cap)
      && (!ok ==> t.leases == Purge(s.leases, now) && t.rejects == s.rejects + 1)
      && (ok ==> t.rejects == s.rejects)
      && (forall a :: a in s.leases && s.leases[a].expiry > now ==> a in t.leases && t.leases[a] == s.leases[a])
  {
    PurgeShrinks(s.leases, now);
  }

  const MIN_ENTRIES := 8
  const MAX_ENTRIES := 512

  function Clamp(limit: int): int {
    if limit < MIN_ENTRIES then MIN_ENTRIES else if limit > MAX_ENTRIES then MAX_ENTRIES else limit
  }

  /** The automatic limit for a pool of this many addresses, in 32-bit arithmetic. */
  function AutoLimit(pool: int, ordered: bool): int {
    Clamp((if ordered then pool % 0x1_0000_0000 else 0) * 2 % 0x1_0000_0000)
  }

  /** applyLeaseLimit; it compares the ends of the pool in wire order. */
  function EffectiveCap(configured: Sec, start: Ip, end: Ip): (cap: nat)
    ensures MIN_ENTRIES <= cap <= MAX_ENTRIES
  {
    if configured != 0 then Clamp(configured)
    else AutoLimit(PoolSize(start, end), WireOrder(end) > WireOrder(start))
  }

  /** A configured cap is kept between 8 and 512; without one the pool decides. */
  lemma {:induction false} ConfiguredCap(configured: Sec, start: Ip, end: Ip)
    requires configured != 0
    ensures var cap := EffectiveCap(configured, start, end);
      && (8 <= configured <= 512 ==> cap == configured)
      && (configured < 8 ==> cap == 8) && (configured > 512 ==> cap == 512)
  {
  }

  lemma {:induction false} SubnetIsOrdered(start: Ip, end: Ip)
    requires OneSubnet(start, end)
    ensures WireOrder(end) > WireOrder(start) <==> PoolSize(start, end) > 1
  {
  }

  /** "Twice the pool" is what the automatic cap is, if and only if the ends are
      ordered in wire order and twice the pool survives 32-bit arithmetic, up to the
      clamp, or the pool is too small for it to matter. */
  lemma {:induction false} AutoCapIsTwiceThePool(start: Ip, end: Ip)
    ensures var size := PoolSize(start, end);
      EffectiveCap(0, start, end) == Clamp(2 * size) <==>
        if WireOrder(end) > WireOrder(start) then
          || 0 <= size < 0x8000_0000 || 0x8000_0000 + 256 <= size < 0x1_0000_0000
          || (size < 0 && 2 * size % 0x1_0000_0000 <= MIN_ENTRIES)
        else 2 * size <= MIN_ENTRIES
    ensures OneSubnet(start, end) && start.d <= end.d ==> EffectiveCap(0, start, end) == Clamp(2 * PoolSize(start, end))
  {
    hide PoolSize, WireOrder, OneSubnet;
    SizeRange(start, end);
    if OneSubnet(start, end) { SubnetIsOrdered(start, end); }
    DoubledModulo(PoolSize(start, end));
  }

  lemma {:induction false} SizeRange(start: Ip, end: Ip)
    ensures -0x1_0000_0000 < PoolSize(start, end) <= 0x1_0000_0000
    ensures OneSubnet(start, end) && start.d <= end.d ==> 1 <= PoolSize(start, end) <= 256
  {
  }

  lemma {:induction false} DoubledModulo(n: int)
    requires -0x1_0000_0000 < n <= 0x1_0000_0000
    ensures n % 0x1_0000_0000 * 2 % 0x1_0000_0000 == 2 * n % 0x1_0000_0000
    ensures 0 <= n < 0x8000_0000 ==> 2 * n % 0x1_0000_0000 == 2 * n
    ensures 0x8000_0000 <= n < 0x1_0000_0000 ==> 2 * n % 0x1_0000_0000 == 2 * n - 0x1_0000_0000
    ensures n == 0x1_0000_0000 ==> 2 * n % 0x1_0000_0000 == 0
  {
  }

  /** A pool across two /24 networks gets the smallest cap. */
  lemma {:induction false} AutoCapAcrossSubnets()
    ensures var start, end := Ip(10, 0, 0, 200), Ip(10, 0, 1, 100);
      PoolSize(start, end) == 157 && EffectiveCap(0, start, end) == 8
  {
  }

  // ----- A refused client drains out

  /** A message from a refused client changes nothing and gets no answer. */
  lemma {:induction false} RefusedClientIsIgnored(x: Input, s: State, mac: Mac)
    requires Ready(s) && From(x, mac) && !ClientAllowed(x.cfg, mac)
    ensures Step(x.cfg, s, x.env, x.ev) == Step(x.cfg, s, x.env, Timeout)
    ensures Step(x.cfg, s, x.env, x.ev).1 == NoReply
  {
  }

  /** The run as if no refused client had sent anything. */
  ghost function Silenced(run: seq<Input>): (r: seq<Input>)
    ensures |r| == |run|
    ensures forall i :: 0 <= i < |run| ==>
      r[i] == if run[i].ev.Receive? && !ClientAllowed(run[i].cfg, run[i].ev.msg.mac) then run[i].(ev := Timeout)
              else run[i]
  {
    seq(|run|, i requires 0 <= i < |run| =>
      if run[i].ev.Receive? && !ClientAllowed(run[i].cfg, run[i].ev.msg.mac) then run[i].(ev := Timeout) else run[i])
  }

  /** Over whole runs the messages of refused clients make no difference to any state
      or any answer. */
  lemma {:induction false} RefusedClientsLeaveNoTrace(start: State, run: seq<Input>, n: nat)
    requires Ready(start) && n <= |run|
    ensures StateAfter(start, Silenced(run), n) == StateAfter(start, run, n)
    ensures n < |run| ==> ReplyAt(start, Silenced(run), n) == ReplyAt(start, run, n)
  {
    hide Step, ClientAllowed;
    if n > 0 { RefusedClientsLeaveNoTrace(start, run, n - 1); }
    if n > 0 && run[n - 1].ev.Receive? && !ClientAllowed(run[n - 1].cfg, run[n - 1].ev.msg.mac) {
      RefusedClientIsIgnored(run[n - 1], StateAfter(start, run, n - 1), run[n - 1].ev.msg.mac);
    }
    if n < |run| && run[n].ev.Receive? && !ClientAllowed(run[n].cfg, run[n].ev.msg.mac) {
      RefusedClientIsIgnored(run[n], StateAfter(start, run, n), run[n].ev.msg.mac);
    }
  }

  /** Nobody's message gives a refused client an entry or more time. */
  lemma {:induction false} RefusedClientGainsNothing(x: Input, s: State, mac: Mac, ip: Ip)
    requires Ready(s) && !ClientAllowed(x.cfg, mac)
    requires ip in NextState(x, s).leases && NextState(x, s).leases[ip].mac == mac
    ensures ip in s.leases && s.leases[ip].mac == mac && s.leases[ip].expiry == NextState(x, s).leases[ip].expiry
    ensures NextState(x, s).leases[ip].expiry > x.env.NowSec()
  {
    hide Step, ClientAllowed;
    EntryOrigin(x, s, ip);
  }

  lemma {:induction false} RefusedEntriesAreOld(run: seq<Input>, from: nat, n: nat, mac: Mac, ip: Ip)
    requires from <= n <= |run|
    requires forall i :: from <= i < n ==> !ClientAllowed(run[i].cfg, mac)
    requires ip in StateAfter(START, run, n).leases && StateAfter(START, run, n).leases[ip].mac == mac
    ensures var s, t := StateAfter(START, run, from), StateAfter(START, run, n);
      ip in s.leases && s.leases[ip].mac == mac && s.leases[ip].expiry == t.leases[ip].expiry
  {
    hide Step, ClientAllowed;
    if from < n {
      RefusedClientGainsNothing(run[n - 1], StateAfter(START, run, n - 1), mac, ip);
      RefusedEntriesAreOld(run, from, n - 1, mac, ip);
    }
  }

  ghost predicate NoEntryOf(s: State, mac: Mac) {
    forall ip :: ip in s.leases ==> s.leases[ip].mac != mac
  }

  /** Refused from step `from` on, a client has no entry left once the longest
      lifetime has passed and the table was purged. */
  lemma {:induction false} RefusedClientDrainsOut(run: seq<Input>, longest: nat, from: nat, n: nat, mac: Mac)
    requires LeaseRun(run, longest) && from <= n < |run|
    requires forall i :: from <= i <= n ==> !ClientAllowed(run[i].cfg, mac)
    requires from > 0 ==> run[n].env.nowMs / 1000 >= run[from - 1].env.nowMs / 1000 + longest
    ensures NoEntryOf(StateAfter(START, run, n + 1), mac)
  {
    hide Step, ClientAllowed;
    var s := StateAfter(START, run, n + 1);
    forall ip | ip in s.leases && s.leases[ip].mac == mac
      ensures false
    {
      RefusedEntriesAreOld(run, from, n + 1, mac, ip);
      RefusedClientGainsNothing(run[n], StateAfter(START, run, n), mac, ip);
      if from > 0 {
        RunExpiry(run, longest, from);
        SecMonotone(run[from - 1].env, run[n].env);
      }
    }
  }
}
