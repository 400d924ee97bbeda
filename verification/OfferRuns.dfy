/** What a DISCOVER is offered and what becomes of the offer: in one turn, and up to
    the REQUEST that follows it. */
module OfferRuns {
  import opened Net
  import opened HoldDown
  import opened PoolScan
  import opened LeaseModel
  import opened LeaseRuns

  /** When a DISCOVER is offered the address it asks for. */
  predicate OffersRequested(x: Input, s: State)
    requires x.ev.Receive? && x.ev.msg.Discover?
  {
    MayOffer(x.cfg, s, x.env, x.ev.msg.mac, x.ev.msg.requested)
  }

  /** A client is offered the address it asks for if and only if that is one, and it is
      bound to it, or the address is not the server's, lies in the range, is not held
      down and does not answer. Else it is offered what is selected for it. */
  lemma {:induction false} RequestedChosenExactlyWhen(cfg: Config, s: State, env: Env, mac: Mac, requested: Ip)
    ensures OfferChoice(cfg, s, env, mac, requested) ==
      if && requested != NO_IP
         && (|| Binding(mac, requested, true) in cfg.bindings
             || (&& requested != cfg.serverIp
                 && HostOrder(cfg.rangeStart) <= HostOrder(requested) <= HostOrder(cfg.rangeEnd)
                 && !IsDeclined(s.declined, requested, env.nowMs) && env.probe(requested) == None))
      then requested else SelectIp(cfg, s, env, mac)
  {
    hide SelectIp, IsDeclined, HostOrder;
    BoundIsListed(cfg, mac, requested);
  }

  /** The answer to an allowed client's DISCOVER: an OFFER of the chosen address, if there
      is one and it has an entry or there is room for one. */
  lemma {:induction false} OfferedExactlyWhen(x: Input, s: State, ip: Ip)
    requires Ready(s) && x.ev.Receive? && x.ev.msg.Discover? && ClientAllowed(x.cfg, x.ev.msg.mac)
    ensures var p := s.(leases := Purge(s.leases, x.env.NowSec()));
      var Discover(mac, requested, _) := x.ev.msg;
      Step(x.cfg, s, x.env, x.ev).1 == Offer(mac, ip) <==>
        && ip == OfferChoice(x.cfg, p, x.env, mac, requested) && ip != NO_IP
        && (ip in p.leases || |p.leases| < x.cfg.cap)
  {
    hide OfferChoice, ClientAllowed, Reserve;
    var p := s.(leases := Purge(s.leases, x.env.NowSec()));
    var Discover(mac, requested, name) := x.ev.msg;
    PurgeTwice(s.leases, x.env.NowSec());
    var choice := OfferChoice(x.cfg, p, x.env, mac, requested);
    ReserveRefusesExactlyWhen(x.cfg, p, mac, choice, name, x.env.NowSec());
  }

  /** What an offer leaves in the table: an entry with more than the offer hold left stays,
      under the name the client gave, if any; else the address is reserved for the
      client for the offer hold. */
  lemma {:induction false} OfferWritesEntry(x: Input, s: State, ip: Ip)
    requires Ready(s) && x.ev.Receive? && x.ev.msg.Discover?
    requires Step(x.cfg, s, x.env, x.ev).1 == Offer(x.ev.msg.mac, ip)
    ensures var left, t := Purge(s.leases, x.env.NowSec()), NextState(x, s).leases;
      var Discover(mac, _, name) := x.ev.msg;
      var until := Add32(x.env.NowSec(), 60);
      ip in t && t[ip] ==
        if ip in left && left[ip].expiry > until then
          Lease(left[ip].mac, left[ip].expiry, if name == "" then left[ip].hostname else name)
        else Lease(mac, until, name)
  {
    hide OfferChoice, ClientAllowed, Add32;
  }

  // ----- Addresses that another client has

  /** An allowed client's DISCOVER, and an address in another client's unexpired entry. */
  ghost predicate AmongOthers(x: Input, s: State, ip: Ip) {
    && Ready(s) && x.ev.Receive? && x.ev.msg.Discover? && ClientAllowed(x.cfg, x.ev.msg.mac) && ip != NO_IP
    && ip in s.leases && s.leases[ip].expiry > x.env.NowSec() && s.leases[ip].mac != x.ev.msg.mac
  }

  lemma {:induction false} ChoiceAmongOthersEntries(x: Input, s: State, ip: Ip)
    requires x.ev.Receive? && x.ev.msg.Discover?
    requires ip in s.leases && s.leases[ip].mac != x.ev.msg.mac && ip != NO_IP
    ensures OfferChoice(x.cfg, s, x.env, x.ev.msg.mac, x.ev.msg.requested) == ip <==>
      x.ev.msg.requested == ip && OffersRequested(x, s)
  {
    hide MayOffer;
  }

  lemma {:induction false} SameOffer(x: Input, s: State, p: State)
    requires x.ev.Receive? && x.ev.msg.Discover? && p.declined == s.declined
    ensures OffersRequested(x, p) == OffersRequested(x, s)
  {
  }

  /** The reservation of an offer, and even a confirmed lease, does not keep the
      address from being offered to others: a client is offered an address of another
      client's unexpired entry if and only if it asks for it and the address is bound
      to it, or in the range, not held down and not answering. */
  lemma {:induction false} TakenAddressOfferedExactlyWhen(x: Input, s: State, ip: Ip)
    requires AmongOthers(x, s, ip)
    ensures Step(x.cfg, s, x.env, x.ev).1 == Offer(x.ev.msg.mac, ip) <==>
      && x.ev.msg.requested == ip
      && (|| Binding(x.ev.msg.mac, ip, true) in x.cfg.bindings
          || (&& ip != x.cfg.serverIp
              && HostOrder(x.cfg.rangeStart) <= HostOrder(ip) <= HostOrder(x.cfg.rangeEnd)
              && !IsDeclined(s.declined, ip, x.env.nowMs) && x.env.probe(ip) == None))
  {
    hide Step, ClientAllowed, OfferChoice, HostOrder, IsDeclined, InRange, Bound;
    OffersRequestedExactlyWhen(x, s);
    OfferedAmongOthers(x, s, ip);
  }

  lemma {:induction false} OffersRequestedExactlyWhen(x: Input, s: State)
    requires x.ev.Receive? && x.ev.msg.Discover?
    ensures var mac, ip := x.ev.msg.mac, x.ev.msg.requested;
      OffersRequested(x, s) <==>
        && ip != NO_IP
        && (|| Binding(mac, ip, true) in x.cfg.bindings
            || (&& ip != x.cfg.serverIp
                && HostOrder(x.cfg.rangeStart) <= HostOrder(ip) <= HostOrder(x.cfg.rangeEnd)
                && !IsDeclined(s.declined, ip, x.env.nowMs) && x.env.probe(ip) == None))
  {
    hide IsDeclined, HostOrder;
    BoundIsListed(x.cfg, x.ev.msg.mac, x.ev.msg.requested);
  }

  lemma {:induction false} OfferedAmongOthers(x: Input, s: State, ip: Ip)
    requires AmongOthers(x, s, ip)
    ensures Step(x.cfg, s, x.env, x.ev).1 == Offer(x.ev.msg.mac, ip) <==>
      x.ev.msg.requested == ip && OffersRequested(x, s)
  {
    hide OfferChoice, OffersRequested;
    var p := s.(leases := Purge(s.leases, x.env.NowSec()));
    ChoiceAmongOthersEntries(x, p, ip);
    SameOffer(x, s, p);
  }

  /** Such an offer takes the entry from its owner if and only if, besides, at most
      the offer hold is left of the entry. */
  lemma {:induction false} ReservationTakenOverExactlyWhen(x: Input, s: State, ip: Ip)
    requires AmongOthers(x, s, ip) && HoldFits(x)
    ensures ip in NextState(x, s).leases && NextState(x, s).leases[ip].mac == x.ev.msg.mac <==>
      && x.ev.msg.requested == ip && OffersRequested(x, s)
      && s.leases[ip].expiry <= x.env.NowSec() + OFFER_HOLD_SEC
  {
    hide OfferChoice, OffersRequested;
    var p := s.(leases := Purge(s.leases, x.env.NowSec()));
    ChoiceAmongOthersEntries(x, p, ip);
    SameOffer(x, s, p);
  }

  /** A quiet network, so many seconds after the start. */
  function At(seconds: Sec): Env { Env(1000 * seconds, _ => None, _ => false) }

  const HOME_POOL := Config(Ip(10, 0, 0, 1), Ip(10, 0, 0, 100), Ip(10, 0, 0, 200), 3600, [], 202, false, None)
  const QUIET := At(0)
  const ADDRESS := Ip(10, 0, 0, 150)

  lemma {:induction false} NothingDeclinedAtStart(ip: Ip, now: Ms)
    ensures !IsDeclined(START.declined, ip, now)
  {
  }

  /** On a quiet network everyone may be offered the address. */
  lemma {:induction false} AddressMayBeOffered(m: Mac, leases: Table, seconds: Sec)
    ensures MayOffer(HOME_POOL, START.(leases := leases), At(seconds), m, ADDRESS) && ClientAllowed(HOME_POOL, m)
  {
    hide IsDeclined;
    NothingDeclinedAtStart(ADDRESS, 1000 * seconds);
  }

  lemma {:induction false} FirstOffer(m: Mac)
    ensures Step(HOME_POOL, START, QUIET, Receive(Discover(m, ADDRESS, ""))) ==
      (START.(leases := map[ADDRESS := Lease(m, 60, "")]), Offer(m, ADDRESS))
  {
    hide MayOffer, ClientAllowed;
    AddressMayBeOffered(m, map[], 0);
    assert Purge(START.leases, 0) == map[];
    assert START.(leases := map[]) == START;
  }

  /** Two clients asking for one address within a minute are both offered it. */
  lemma {:induction false} TwoClientsOfferedOneAddress(m1: Mac, m2: Mac)
    requires m1 != m2
    ensures var (s, first) := Step(HOME_POOL, START, QUIET, Receive(Discover(m1, ADDRESS, "")));
      first == Offer(m1, ADDRESS) &&
      Step(HOME_POOL, s, QUIET, Receive(Discover(m2, ADDRESS, ""))).1 == Offer(m2, ADDRESS)
  {
    hide Step, MayOffer, ClientAllowed;
    FirstOffer(m1);
    var s := START.(leases := map[ADDRESS := Lease(m1, 60, "")]);
    AddressMayBeOffered(m2, s.leases, 0);
    OfferedAmongOthers(Input(HOME_POOL, QUIET, Receive(Discover(m2, ADDRESS, ""))), s, ADDRESS);
  }

  lemma {:induction false} FirstLeaseConfirmed(m: Mac)
    ensures Step(HOME_POOL, START, QUIET, Receive(Request(m, NO_IP, ADDRESS, NO_IP, ""))) ==
      (START.(leases := map[ADDRESS := Lease(m, 3600, "")]), Ack(m, ADDRESS))
  {
    hide IsDeclined, ClientAllowed;
    AddressMayBeOffered(m, map[], 0);
    NothingDeclinedAtStart(ADDRESS, 0);
    assert Purge(START.leases, 0) == map[];
  }

  /** A second client is offered an address that was just confirmed to the first for
      an hour. */
  lemma {:induction false} ConfirmedAddressIsOffered(m1: Mac, m2: Mac)
    requires m1 != m2
    ensures var (s, first) := Step(HOME_POOL, START, QUIET, Receive(Request(m1, NO_IP, ADDRESS, NO_IP, "")));
      && first == Ack(m1, ADDRESS) && ADDRESS in s.leases && s.leases[ADDRESS].expiry == 3600
      && Step(HOME_POOL, s, QUIET, Receive(Discover(m2, ADDRESS, ""))).1 == Offer(m2, ADDRESS)
  {
    hide Step, MayOffer, ClientAllowed;
    FirstLeaseConfirmed(m1);
    var s := START.(leases := map[ADDRESS := Lease(m1, 3600, "")]);
    AddressMayBeOffered(m2, s.leases, 0);
    OfferedAmongOthers(Input(HOME_POOL, QUIET, Receive(Discover(m2, ADDRESS, ""))), s, ADDRESS);
  }

  // ----- From OFFER to ACK

  lemma {:induction false} OfferLeavesEntry(x: Input, s: State)
    requires Ready(s) && HoldFits(x)
    requires x.ev.Receive? && x.ev.msg.Discover? && Step(x.cfg, s, x.env, x.ev).1.Offer?
    ensures var ip, t := Step(x.cfg, s, x.env, x.ev).1.ip, NextState(x, s);
      var left := Purge(s.leases, x.env.NowSec());
      && Step(x.cfg, s, x.env, x.ev).1.to == x.ev.msg.mac && ip != NO_IP
      && ip in t.leases && t.leases[ip].expiry >= x.env.NowSec() + OFFER_HOLD_SEC
      && t.leases[ip].mac ==
         if ip in left && left[ip].expiry > x.env.NowSec() + OFFER_HOLD_SEC then left[ip].mac else x.ev.msg.mac
  {
    hide OfferChoice, ClientAllowed;
  }

  /** An entry that no message is about stays as it is until it expires. */
  lemma {:induction false} EntryStays(start: State, run: seq<Input>, from: nat, n: nat, ip: Ip)
    requires Ready(start) && from <= n <= |run| && ip in StateAfter(start, run, from).leases
    requires forall i :: from <= i < n ==>
      && Elsewhere(run[i], StateAfter(start, run, i), ip)
      && StateAfter(start, run, from).leases[ip].expiry > run[i].env.NowSec()
    ensures var s, t := StateAfter(start, run, from), StateAfter(start, run, n);
      ip in t.leases && t.leases[ip] == s.leases[ip]
  {
    hide Step, Touched;
    if from < n {
      EntryStays(start, run, from, n - 1, ip);
      StepTouchesOneEntry(run[n - 1], StateAfter(start, run, n - 1), ip);
    }
  }

  /** What the server answers to a REQUEST for an address that has an entry. */
  lemma {:induction false} EntryDecidesAck(x: Input, s: State, ip: Ip)
    requires Ready(s) && x.ev.Receive? && Renews(x, ip, x.ev.msg.mac) && ip != NO_IP
    requires x.ev.msg.serverId == NO_IP || x.ev.msg.serverId == x.cfg.serverIp
    requires ip in s.leases && s.leases[ip].expiry > x.env.NowSec()
    ensures Step(x.cfg, s, x.env, x.ev).1 == Ack(x.ev.msg.mac, ip) <==>
      && ClientAllowed(x.cfg, x.ev.msg.mac) && ip != x.cfg.serverIp
      && (Bound(x.cfg, x.ev.msg.mac, ip) || (InRange(x.cfg, ip) && s.leases[ip].mac == x.ev.msg.mac))
  {
    hide ClientAllowed, IsDeclined, Bound, InRange;
  }

  /** An offer is honoured: when a client asks for the address it was offered in turn
      `j` while the offer holds, in a later turn `n` and with only messages about
      other addresses in between, the answer is an ACK if and only if the client is
      still allowed and bound to the address, or the address is in the range and no
      other client's entry had more than the offer hold left when it was offered. */
  lemma {:induction false} OfferIsHonouredExactlyWhen(start: State, run: seq<Input>, j: nat, n: nat, ip: Ip)
    requires Ready(start) && GoodRun(run) && j < n < |run| && HoldFits(run[j])
    requires run[j].ev.Receive? && run[j].ev.msg.Discover? && ReplyAt(start, run, j) == Offer(run[j].ev.msg.mac, ip)
    requires forall i :: j < i < n ==> Elsewhere(run[i], StateAfter(start, run, i), ip)
    requires run[n].env.nowMs / 1000 < run[j].env.nowMs / 1000 + OFFER_HOLD_SEC
    requires Renews(run[n], ip, run[j].ev.msg.mac)
    requires run[n].ev.msg.serverId == NO_IP || run[n].ev.msg.serverId == run[n].cfg.serverIp
    ensures var mac, cfg := run[j].ev.msg.mac, run[n].cfg;
      var left := Purge(StateAfter(start, run, j).leases, run[j].env.NowSec());
      ReplyAt(start, run, n) == Ack(mac, ip) <==>
        && ClientAllowed(cfg, mac) && ip != cfg.serverIp
        && (|| Bound(cfg, mac, ip)
            || (InRange(cfg, ip) &&
                (ip in left ==> left[ip].mac == mac || left[ip].expiry <= run[j].env.NowSec() + OFFER_HOLD_SEC)))
  {
    hide Step, Touched, ClientAllowed, Bound, InRange, Renews, Elsewhere;
    var s := StateAfter(start, run, j);
    OfferLeavesEntry(run[j], s);
    forall i | j < i <= n ensures run[j].env.NowSec() + OFFER_HOLD_SEC > run[i].env.NowSec() {
      assert run[i].env.nowMs <= run[n].env.nowMs;
      SecMonotone(run[i].env, run[n].env);
    }
    EntryStays(start, run, j + 1, n, ip);
    AnswerFrom(run[n], StateAfter(start, run, n), ip, run[j].ev.msg.mac);
  }

  lemma {:induction false} AnswerFrom(x: Input, s: State, ip: Ip, mac: Mac)
    requires Ready(s) && Renews(x, ip, mac) && ip != NO_IP
    requires x.ev.msg.serverId == NO_IP || x.ev.msg.serverId == x.cfg.serverIp
    requires ip in s.leases && s.leases[ip].expiry > x.env.NowSec()
    ensures Step(x.cfg, s, x.env, x.ev).1 == Ack(mac, ip) <==>
      && ClientAllowed(x.cfg, mac) && ip != x.cfg.serverIp
      && (Bound(x.cfg, mac, ip) || (InRange(x.cfg, ip) && s.leases[ip].mac == mac))
  {
    hide Step, ClientAllowed, Bound, InRange;
    EntryDecidesAck(x, s, ip);
  }

  // ----- One client for an acknowledged address

  /** An acknowledged REQUEST for this address from a client bound to it. */
  ghost predicate BoundRequest(x: Input, ip: Ip) {
    && x.ev.Receive? && Renews(x, ip, x.ev.msg.mac) && Bound(x.cfg, x.ev.msg.mac, ip)
    && ip != x.cfg.serverIp && (x.ev.msg.serverId == NO_IP || x.ev.msg.serverId == x.cfg.serverIp)
  }

  /** A DISCOVER for this address that may be offered it and finds at most the offer
      hold left of the entry. */
  ghost predicate TakesOver(x: Input, s: State, ip: Ip)
    requires ip in s.leases
  {
    && x.ev.Receive? && x.ev.msg.Discover? && x.ev.msg.requested == ip && OffersRequested(x, s)
    && s.leases[ip].expiry <= x.env.NowSec() + OFFER_HOLD_SEC
  }

  /** An unexpired entry passes to another client in a turn, if and only if an allowed
      other client takes it over by a DISCOVER or, bound to it, by a REQUEST. */
  lemma {:induction false} EntryChangesHandsExactlyWhen(x: Input, s: State, ip: Ip)
    requires Ready(s) && HoldFits(x) && ip != NO_IP && ip in s.leases && s.leases[ip].expiry > x.env.NowSec()
    ensures ip in NextState(x, s).leases && NextState(x, s).leases[ip].mac != s.leases[ip].mac <==>
      && x.ev.Receive? && x.ev.msg.mac != s.leases[ip].mac && ClientAllowed(x.cfg, x.ev.msg.mac)
      && (TakesOver(x, s, ip) || BoundRequest(x, ip))
  {
    hide Step, OffersRequested, ClientAllowed, Bound, InRange;
    var owner := s.leases[ip].mac;
    if ip in NextState(x, s).leases { EntryOrigin(x, s, ip); }
    if x.ev.Receive? && x.ev.msg.mac != owner && ClientAllowed(x.cfg, x.ev.msg.mac) {
      if x.ev.msg.Discover? {
        ReservationTakenOverExactlyWhen(x, s, ip);
      } else if x.ev.msg.Request? {
        RequestTakesEntry(x, s, ip);
      } else if ip in NextState(x, s).leases {
        OthersTakeNothing(x, s, ip);
      }
    }
  }

  lemma {:induction false} RequestTakesEntry(x: Input, s: State, ip: Ip)
    requires Ready(s) && x.ev.Receive? && x.ev.msg.Request? && ClientAllowed(x.cfg, x.ev.msg.mac) && ip != NO_IP
    requires ip in s.leases && s.leases[ip].expiry > x.env.NowSec() && s.leases[ip].mac != x.ev.msg.mac
    ensures ip in NextState(x, s).leases && NextState(x, s).leases[ip].mac == x.ev.msg.mac <==> BoundRequest(x, ip)
  {
    hide ClientAllowed, IsDeclined, Bound, InRange;
  }

  lemma {:induction false} OthersTakeNothing(x: Input, s: State, ip: Ip)
    requires Ready(s) && x.ev.Receive? && !x.ev.msg.Discover? && !x.ev.msg.Request?
    requires ip in s.leases && ip in NextState(x, s).leases
    ensures NextState(x, s).leases[ip].mac == s.leases[ip].mac
  {
    hide ClientAllowed, Refuse;
  }

  /** After an ACK of an address in turn `j` and until the last minute of that lease,
      every ACK of it goes to the same client, under what keeps a confirmed lease: no
      RELEASE of the address, no DECLINE by its owner, no binding for another client,
      no renewal under a lease time that ends earlier. */
  lemma {:induction false} AcknowledgedToOneClient(
    start: State, run: seq<Input>, j: nat, n: nat, ip: Ip, owner: Mac, other: Mac)
    requires Ready(start) && j < n < |run|
    requires ReplyAt(start, run, j) == Ack(owner, ip) && ReplyAt(start, run, n) == Ack(other, ip)
    requires var expiry := Add32(run[j].env.NowSec(), run[j].cfg.leaseTimeSec);
      forall i :: j < i <= n ==>
        && LeavesAlone(run[i], ip, owner) && expiry > run[i].env.NowSec() + OFFER_HOLD_SEC
        && (Renews(run[i], ip, owner) ==> Add32(run[i].env.NowSec(), run[i].cfg.leaseTimeSec) >= expiry)
    ensures other == owner
  {
    hide Step, Renews, InRange, IsDeclined, Bound;
    var s := StateAfter(start, run, n);
    AckNeedsOwnership(run[j], StateAfter(start, run, j));
    ConfirmedLeaseIsKept(start, run, j + 1, n, ip);
    AckNeedsOwnership(run[n], s);
    assert ip in Purge(s.leases, run[n].env.NowSec());
  }

  lemma {:induction false} StillThere(leases: Table, now: Sec)
    requires forall ip :: ip in leases ==> leases[ip].expiry > now
    ensures Purge(leases, now) == leases
  {
  }

  lemma {:induction false} AskedTakesOver(x: Input, s: State)
    requires Ready(s) && HoldFits(x) && x.ev.Receive? && x.ev.msg.Discover? && x.ev.msg.requested in s.leases
    requires ClientAllowed(x.cfg, x.ev.msg.mac) && OffersRequested(x, s) && Purge(s.leases, x.env.NowSec()) == s.leases
    requires s.leases[x.ev.msg.requested].expiry <= x.env.NowSec() + OFFER_HOLD_SEC
    ensures var Discover(mac, ip, name) := x.ev.msg;
      Step(x.cfg, s, x.env, x.ev) ==
        (s.(leases := s.leases[ip := Lease(mac, x.env.NowSec() + OFFER_HOLD_SEC, name)]), Offer(mac, ip))
  {
    hide Bound, InRange, IsDeclined, ClientAllowed, Purge;
    assert s.(leases := s.leases) == s;
  }

  lemma {:induction false} ReservedInLastMinute(m1: Mac, m2: Mac)
    requires m1 != m2
    ensures var s := START.(leases := map[ADDRESS := Lease(m1, 3600, "")]);
      Step(HOME_POOL, s, At(3560), Receive(Discover(m2, ADDRESS, ""))) ==
        (START.(leases := map[ADDRESS := Lease(m2, 3620, "")]), Offer(m2, ADDRESS))
  {
    hide Step, MayOffer, ClientAllowed, Purge;
    var s := START.(leases := map[ADDRESS := Lease(m1, 3600, "")]);
    AddressMayBeOffered(m2, s.leases, 3560);
    StillThere(s.leases, 3560);
    AskedTakesOver(Input(HOME_POOL, At(3560), Receive(Discover(m2, ADDRESS, ""))), s);
    assert s.leases[ADDRESS := Lease(m2, 3620, "")] == map[ADDRESS := Lease(m2, 3620, "")];
  }

  lemma {:induction false} ReservedIsAcknowledged(m2: Mac)
    ensures var s := START.(leases := map[ADDRESS := Lease(m2, 3620, "")]);
      Step(HOME_POOL, s, At(3570), Receive(Request(m2, NO_IP, ADDRESS, NO_IP, ""))).1 == Ack(m2, ADDRESS)
  {
    hide Step, ClientAllowed, IsDeclined;
    var s := START.(leases := map[ADDRESS := Lease(m2, 3620, "")]);
    AddressMayBeOffered(m2, s.leases, 0);
    EntryDecidesAck(Input(HOME_POOL, At(3570), Receive(Request(m2, NO_IP, ADDRESS, NO_IP, ""))), s, ADDRESS);
  }

  /** In the last minute it fails: an address acknowledged to the first client until
      3600 s is acknowledged to the second one at 3570 s. */
  lemma {:induction false} LastMinuteIsLost(m1: Mac, m2: Mac)
    requires m1 != m2
    ensures var run := [
        Input(HOME_POOL, At(0), Receive(Request(m1, NO_IP, ADDRESS, NO_IP, ""))),
        Input(HOME_POOL, At(3560), Receive(Discover(m2, ADDRESS, ""))),
        Input(HOME_POOL, At(3570), Receive(Request(m2, NO_IP, ADDRESS, NO_IP, "")))];
      && GoodRun(run) && ReplyAt(START, run, 0) == Ack(m1, ADDRESS)
      && StateAfter(START, run, 1).leases[ADDRESS].expiry == 3600
      && ReplyAt(START, run, 2) == Ack(m2, ADDRESS)
  {
    hide Step;
    FirstLeaseConfirmed(m1);
    ReservedInLastMinute(m1, m2);
    ReservedIsAcknowledged(m2);
  }

  // ----- Which address a client is given

  lemma {:induction false} BoundChoiceFinds(bindings: seq<Binding>, leases: Table, mac: Mac, ip: Ip)
    requires Binding(mac, ip, true) in bindings && ip !in leases
    ensures BoundChoice(bindings, leases, mac).Some?
  {
    if !(bindings[0].enabled && bindings[0].mac == mac && bindings[0].ip !in leases) {
      BoundChoiceFinds(bindings[1..], leases, mac, ip);
    }
  }

  /** Of several bindings that would do, the first one in the list is taken. */
  lemma {:induction false} FirstBindingIsTaken(bindings: seq<Binding>, leases: Table, mac: Mac, i: nat)
    requires i < |bindings| && bindings[i].enabled && bindings[i].mac == mac && bindings[i].ip !in leases
    requires forall j :: 0 <= j < i ==> !(bindings[j].enabled && bindings[j].mac == mac && bindings[j].ip !in leases)
    ensures BoundChoice(bindings, leases, mac) == Some(bindings[i].ip)
  {
    if i > 0 { FirstBindingIsTaken(bindings[1..], leases, mac, i - 1); }
  }

  lemma {:induction false} LeastWireOrder(ips: set<Ip>) returns (least: Ip)
    requires ips != {}
    ensures least in ips && forall ip :: ip in ips ==> WireOrder(least) <= WireOrder(ip)
    decreases |ips|
  {
    least :| least in ips;
    if ips != {least} {
      var rest := LeastWireOrder(ips - {least});
      if WireOrder(rest) < WireOrder(least) { least := rest; }
    }
  }

  /** The client is bound to an address that has no entry. */
  ghost predicate HasFreeBinding(cfg: Config, leases: Table, mac: Mac) {
    exists ip :: ip !in leases && Binding(mac, ip, true) in cfg.bindings
  }

  ghost predicate Owns(leases: Table, mac: Mac) {
    exists ip :: ip in leases && leases[ip].mac == mac
  }

  /** A free address of an enabled binding comes first; without one, a client with
      entries keeps an address of its own; only then is the pool searched. */
  lemma {:induction false} SelectIpPrefers(cfg: Config, s: State, env: Env, mac: Mac)
    ensures var r := SelectIp(cfg, s, env, mac);
      var bound, owns := HasFreeBinding(cfg, s.leases, mac), Owns(s.leases, mac);
      && (bound ==> r !in s.leases && Binding(mac, r, true) in cfg.bindings)
      && (bound <==> BoundChoice(cfg.bindings, s.leases, mac).Some?)
      && (!bound && owns ==>
            && r in s.leases && s.leases[r].mac == mac
            && forall ip :: ip in s.leases && s.leases[ip].mac == mac ==> WireOrder(r) <= WireOrder(ip))
      && (!bound && !owns ==> r == PoolStage(cfg, s, env) && (r != NO_IP ==> Free(cfg, s, env, r)))
  {
    hide Free, PoolStage;
    if ip :| ip !in s.leases && Binding(mac, ip, true) in cfg.bindings {
      BoundChoiceFinds(cfg.bindings, s.leases, mac, ip);
    }
    if ip :| ip in s.leases && s.leases[ip].mac == mac {
      var mine := set a | a in s.leases && s.leases[a].mac == mac;
      assert ip in mine;
      var least := LeastWireOrder(mine);
      assert IsFirstLease(s.leases, mac, least);
    }
  }

  // ----- The pool stage

  lemma {:induction false} ScanInSubnet(cfg: Config, s: State, env: Env, from: Ip)
    requires OneSubnet(from, cfg.rangeEnd)
    requires from != NO_IP && from.d <= cfg.rangeEnd.d + 1
    ensures var r := PoolChoice(cfg, s, env, from);
      && (r == NO_IP ==> forall d: Byte :: from.d <= d <= cfg.rangeEnd.d ==> !Free(cfg, s, env, from.(d := d)))
      && (r != NO_IP ==>
           && r == from.(d := r.d) && from.d <= r.d <= cfg.rangeEnd.d && Free(cfg, s, env, r)
           && forall d: Byte :: from.d <= d < r.d ==> !Free(cfg, s, env, from.(d := d)))
    decreases cfg.rangeEnd.d + 1 - from.d
  {
    hide Free;
    if from.d <= cfg.rangeEnd.d && !Free(cfg, s, env, from) {
      var next := Next(from);
      ScanInSubnet(cfg, s, env, next);
      assert from.(d := from.d) == from;
      assert forall d: Byte :: from.(d := d) == next.(d := d);
    }
  }

  lemma {:induction false} PoolOctets(start: Ip, end: Ip, ip: Ip)
    requires OneSubnet(start, end)
    ensures HostOrder(start) <= HostOrder(ip) <= HostOrder(end) <==>
      ip == start.(d := ip.d) && start.d <= ip.d <= end.d
  {
    if HostOrder(start) <= HostOrder(ip) <= HostOrder(end) {
      var p, q := Network(start), Network(ip);
      assert p * 0x100 <= q * 0x100 + ip.d && q * 0x100 <= p * 0x100 + 255;
      NetworkInjective(start, ip);
    }
  }

  lemma {:induction false} LastOctetOrder(x: Ip, y: Ip)
    requires x == y.(d := x.d)
    ensures HostOrder(x) < HostOrder(y) <==> x.d < y.d
  {
  }

  /** In a pool inside one /24 the pool stage picks the lowest address that is not
      the server's, not in the table, not held down and not answering, and answers
      "none" only when there is none. */
  lemma {:induction false} PoolChoiceIsLowestFree(cfg: Config, s: State, env: Env, ip: Ip)
    requires OneSubnet(cfg.rangeStart, cfg.rangeEnd)
    requires cfg.rangeStart.d <= cfg.rangeEnd.d && cfg.rangeStart != NO_IP
    ensures var r := PoolStage(cfg, s, env);
      && (r == NO_IP && HostOrder(cfg.rangeStart) <= HostOrder(ip) <= HostOrder(cfg.rangeEnd) ==>
            ip == cfg.serverIp || ip in s.leases || IsDeclined(s.declined, ip, env.nowMs) || env.poolInUse(ip))
      && (r != NO_IP ==>
           && HostOrder(cfg.rangeStart) <= HostOrder(r) <= HostOrder(cfg.rangeEnd)
           && r != cfg.serverIp && r !in s.leases && !IsDeclined(s.declined, r, env.nowMs) && !env.poolInUse(r)
           && (HostOrder(cfg.rangeStart) <= HostOrder(ip) < HostOrder(r) ==>
                 ip == cfg.serverIp || ip in s.leases || IsDeclined(s.declined, ip, env.nowMs) || env.poolInUse(ip)))
  {
    hide PoolStage, HostOrder, IsDeclined;
    LowestFree(cfg, s, env, ip);
  }

  lemma {:induction false} LowestFree(cfg: Config, s: State, env: Env, ip: Ip)
    requires OneSubnet(cfg.rangeStart, cfg.rangeEnd)
    requires cfg.rangeStart.d <= cfg.rangeEnd.d && cfg.rangeStart != NO_IP
    ensures var r := PoolStage(cfg, s, env);
      && (r == NO_IP && HostOrder(cfg.rangeStart) <= HostOrder(ip) <= HostOrder(cfg.rangeEnd) ==>
            !Free(cfg, s, env, ip))
      && (r != NO_IP ==>
           && HostOrder(cfg.rangeStart) <= HostOrder(r) <= HostOrder(cfg.rangeEnd) && Free(cfg, s, env, r)
           && (HostOrder(cfg.rangeStart) <= HostOrder(ip) < HostOrder(r) ==> !Free(cfg, s, env, ip)))
  {
    hide Free, PoolChoice, HostOrder;
    var r := PoolStage(cfg, s, env);
    ScanInSubnet(cfg, s, env, cfg.rangeStart);
    PoolOctets(cfg.rangeStart, cfg.rangeEnd, ip);
    PoolOctets(cfg.rangeStart, cfg.rangeEnd, r);
    if ip == r.(d := ip.d) { LastOctetOrder(ip, r); }
    if HostOrder(ip) < HostOrder(r) <= HostOrder(cfg.rangeEnd) { assert HostOrder(ip) <= HostOrder(cfg.rangeEnd); }
  }

  // ----- Which turns end

  /** A turn never ends if and only if an allowed client's DISCOVER asks for nothing it may
      be offered, the client has neither a free binding nor an entry, the pool ends in
      255.255.255.255, and no address at all is free. */
  lemma {:induction false} TurnRunsForeverExactlyWhen(x: Input, s: State)
    ensures !TurnEnds(x.cfg, s, x.env, x.ev) <==>
      && x.ev.Receive? && x.ev.msg.Discover? && ClientAllowed(x.cfg, x.ev.msg.mac)
      && var p := s.(leases := Purge(s.leases, x.env.NowSec()));
         && !MayOffer(x.cfg, p, x.env, x.ev.msg.mac, x.ev.msg.requested)
         && !HasFreeBinding(x.cfg, p.leases, x.ev.msg.mac) && !Owns(p.leases, x.ev.msg.mac)
         && x.cfg.rangeEnd == Ip(255, 255, 255, 255) && forall ip :: !Free(x.cfg, p, x.env, ip)
  {
    hide MayOffer, ClientAllowed, Free, HasFreeBinding, Owns, BoundChoice, Purge;
    if x.ev.Receive? {
      var p := s.(leases := Purge(s.leases, x.env.NowSec()));
      SelectIpPrefers(x.cfg, p, x.env, x.ev.msg.mac);
      OwnsAnEntry(p.leases, x.ev.msg.mac);
    }
  }

  lemma {:induction false} OwnsAnEntry(leases: Table, mac: Mac)
    ensures Owns(leases, mac) <==> FirstLease(leases, mac).Some?
  {
    if ip :| ip in leases && leases[ip].mac == mac {
      var mine := set a | a in leases && leases[a].mac == mac;
      assert ip in mine;
      var least := LeastWireOrder(mine);
      assert IsFirstLease(leases, mac, least);
    }
  }

  // ----- When a DISCOVER is not answered

  lemma {:induction false} NoneHasNoEntryAfter(x: Input, s: State)
    requires Ready(s) && NO_IP !in s.leases
    ensures NO_IP !in NextState(x, s).leases
  {
    hide OfferChoice, ClientAllowed, IsDeclined, Refuse;
  }

  /** No reachable table has an entry for "no address". */
  lemma {:induction false} NoneHasNoEntry(run: seq<Input>, n: nat)
    requires n <= |run|
    ensures NO_IP !in StateAfter(START, run, n).leases
  {
    hide Step;
    if n > 0 {
      NoneHasNoEntry(run, n - 1);
      NoneHasNoEntryAfter(run[n - 1], StateAfter(START, run, n - 1));
    }
  }

  lemma {:induction false} ReserveRefusesExactlyWhen(cfg: Config, s: State, mac: Mac, ip: Ip, name: string, now: Sec)
    requires Purge(s.leases, now) == s.leases
    ensures Reserve(cfg, s, mac, ip, name, now).1 <==> ip in s.leases || |s.leases| < cfg.cap
  {
    RefusedOnlyWhenFull(cfg, s, ip, now);
  }

  /** The loop finds nothing: no address it looks at is free, or it takes "no address",
      where it starts or, behind 255.255.255.255, goes around to. */
  ghost predicate PoolExhausted(cfg: Config, s: State, env: Env) {
    || (cfg.rangeStart == NO_IP && Free(cfg, s, env, NO_IP))
    || (if cfg.rangeEnd == LIMITED_BROADCAST then FreeOnlyBefore(cfg, s, env, cfg.rangeStart)
        else forall ip :: ip in Visits(cfg.rangeStart, cfg.rangeEnd) ==> !Free(cfg, s, env, ip))
  }

  /** From `from` up nothing is free; below it either "no address" is, or nothing. */
  ghost predicate FreeOnlyBefore(cfg: Config, s: State, env: Env, from: Ip) {
    && (forall ip :: HostOrder(from) <= HostOrder(ip) ==> !Free(cfg, s, env, ip))
    && (Free(cfg, s, env, NO_IP) || forall ip :: !Free(cfg, s, env, ip))
  }

  lemma {:induction false} FreeOnlyBeforeNext(cfg: Config, s: State, env: Env, from: Ip)
    requires from != LIMITED_BROADCAST && !Free(cfg, s, env, from)
    ensures FreeOnlyBefore(cfg, s, env, Next(from)) <==> FreeOnlyBefore(cfg, s, env, from)
  {
    hide Free, Next, HostOrder;
    forall ip | HostOrder(ip) == HostOrder(from) ensures ip == from {
      HostOrderInjective(ip, from);
    }
    assert forall ip :: HostOrder(from) <= HostOrder(ip) <==>
      HostOrder(ip) == HostOrder(from) || HostOrder(Next(from)) <= HostOrder(ip);
  }

  /** The loop around the whole address space, when it ends. */
  lemma {:induction false} ScanAround(cfg: Config, s: State, env: Env, from: Ip)
    requires cfg.rangeEnd == LIMITED_BROADCAST && ScanEnds(cfg, s, env)
    ensures PoolChoice(cfg, s, env, from) == NO_IP <==>
      FreeOnlyBefore(cfg, s, env, from) || (from == NO_IP && Free(cfg, s, env, NO_IP))
    decreases ScanLeft(cfg, s, env, from)
  {
    hide Free, WireOrder, Next, HostOrder, ScanLeft;
    NothingPastBroadcast(from);
    if !Free(cfg, s, env, from) {
      ScanLeftShrinks(cfg, s, env, from);
      ScanAround(cfg, s, env, Next(from));
      HostOrderRange(from);
      HostOrderRange(Next(from));
      if from == LIMITED_BROADCAST {
        AroundTheTop(cfg, s, env);
      } else {
        FreeOnlyBeforeNext(cfg, s, env, from);
        NextIsSome(from);
      }
    }
  }

  lemma {:induction false} NextIsSome(ip: Ip)
    requires ip != LIMITED_BROADCAST
    ensures Next(ip) != NO_IP
  {
  }

  lemma {:induction false} AroundTheTop(cfg: Config, s: State, env: Env)
    requires !Free(cfg, s, env, LIMITED_BROADCAST) && exists ip :: Free(cfg, s, env, ip)
    ensures Next(LIMITED_BROADCAST) == NO_IP
    ensures FreeOnlyBefore(cfg, s, env, LIMITED_BROADCAST) <==> Free(cfg, s, env, NO_IP)
    ensures !FreeOnlyBefore(cfg, s, env, NO_IP)
  {
    hide Free, HostOrder;
    forall ip ensures 0 == HostOrder(NO_IP) <= HostOrder(ip) <= HostOrder(LIMITED_BROADCAST)
      && (HostOrder(LIMITED_BROADCAST) <= HostOrder(ip) ==> ip == LIMITED_BROADCAST)
    {
      NoneIsFirst();
      HostOrderRange(ip);
      HostOrderRange(LIMITED_BROADCAST);
    }
  }

  lemma {:induction false} NoneIsFirst()
    ensures HostOrder(NO_IP) == 0
  {
  }

  lemma {:induction false} ScanFails(cfg: Config, s: State, env: Env, from: Ip)
    requires cfg.rangeEnd != LIMITED_BROADCAST
    ensures PoolChoice(cfg, s, env, from) == NO_IP <==>
      || (forall ip :: ip in Visits(from, cfg.rangeEnd) ==> !Free(cfg, s, env, ip))
      || (from == NO_IP && Free(cfg, s, env, NO_IP))
    decreases 0xFFFF_FFFF - HostOrder(from)
  {
    hide Free, WireOrder, Next, ScanLeft;
    if WireOrder(from) <= WireOrder(cfg.rangeEnd) {
      NextIsLater(from, cfg.rangeEnd);
      assert from in Visits(from, cfg.rangeEnd);
      if !Free(cfg, s, env, from) { ScanFails(cfg, s, env, Next(from)); }
    }
  }

  lemma {:induction false} PoolStageFails(cfg: Config, s: State, env: Env)
    ensures PoolStage(cfg, s, env) == NO_IP <==> PoolExhausted(cfg, s, env)
  {
    hide Free, PoolChoice, Visits, HostOrder;
    if cfg.rangeEnd != LIMITED_BROADCAST {
      ScanFails(cfg, s, env, cfg.rangeStart);
    } else if ScanEnds(cfg, s, env) {
      ScanAround(cfg, s, env, cfg.rangeStart);
    }
  }

  /** In a pool inside one /24 that means that no address of the pool is free. */
  lemma {:induction false} ExhaustedInOneNetwork(cfg: Config, s: State, env: Env)
    requires OneSubnet(cfg.rangeStart, cfg.rangeEnd)
    requires cfg.rangeStart.d <= cfg.rangeEnd.d && cfg.rangeStart != NO_IP
    ensures PoolExhausted(cfg, s, env) <==>
      forall ip :: HostOrder(cfg.rangeStart) <= HostOrder(ip) <= HostOrder(cfg.rangeEnd) ==> !Free(cfg, s, env, ip)
  {
    hide Free, HostOrder, PoolStage, PoolExhausted;
    PoolStageFails(cfg, s, env);
    if PoolStage(cfg, s, env) == NO_IP {
      forall ip | HostOrder(cfg.rangeStart) <= HostOrder(ip) <= HostOrder(cfg.rangeEnd)
        ensures !Free(cfg, s, env, ip)
      {
        LowestFree(cfg, s, env, ip);
      }
    } else {
      LowestFree(cfg, s, env, NO_IP);
    }
  }

  /** Nothing can be chosen for a client that is not offered what it asks for: its
      first free binding is for "no address", or it has neither a free binding nor an
      entry and the pool is exhausted. */
  ghost predicate NothingToOffer(cfg: Config, p: State, env: Env, mac: Mac) {
    if HasFreeBinding(cfg, p.leases, mac) then BoundChoice(cfg.bindings, p.leases, mac) == Some(NO_IP)
    else !Owns(p.leases, mac) && PoolExhausted(cfg, p, env)
  }

  /** What is offered needs a new entry. */
  ghost predicate NeedsNewEntry(cfg: Config, p: State, env: Env, mac: Mac, requested: Ip) {
    if MayOffer(cfg, p, env, mac, requested) then requested !in p.leases
    else HasFreeBinding(cfg, p.leases, mac) || !Owns(p.leases, mac)
  }

  lemma {:induction false} ChoiceIsNone(cfg: Config, p: State, env: Env, mac: Mac, requested: Ip)
    requires NO_IP !in p.leases
    ensures var ip := OfferChoice(cfg, p, env, mac, requested);
      && (ip == NO_IP <==> !MayOffer(cfg, p, env, mac, requested) && NothingToOffer(cfg, p, env, mac))
      && (ip != NO_IP ==> (ip !in p.leases <==> NeedsNewEntry(cfg, p, env, mac, requested)))
  {
    hide PoolStage, PoolExhausted, HasFreeBinding, Owns, IsDeclined, InRange, Bound;
    SelectIpPrefers(cfg, p, env, mac);
    PoolStageFails(cfg, p, env);
  }

  /** For any pool, an allowed client's DISCOVER goes unanswered if and only if nothing
      can be chosen for it, also because the scan never ends, or what is chosen needs a
      new entry and the cap of unexpired entries is reached. */
  lemma {:induction false} NoOfferExactlyWhen(x: Input, s: State)
    requires Ready(s) && x.ev.Receive? && x.ev.msg.Discover? && ClientAllowed(x.cfg, x.ev.msg.mac)
    requires NO_IP !in s.leases
    ensures var p := s.(leases := Purge(s.leases, x.env.NowSec()));
      var Discover(mac, requested, _) := x.ev.msg;
      Step(x.cfg, s, x.env, x.ev).1 == NoReply <==>
        || (!MayOffer(x.cfg, p, x.env, mac, requested) && NothingToOffer(x.cfg, p, x.env, mac))
        || (NeedsNewEntry(x.cfg, p, x.env, mac, requested) && |p.leases| >= x.cfg.cap)
  {
    hide MayOffer, NothingToOffer, NeedsNewEntry, OfferChoice, Reserve, Purge;
    var p := s.(leases := Purge(s.leases, x.env.NowSec()));
    var Discover(mac, requested, name) := x.ev.msg;
    NonePurged(s.leases, x.env.NowSec());
    PurgeTwice(s.leases, x.env.NowSec());
    ChoiceIsNone(x.cfg, p, x.env, mac, requested);
    ReserveRefusesExactlyWhen(x.cfg, p, mac, OfferChoice(x.cfg, p, x.env, mac, requested), name, x.env.NowSec());
  }

  lemma {:induction false} NonePurged(leases: Table, now: Sec)
    requires NO_IP !in leases
    ensures NO_IP !in Purge(leases, now)
  {
  }
}
