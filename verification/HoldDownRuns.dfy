/** Refused addresses over whole runs of the server. */
module HoldDownRuns {
  import opened Net
  import opened HoldDown
  import opened LeaseModel

  ghost predicate NoEnabledBinding(cfg: Config, ip: Ip) {
    forall b :: b in cfg.bindings && b.enabled ==> b.ip != ip
  }

  predicate Names(reply: Reply, ip: Ip) {
    (reply.Offer? || reply.Ack?) && reply.ip == ip
  }

  /** Only two places add an entry: an offer and an acknowledgement, each for the
      address it names. */
  lemma {:induction false} NewEntriesAreNamed(cfg: Config, s: State, env: Env, ev: Event, ip: Ip)
    requires |s.declined| == CAPACITY
    requires ip !in s.leases
    ensures var (t, reply) := Step(cfg, s, env, ev); ip in t.leases ==> Names(reply, ip)
  {
    hide OfferChoice, ClientAllowed, MayAck, Refuse;
  }

  lemma {:induction false} OfferAvoidsHeld(cfg: Config, s: State, env: Env, mac: Mac, requested: Ip, ip: Ip)
    requires ip !in s.leases && IsDeclined(s.declined, ip, env.nowMs) && NoEnabledBinding(cfg, ip) && ip != NO_IP
    ensures OfferChoice(cfg, s, env, mac, requested) != ip
  {
  }

  /** While its refusal is in force, an address outside the table stays outside,
      and no answer names it, whichever client asks and however. */
  lemma {:induction false} HeldAddressStaysOut(cfg: Config, s: State, env: Env, ev: Event, ip: Ip)
    requires |s.declined| == CAPACITY
    requires ip !in s.leases && IsDeclined(s.declined, ip, env.nowMs) && NoEnabledBinding(cfg, ip)
    ensures var (t, reply) := Step(cfg, s, env, ev); ip !in t.leases && !Names(reply, ip)
  {
    var p := s.(leases := Purge(s.leases, env.NowSec()));
    if ev.Receive? && ev.msg.Discover? && ip != NO_IP {
      OfferAvoidsHeld(cfg, p, env, ev.msg.mac, ev.msg.requested, ip);
    }
    NewEntriesAreNamed(cfg, s, env, ev, ip);
  }

  lemma {:induction false} HeldWhileInForce(s: State, run: seq<Input>, from: nat, n: nat, ip: Ip)
    requires from <= n < |run| && |s.declined| == CAPACITY
    requires ip !in StateAfter(s, run, from).leases
    requires forall i :: from <= i <= n ==>
      NoEnabledBinding(run[i].cfg, ip) && IsDeclined(StateAfter(s, run, i).declined, ip, run[i].env.nowMs)
    ensures ip !in StateAfter(s, run, n).leases && ip !in StateAfter(s, run, n + 1).leases
    ensures !Names(ReplyAt(s, run, n), ip)
  {
    hide Step, IsDeclined, NoEnabledBinding;
    if from < n { HeldWhileInForce(s, run, from, n - 1, ip); }
    var state := StateAfter(s, run, n);
    HeldAddressStaysOut(run[n].cfg, state, run[n].env, run[n].ev, ip);
  }

  // ----- The table of a run is the table of its refusals

  ghost predicate Refuses(x: Input) {
    x.ev.Receive? && x.ev.msg.Decline? && ClientAllowed(x.cfg, x.ev.msg.mac)
  }

  /** The refusals the first `n` steps accept. */
  ghost function Refusals(run: seq<Input>, n: nat): seq<Refusal>
    requires n <= |run|
  {
    if n == 0 then []
    else if Refuses(run[n - 1]) then
      Refusals(run, n - 1) + [Refusal(run[n - 1].ev.msg.requested, run[n - 1].env.nowMs)]
    else Refusals(run, n - 1)
  }

  /** Only an accepted refusal changes the hold-down table. */
  lemma {:induction false} StepDeclined(x: Input, s: State)
    requires |s.declined| == CAPACITY
    ensures Step(x.cfg, s, x.env, x.ev).0.declined ==
      if Refuses(x) then Refuse(s.declined, x.ev.msg.requested, x.env.nowMs) else s.declined
  {
  }

  lemma {:induction false} DeclinedIsHistory(run: seq<Input>, n: nat)
    requires n <= |run|
    ensures StateAfter(START, run, n).declined == TableAfter(Refusals(run, n))
  {
    hide Step, ClientAllowed, Refuse;
    if n > 0 {
      DeclinedIsHistory(run, n - 1);
      StepDeclined(run[n - 1], StateAfter(START, run, n - 1));
      var init := Refusals(run, n - 1);
      if Refuses(run[n - 1]) {
        AppendRefusal(init, Refusal(run[n - 1].ev.msg.requested, run[n - 1].env.nowMs));
      }
    }
  }

  lemma {:induction false} AppendRefusal(h: seq<Refusal>, last: Refusal)
    ensures TableAfter(h + [last]) == Refuse(TableAfter(h), last.ip, last.ms)
  {
  }

  lemma {:induction false} RefusalsOrdered(run: seq<Input>, n: nat)
    requires GoodRun(run) && n <= |run|
    ensures Ordered(Refusals(run, n))
    ensures forall i :: 0 <= i < |Refusals(run, n)| ==> n > 0 && Refusals(run, n)[i].ms <= run[n - 1].env.nowMs
  {
    if n > 0 { RefusalsOrdered(run, n - 1); }
  }

  lemma {:induction false} RefusalsGrow(run: seq<Input>, m: nat, n: nat)
    requires m <= n <= |run|
    ensures Refusals(run, m) <= Refusals(run, n)
  {
    if m < n { RefusalsGrow(run, m, n - 1); }
  }

  /** Step `j` accepts a refusal of `ip` that leaves no entry of it behind. */
  ghost predicate RefusedAt(run: seq<Input>, j: nat, ip: Ip)
    requires j < |run|
  {
    && Refuses(run[j]) && run[j].ev.msg.requested == ip
    && var left := Purge(StateAfter(START, run, j).leases, run[j].env.NowSec());
       ip in left ==> left[ip].mac == run[j].ev.msg.mac
  }

  lemma {:induction false} StillDeclined(run: seq<Input>, j: nat, n: nat, ip: Ip)
    requires GoodRun(run) && j < n < |run| && RefusedAt(run, j, ip)
    requires run[n].env.nowMs - run[j].env.nowMs < HOLD_MS
    requires |RefusedSince(Refusals(run, n), run[j].env.nowMs)| <= CAPACITY
    ensures IsDeclined(StateAfter(START, run, n).declined, ip, run[n].env.nowMs)
  {
    hide Step, IsDeclined, TableAfter;
    var h, es, now := Refusals(run, n), StateAfter(START, run, n).declined, run[n].env.nowMs;
    DeclinedIsHistory(run, n);
    RefusalsOrdered(run, n);
    RefusalsGrow(run, j + 1, n);
    var i := |Refusals(run, j)|;
    assert h[i] == Refusal(ip, run[j].env.nowMs);
    HeldForTheHour(h, i);
    var t: Ms :| Holds(es, ip, t) && h[i].ms <= t;
    TableIsSound(h);
    assert Refusal(ip, t) in h;
    assert t <= run[n - 1].env.nowMs <= now;
    DeclinedMeansHeld(es, ip, now);
  }

  lemma {:induction false} RefusalLeavesNoEntry(run: seq<Input>, j: nat, ip: Ip)
    requires j < |run| && RefusedAt(run, j, ip)
    ensures ip !in StateAfter(START, run, j + 1).leases
  {
  }

  lemma {:induction false} DeclinedUntil(run: seq<Input>, j: nat, i: nat, n: nat, ip: Ip)
    requires GoodRun(run) && j < i <= n < |run| && RefusedAt(run, j, ip)
    requires run[n].env.nowMs - run[j].env.nowMs < HOLD_MS
    requires |RefusedSince(Refusals(run, n), run[j].env.nowMs)| <= CAPACITY
    ensures IsDeclined(StateAfter(START, run, i).declined, ip, run[i].env.nowMs)
  {
    RefusalsGrow(run, i, n);
    var a, b := Refusals(run, i), Refusals(run, n);
    assert forall k :: 0 <= k < |a| ==> a[k] == b[k];
    SubsetCardinality(RefusedSince(a, run[j].env.nowMs), RefusedSince(b, run[j].env.nowMs));
    StillDeclined(run, j, i, ip);
  }

  /** The hold-down promise. Once a client refuses an address it holds or nobody
      holds, then for the next hour, as long as no enabled binding names it and at
      most 32 addresses are refused from that moment on, the table has no entry
      for it and no answer names it. */
  lemma {:induction false} RefusedAddressIsHeldDown(run: seq<Input>, j: nat, n: nat, ip: Ip)
    requires GoodRun(run) && j < n < |run| && RefusedAt(run, j, ip)
    requires run[n].env.nowMs - run[j].env.nowMs < HOLD_MS
    requires |RefusedSince(Refusals(run, n), run[j].env.nowMs)| <= CAPACITY
    requires forall i :: j < i <= n ==> NoEnabledBinding(run[i].cfg, ip)
    ensures ip !in StateAfter(START, run, n).leases && ip !in StateAfter(START, run, n + 1).leases
    ensures !Names(ReplyAt(START, run, n), ip)
  {
    hide Step, IsDeclined, StateAfter;
    RefusalLeavesNoEntry(run, j, ip);
    forall i | j < i <= n
      ensures IsDeclined(StateAfter(START, run, i).declined, ip, run[i].env.nowMs)
    {
      DeclinedUntil(run, j, i, n, ip);
    }
    HeldWhileInForce(START, run, j + 1, n, ip);
  }
}
