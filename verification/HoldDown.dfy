/** The hold-down table for refused addresses (src/dhcp/DeclinedAddresses.h). */
module HoldDown {
  import opened Net

  /** A `uint64_t` count of milliseconds. */
  type Ms = t: int | 0 <= t < 0x1_0000_0000_0000_0000

  const HOLD_MS: int := 3_600_000
  const CAPACITY: int := 32

  datatype Entry = Entry(ip: Ip, sinceMs: Ms, used: bool)

  /** The unsigned 64-bit difference `now - since`, wrapping like the source. */
  function Age(now: Ms, since: Ms): int {
    if now >= since then now - since else now - since + 0x1_0000_0000_0000_0000
  }

  /** The age is the difference of the clock values in 64-bit arithmetic. */
  lemma {:induction false} AgeIsModular(now: Ms, since: Ms)
    ensures Age(now, since) == (now - since) % 0x1_0000_0000_0000_0000
  {
  }

  predicate InForce(e: Entry, now: Ms) {
    e.used && Age(now, e.sinceMs) < HOLD_MS
  }

  /** At most one used entry per address. */
  ghost predicate Distinct(es: seq<Entry>) {
    forall i, j :: 0 <= i < j < |es| && es[i].used && es[j].used ==> es[i].ip != es[j].ip
  }

  function Expired(es: seq<Entry>, now: Ms): (r: seq<Entry>)
    ensures |r| == |es|
    ensures forall i :: 0 <= i < |es| ==>
      r[i] == if es[i].used && !InForce(es[i], now) then es[i].(used := false) else es[i]
  {
    seq(|es|, i requires 0 <= i < |es| =>
      if es[i].used && !InForce(es[i], now) then es[i].(used := false) else es[i])
  }

  /** The first used entry of `ip`, or `|es|`. */
  function IndexOf(es: seq<Entry>, ip: Ip): (i: nat)
    ensures i <= |es|
    ensures i < |es| ==> es[i].used && es[i].ip == ip
    ensures forall j :: 0 <= j < i ==> !(es[j].used && es[j].ip == ip)
  {
    if es == [] then 0
    else if es[0].used && es[0].ip == ip then 0
    else
      var i := IndexOf(es[1..], ip);
      assert forall j :: 1 <= j < 1 + i ==> es[j] == es[1..][j - 1];
      1 + i
  }

  /** The first unused entry, or `|es|`. */
  function FreeIndex(es: seq<Entry>): (i: nat)
    ensures i <= |es|
    ensures i < |es| ==> !es[i].used
    ensures forall j :: 0 <= j < i ==> es[j].used
  {
    if es == [] then 0
    else if !es[0].used then 0
    else
      var i := FreeIndex(es[1..]);
      assert forall j :: 1 <= j < 1 + i ==> es[j] == es[1..][j - 1];
      1 + i
  }

  /** The first entry with the least time among the first `n`. */
  function OldestUpTo(es: seq<Entry>, n: nat): (i: nat)
    requires 1 <= n <= |es|
    ensures i < n
    ensures forall j :: 0 <= j < n ==> es[i].sinceMs <= es[j].sinceMs
    ensures forall j :: 0 <= j < i ==> es[i].sinceMs < es[j].sinceMs
  {
    if n == 1 then 0
    else
      var i := OldestUpTo(es, n - 1);
      if es[n - 1].sinceMs < es[i].sinceMs then n - 1 else i
  }

  /** What one refusal makes of the table, as a value. */
  function Refuse(es: seq<Entry>, ip: Ip, now: Ms): (r: seq<Entry>)
    requires |es| == CAPACITY
    ensures |r| == CAPACITY
  {
    var live := Expired(es, now);
    var i, j := IndexOf(live, ip), FreeIndex(live);
    if i < |live| then live[i := live[i].(sinceMs := now)]
    else if j < |live| then live[j := Entry(ip, now, true)]
    else live[OldestUpTo(live, CAPACITY) := Entry(ip, now, true)]
  }

  /** The table has room for `ip`: it is held already, or an entry is free. */
  predicate HasRoom(es: seq<Entry>, ip: Ip, now: Ms)
    requires |es| == CAPACITY
  {
    var live := Expired(es, now);
    IndexOf(live, ip) < CAPACITY || FreeIndex(live) < CAPACITY
  }

  predicate IsDeclined(es: seq<Entry>, ip: Ip, now: Ms) {
    var i := IndexOf(es, ip);
    i < |es| && Age(now, es[i].sinceMs) < HOLD_MS
  }

  function Count(es: seq<Entry>, now: Ms): nat {
    if es == [] then 0
    else Count(es[..|es| - 1], now) + if InForce(es[|es| - 1], now) then 1 else 0
  }

  function EmptyTable(): (es: seq<Entry>)
    ensures |es| == CAPACITY && forall e :: e in es ==> !e.used
  {
    seq(CAPACITY, _ => Entry(NO_IP, 0, false))
  }

  /** The fixed array and its operations, each proved against the value above. */
  class DeclinedAddresses {
    const entries: array<Entry>

    ghost predicate Valid()
      reads this
    {
      entries.Length == CAPACITY
    }

    constructor ()
      ensures Valid() && fresh(entries)
      ensures entries[..] == EmptyTable()
    {
      entries := new Entry[CAPACITY](_ => Entry(NO_IP, 0, false));
      new;
      assert entries[..] == EmptyTable();
    }

    method Expire(now: Ms)
      requires Valid()
      modifies entries
      ensures entries[..] == Expired(old(entries[..]), now)
    {
      for i := 0 to CAPACITY
        invariant entries[..i] == Expired(old(entries[..]), now)[..i]
        invariant entries[i..] == old(entries[i..])
      {
        assert entries[i] == old(entries[i..])[0];
        if entries[i].used && Age(now, entries[i].sinceMs) >= HOLD_MS {
          entries[i] := entries[i].(used := false);
        }
      }
    }

    /** A repeat refusal refreshes its entry; a full table gives up its oldest
        entry and says so. */
    method Add(ip: Ip, now: Ms) returns (ok: bool)
      requires Valid()
      modifies entries
      ensures entries[..] == Refuse(old(entries[..]), ip, now)
      ensures ok == HasRoom(old(entries[..]), ip, now)
    {
      Expire(now);
      ghost var live := entries[..];
      for i := 0 to CAPACITY
        invariant entries[..] == live
        invariant i <= IndexOf(live, ip)
      {
        if entries[i].used && entries[i].ip == ip {
          entries[i] := entries[i].(sinceMs := now);
          return true;
        }
      }
      for i := 0 to CAPACITY
        invariant entries[..] == live
        invariant i <= FreeIndex(live)
      {
        if !entries[i].used {
          entries[i] := Entry(ip, now, true);
          return true;
        }
      }
      var oldest := 0;
      for i := 1 to CAPACITY
        invariant entries[..] == live
        invariant 0 <= oldest < i
        invariant oldest == OldestUpTo(live, i)
      {
        if entries[i].sinceMs < entries[oldest].sinceMs { oldest := i; }
      }
      entries[oldest] := Entry(ip, now, true);
      return false;
    }

    method Declined(ip: Ip, now: Ms) returns (r: bool)
      requires Valid()
      ensures r == IsDeclined(entries[..], ip, now)
    {
      for i := 0 to CAPACITY
        invariant i <= IndexOf(entries[..], ip)
      {
        if !entries[i].used || entries[i].ip != ip { continue; }
        return Age(now, entries[i].sinceMs) < HOLD_MS;
      }
      return false;
    }

    method CountInForce(now: Ms) returns (n: nat)
      requires Valid()
      ensures n == Count(entries[..], now)
    {
      n := 0;
      for i := 0 to CAPACITY
        invariant n == Count(entries[..i], now)
      {
        assert entries[..i + 1][..i] == entries[..i];
        if entries[i].used && Age(now, entries[i].sinceMs) < HOLD_MS { n := n + 1; }
      }
      assert entries[..CAPACITY] == entries[..];
    }

    method Clear()
      requires Valid()
      modifies entries
      ensures forall i :: 0 <= i < CAPACITY ==> entries[i] == old(entries[i]).(used := false)
    {
      for i := 0 to CAPACITY
        invariant forall j :: 0 <= j < i ==> entries[j] == old(entries[j]).(used := false)
        invariant forall j :: i <= j < CAPACITY ==> entries[j] == old(entries[j])
      {
        entries[i] := entries[i].(used := false);
      }
    }
  }

  // ----- One refusal, seen through the addresses the table holds

  /** The entry in force for `ip` since `t`. */
  ghost predicate Holds(es: seq<Entry>, ip: Ip, t: Ms) {
    Entry(ip, t, true) in es
  }

  lemma {:induction false} DeclinedMeansHeld(es: seq<Entry>, ip: Ip, now: Ms)
    requires Distinct(es)
    ensures IsDeclined(es, ip, now) <==> exists t: Ms :: Holds(es, ip, t) && Age(now, t) < HOLD_MS
  {
  }

  lemma {:induction false} ExpiredHolds(es: seq<Entry>, now: Ms, ip: Ip, t: Ms)
    ensures Holds(Expired(es, now), ip, t) <==> Holds(es, ip, t) && Age(now, t) < HOLD_MS
    ensures Distinct(es) ==> Distinct(Expired(es, now))
  {
  }

  /** Which entry a refusal overwrites. */
  function Target(live: seq<Entry>, ip: Ip): (k: nat)
    requires |live| == CAPACITY
    ensures k < CAPACITY
    ensures IndexOf(live, ip) < |live| ==> k == IndexOf(live, ip)
  {
    var i, j := IndexOf(live, ip), FreeIndex(live);
    if i < |live| then i else if j < |live| then j else OldestUpTo(live, CAPACITY)
  }

  lemma {:induction false} Overwrite(live: seq<Entry>, k: nat, ip: Ip, now: Ms, a: Ip, t: Ms)
    requires k < |live| && Distinct(live)
    requires forall m :: 0 <= m < |live| && m != k && live[m].used ==> live[m].ip != ip
    ensures var r := live[k := Entry(ip, now, true)];
      && Distinct(r) && Holds(r, ip, now)
      && (Holds(r, a, t) <==>
           if a == ip then t == now else Holds(live, a, t) && !(live[k].used && live[k].ip == a))
  {
    var r := live[k := Entry(ip, now, true)];
    assert r[k] == Entry(ip, now, true);
    if Holds(r, a, t) {
      var m :| 0 <= m < |r| && r[m] == Entry(a, t, true);
      if a != ip { assert m != k && live[m] == r[m]; }
    }
    if a != ip && Holds(live, a, t) && !(live[k].used && live[k].ip == a) {
      var m :| 0 <= m < |live| && live[m] == Entry(a, t, true);
      assert r[m] == live[m];
    }
  }

  /** A refusal holds `ip` since now and nothing else of it; every other entry in
      force stays, except the overwritten one. */
  lemma {:induction false} RefuseHolds(es: seq<Entry>, ip: Ip, now: Ms, a: Ip, t: Ms)
    requires |es| == CAPACITY && Distinct(es)
    ensures var r, live := Refuse(es, ip, now), Expired(es, now);
      var k := Target(live, ip);
      && Distinct(r) && Holds(r, ip, now)
      && (Holds(r, a, t) <==>
           if a == ip then t == now
           else Holds(es, a, t) && Age(now, t) < HOLD_MS && !(live[k].used && live[k].ip == a))
  {
    var live := Expired(es, now);
    var k := Target(live, ip);
    ExpiredHolds(es, now, a, t);
    assert Refuse(es, ip, now) == live[k := Entry(ip, now, true)];
    Overwrite(live, k, ip, now, a, t);
  }

  /** With room, no other refusal in force is forgotten. */
  lemma {:induction false} RefuseWithRoom(es: seq<Entry>, ip: Ip, now: Ms, a: Ip, t: Ms)
    requires |es| == CAPACITY && Distinct(es) && HasRoom(es, ip, now)
    ensures Distinct(Refuse(es, ip, now))
    ensures Holds(Refuse(es, ip, now), a, t) <==>
      if a == ip then t == now else Holds(es, a, t) && Age(now, t) < HOLD_MS
  {
    RefuseHolds(es, ip, now, a, t);
  }

  /** Without room every entry is another address in force, and exactly one of
      them is forgotten: one that no entry is older than. */
  lemma {:induction false} FullTableForgetsOldest(es: seq<Entry>, ip: Ip, now: Ms) returns (oldest: Entry)
    requires |es| == CAPACITY && Distinct(es) && !HasRoom(es, ip, now)
    ensures forall i :: 0 <= i < CAPACITY ==> InForce(es[i], now) && es[i].ip != ip
    ensures oldest in es && forall i :: 0 <= i < CAPACITY ==> oldest.sinceMs <= es[i].sinceMs
    ensures forall a: Ip, t: Ms :: Holds(Refuse(es, ip, now), a, t) <==>
      if a == ip then t == now else Holds(es, a, t) && a != oldest.ip
  {
    var live := Expired(es, now);
    assert live == es by {
      forall m | 0 <= m < |es| ensures live[m] == es[m] { assert live[m].used; }
    }
    oldest := live[Target(live, ip)];
    forall a: Ip, t: Ms
      ensures Holds(Refuse(es, ip, now), a, t) <==>
        if a == ip then t == now else Holds(es, a, t) && a != oldest.ip
    {
      RefuseHolds(es, ip, now, a, t);
      ExpiredHolds(es, now, a, t);
    }
  }

  // ----- Agreement with the refusal history

  datatype Refusal = Refusal(ip: Ip, ms: Ms)

  ghost predicate Ordered(h: seq<Refusal>) {
    forall i, j :: 0 <= i <= j < |h| ==> h[i].ms <= h[j].ms
  }

  function TableAfter(h: seq<Refusal>): (es: seq<Entry>)
    ensures |es| == CAPACITY
  {
    if h == [] then EmptyTable()
    else
      var last := h[|h| - 1];
      Refuse(TableAfter(h[..|h| - 1]), last.ip, last.ms)
  }

  ghost predicate After(h: seq<Refusal>, now: Ms) {
    forall i :: 0 <= i < |h| ==> h[i].ms <= now
  }

  /** Some refusal of `ip` is less than an hour old. */
  ghost predicate RecentlyRefused(h: seq<Refusal>, ip: Ip, now: Ms) {
    exists i :: 0 <= i < |h| && h[i].ip == ip && now - h[i].ms < HOLD_MS
  }

  ghost function RecentSet(h: seq<Refusal>, now: Ms): set<Ip> {
    set i | 0 <= i < |h| && now - h[i].ms < HOLD_MS :: h[i].ip
  }

  /** No hour ending at a refusal saw more than 32 distinct addresses refused. */
  ghost predicate NeverCrowded(h: seq<Refusal>) {
    forall k :: 0 <= k < |h| ==> |RecentSet(h[..k + 1], h[k].ms)| <= CAPACITY
  }

  /** The table holds only last refusals, and never one that did not happen. */
  ghost predicate Sound(es: seq<Entry>, h: seq<Refusal>) {
    && Distinct(es)
    && forall ip: Ip, t: Ms :: Holds(es, ip, t) ==>
         Refusal(ip, t) in h && forall i :: 0 <= i < |h| && h[i].ip == ip ==> h[i].ms <= t
  }

  lemma {:induction false} TableIsSound(h: seq<Refusal>)
    requires Ordered(h)
    ensures Sound(TableAfter(h), h)
  {
    if h != [] {
      var init, last := h[..|h| - 1], h[|h| - 1];
      TableIsSound(init);
      var es := TableAfter(init);
      assert h == init + [last];
      RefuseHolds(es, last.ip, last.ms, last.ip, last.ms);
      forall ip: Ip, t: Ms | Holds(TableAfter(h), ip, t)
        ensures Refusal(ip, t) in h && forall i :: 0 <= i < |h| && h[i].ip == ip ==> h[i].ms <= t
      {
        RefuseHolds(es, last.ip, last.ms, ip, t);
        if ip == last.ip {
          assert last in h;
        } else {
          assert Holds(es, ip, t);
          assert Refusal(ip, t) in init;
          forall i | 0 <= i < |h| && h[i].ip == ip ensures h[i].ms <= t { assert init[i] == h[i]; }
        }
      }
    }
  }

  ghost predicate HeldSince(es: seq<Entry>, ip: Ip, ms: Ms) {
    exists t: Ms :: Holds(es, ip, t) && ms <= t
  }

  /** Every refusal less than an hour old is held. */
  ghost predicate Complete(es: seq<Entry>, h: seq<Refusal>, now: Ms) {
    forall i :: 0 <= i < |h| && now - h[i].ms < HOLD_MS ==> HeldSince(es, h[i].ip, h[i].ms)
  }

  /** The addresses whose entry is in force. */
  ghost function HeldIps(es: seq<Entry>, now: Ms): set<Ip> {
    set i | 0 <= i < |es| && InForce(es[i], now) :: es[i].ip
  }

  lemma {:induction false} HeldIpsAppend(es: seq<Entry>, e: Entry, now: Ms)
    ensures HeldIps(es + [e], now) == HeldIps(es, now) + if InForce(e, now) then {e.ip} else {}
  {
    var all := es + [e];
    assert all[|es|] == e && forall i :: 0 <= i < |es| ==> all[i] == es[i];
  }

  lemma {:induction false} LastIsNew(es: seq<Entry>, e: Entry, now: Ms)
    requires Distinct(es + [e]) && InForce(e, now)
    ensures e.ip !in HeldIps(es, now)
  {
    var all := es + [e];
    assert all[|es|] == e && forall i :: 0 <= i < |es| ==> all[i] == es[i];
  }

  /** Distinct used entries name as many addresses as there are entries in force. */
  lemma {:induction false} CountIsCardinality(es: seq<Entry>, now: Ms)
    requires Distinct(es)
    ensures Count(es, now) == |HeldIps(es, now)|
  {
    if es != [] {
      hide HeldIps, InForce;
      var init, e := es[..|es| - 1], es[|es| - 1];
      assert es == init + [e];
      CountIsCardinality(init, now);
      HeldIpsAppend(init, e, now);
      if InForce(e, now) { LastIsNew(init, e, now); }
    }
  }

  lemma {:induction false} FullCount(es: seq<Entry>, now: Ms)
    requires forall i :: 0 <= i < |es| ==> InForce(es[i], now)
    ensures Count(es, now) == |es|
  {
    if es != [] { FullCount(es[..|es| - 1], now); }
  }

  lemma {:induction false} CountAtMostLength(es: seq<Entry>, now: Ms)
    ensures Count(es, now) <= |es|
  {
    if es != [] { CountAtMostLength(es[..|es| - 1], now); }
  }

  lemma {:induction false} SubsetCardinality<T>(a: set<T>, b: set<T>)
    requires a <= b
    ensures |a| <= |b|
  {
    assert b == a + (b - a);
  }

  /** The distinct addresses refused at `since` or later. */
  ghost function RefusedSince(h: seq<Refusal>, since: Ms): set<Ip> {
    set i | 0 <= i < |h| && since <= h[i].ms :: h[i].ip
  }

  /** A table full of other addresses, none older than `since`, plus one more
      refusal make more addresses than the table has entries. */
  lemma {:induction false} CrowdedWhenFull(es: seq<Entry>, init: seq<Refusal>, last: Refusal, since: Ms)
    requires |es| == CAPACITY && Sound(es, init) && since <= last.ms
    requires forall i :: 0 <= i < CAPACITY ==>
      InForce(es[i], last.ms) && es[i].ip != last.ip && since <= es[i].sinceMs
    ensures |RefusedSince(init + [last], since)| > CAPACITY
  {
    var h := init + [last];
    var held := HeldIps(es, last.ms);
    CountIsCardinality(es, last.ms);
    FullCount(es, last.ms);
    var recent := RefusedSince(h, since);
    forall a | a in held
      ensures a in recent
    {
      var i :| 0 <= i < |es| && InForce(es[i], last.ms) && es[i].ip == a;
      assert Holds(es, a, es[i].sinceMs);
      var j :| 0 <= j < |init| && init[j] == Refusal(a, es[i].sinceMs);
      assert h[j] == init[j];
    }
    assert h[|init|] == last && last.ip in recent;
    assert last.ip !in held;
    SubsetCardinality(held + {last.ip}, recent);
  }

  /** The next refusal keeps what is held since `ms`, unless that makes too many. */
  lemma {:induction false} RefuseKeepsHeld(es: seq<Entry>, h: seq<Refusal>, last: Refusal, ip: Ip, ms: Ms)
    requires |es| == CAPACITY && Sound(es, h) && After(h, last.ms)
    requires HeldSince(es, ip, ms) && ip != last.ip && last.ms - ms < HOLD_MS && ms <= last.ms
    requires |RefusedSince(h + [last], ms)| <= CAPACITY
    ensures HeldSince(Refuse(es, last.ip, last.ms), ip, ms)
  {
    var t: Ms :| Holds(es, ip, t) && ms <= t;
    assert Refusal(ip, t) in h;
    if HasRoom(es, last.ip, last.ms) {
      RefuseWithRoom(es, last.ip, last.ms, ip, t);
    } else {
      var oldest := FullTableForgetsOldest(es, last.ip, last.ms);
      if oldest.ip == ip {
        var i :| 0 <= i < |es| && es[i] == oldest;
        var j :| 0 <= j < |es| && es[j] == Entry(ip, t, true);
        assert i == j;
        CrowdedWhenFull(es, h, last, ms);
        assert false;
      }
      assert Holds(Refuse(es, last.ip, last.ms), ip, t);
    }
  }

  /** A refused address is held for the whole hour, as long as no more addresses
      than the table has entries were refused since then. */
  lemma {:induction false} HeldForTheHour(h: seq<Refusal>, i: nat)
    requires Ordered(h) && i < |h| && h[|h| - 1].ms - h[i].ms < HOLD_MS
    requires |RefusedSince(h, h[i].ms)| <= CAPACITY
    ensures HeldSince(TableAfter(h), h[i].ip, h[i].ms)
  {
    var init, last := h[..|h| - 1], h[|h| - 1];
    assert h == init + [last];
    TableIsSound(init);
    var es := TableAfter(init);
    if h[i].ip == last.ip {
      RefuseHolds(es, last.ip, last.ms, last.ip, last.ms);
      assert Holds(TableAfter(h), h[i].ip, last.ms) && h[i].ms <= last.ms;
    } else {
      assert init[i] == h[i];
      assert RefusedSince(init, h[i].ms) <= RefusedSince(h, h[i].ms) by {
        assert forall j :: 0 <= j < |init| ==> init[j] == h[j];
      }
      SubsetCardinality(RefusedSince(init, h[i].ms), RefusedSince(h, h[i].ms));
      HeldForTheHour(init, i);
      RefuseKeepsHeld(es, init, last, h[i].ip, h[i].ms);
    }
  }

  lemma {:induction false} CrowdedPrefix(h: seq<Refusal>, n: nat)
    requires NeverCrowded(h) && n <= |h|
    ensures NeverCrowded(h[..n])
  {
    forall k | 0 <= k < n ensures |RecentSet(h[..n][..k + 1], h[..n][k].ms)| <= CAPACITY {
      assert h[..n][..k + 1] == h[..k + 1];
    }
  }

  lemma {:induction false} TableIsComplete(h: seq<Refusal>, now: Ms)
    requires Ordered(h) && NeverCrowded(h) && After(h, now)
    ensures Complete(TableAfter(h), h, now)
  {
    forall i | 0 <= i < |h| && now - h[i].ms < HOLD_MS
      ensures HeldSince(TableAfter(h), h[i].ip, h[i].ms)
    {
      var last := h[|h| - 1];
      assert h[..|h|] == h;
      assert RefusedSince(h, h[i].ms) <= RecentSet(h, last.ms);
      SubsetCardinality(RefusedSince(h, h[i].ms), RecentSet(h, last.ms));
      HeldForTheHour(h, i);
    }
  }

  /** Whatever happened, the table never holds down an address nobody refused
      within the hour. */
  lemma {:induction false} DeclinedOnlyIfRefused(h: seq<Refusal>, ip: Ip, now: Ms)
    requires Ordered(h) && After(h, now)
    requires IsDeclined(TableAfter(h), ip, now)
    ensures RecentlyRefused(h, ip, now)
  {
    TableIsSound(h);
    DeclinedMeansHeld(TableAfter(h), ip, now);
    var t: Ms :| Holds(TableAfter(h), ip, t) && Age(now, t) < HOLD_MS;
    var i :| 0 <= i < |h| && h[i] == Refusal(ip, t);
  }

  lemma {:induction false} RefusedIsDeclined(es: seq<Entry>, h: seq<Refusal>, ip: Ip, now: Ms)
    requires After(h, now) && Sound(es, h)
    requires Complete(es, h, now) && RecentlyRefused(h, ip, now)
    ensures IsDeclined(es, ip, now)
  {
  }

  lemma {:induction false} InForceIsDeclined(es: seq<Entry>, ip: Ip, now: Ms)
    requires Distinct(es)
    ensures IsDeclined(es, ip, now) <==> exists i :: 0 <= i < |es| && InForce(es[i], now) && es[i].ip == ip
  {
  }

  /** While no hour is crowded, the table answers exactly as the history does. */
  lemma {:induction false} AgreesWithHistory(h: seq<Refusal>, ip: Ip, now: Ms)
    requires Ordered(h) && NeverCrowded(h) && After(h, now)
    ensures IsDeclined(TableAfter(h), ip, now) <==> RecentlyRefused(h, ip, now)
    ensures Count(TableAfter(h), now) == |RecentSet(h, now)|
  {
    var es := TableAfter(h);
    TableIsSound(h);
    TableIsComplete(h, now);
    forall a: Ip
      ensures IsDeclined(es, a, now) <==> RecentlyRefused(h, a, now)
    {
      if IsDeclined(es, a, now) { DeclinedOnlyIfRefused(h, a, now); }
      if RecentlyRefused(h, a, now) { RefusedIsDeclined(es, h, a, now); }
    }
    CountIsCardinality(es, now);
    var held := HeldIps(es, now);
    forall a: Ip
      ensures a in held <==> a in RecentSet(h, now)
    {
      InForceIsDeclined(es, a, now);
      assert a in RecentSet(h, now) <==> RecentlyRefused(h, a, now);
    }
    assert held == RecentSet(h, now);
  }

  ghost predicate AgreesAt(h: seq<Refusal>, now: Ms) {
    forall ip: Ip :: IsDeclined(TableAfter(h), ip, now) <==> RecentlyRefused(h, ip, now)
  }

  ghost predicate AgreesThroughout(h: seq<Refusal>) {
    forall k :: 0 <= k < |h| ==> AgreesAt(h[..k + 1], h[k].ms)
  }

  /** The exact condition: the table is right after every refusal of a run if and
      only if no hour refuses more addresses than the table has entries. */
  lemma {:induction false} AgreesExactlyWhenNeverCrowded(h: seq<Refusal>)
    requires Ordered(h)
    ensures AgreesThroughout(h) <==> NeverCrowded(h)
  {
    forall k | 0 <= k < |h|
      ensures AgreesThroughout(h) ==> |RecentSet(h[..k + 1], h[k].ms)| <= CAPACITY
    {
      if AgreesThroughout(h) {
        var p, now := h[..k + 1], h[k].ms;
        assert AgreesAt(p, now);
        var es := TableAfter(p);
        TableIsSound(p);
        CountIsCardinality(es, now);
        CountAtMostLength(es, now);
        var held := HeldIps(es, now);
        forall a | a in RecentSet(p, now)
          ensures a in held
        {
          assert RecentlyRefused(p, a, now);
          var i := IndexOf(es, a);
          assert InForce(es[i], now);
        }
        SubsetCardinality(RecentSet(p, now), held);
      }
    }
    if NeverCrowded(h) {
      forall k | 0 <= k < |h|
        ensures AgreesAt(h[..k + 1], h[k].ms)
      {
        var p := h[..k + 1];
        CrowdedPrefix(h, k + 1);
        forall ip: Ip { AgreesWithHistory(p, ip, h[k].ms); }
      }
    }
  }
}
