/** The allow-list hash table: open addressing with linear probing over 64 slots,
    two halves of which one is active (src/dhcp/DhcpAllowedList.cpp:151-257). */
module AllowTable {
  import opened Net
  import opened AllowText

  const SLOTS: nat := 64

  datatype Slot = Slot(mac: Mac, used: bool)

  const EMPTY_SLOT: Slot := Slot(Mac(0, 0, 0, 0, 0, 0), false)

  function EmptyTable(): (t: seq<Slot>)
    ensures |t| == SLOTS && forall i :: 0 <= i < SLOTS ==> t[i] == EMPTY_SLOT
  {
    seq(SLOTS, _ => EMPTY_SLOT)
  }

  /** One byte into the 32-bit FNV-1a hash: exclusive or, then the multiplication. */
  function FnvRound(h: bv32, b: Byte): bv32 {
    (h ^ b as bv32) * 16777619
  }

  function Fnv(bytes: seq<Byte>): bv32 {
    if bytes == [] then 2166136261 else FnvRound(Fnv(bytes[..|bytes| - 1]), bytes[|bytes| - 1])
  }

  function Octets(m: Mac): seq<Byte> { [m.b0, m.b1, m.b2, m.b3, m.b4, m.b5] }

  function HashMac(m: Mac): bv32 { Fnv(Octets(m)) }

  method HashOf(m: Mac) returns (h: bv32)
    ensures h == HashMac(m)
  {
    hide FnvRound;
    var mac := Octets(m);
    h := 2166136261;
    for i := 0 to 6
      invariant h == Fnv(mac[..i])
    {
      assert mac[..i + 1][..i] == mac[..i];
      h := FnvRound(h, mac[i]);
    }
    assert mac[..6] == mac;
  }

  /** The published hash of "foobar". */
  lemma {:induction false} HashOfFoobar()
    ensures HashMac(Mac(0x66, 0x6f, 0x6f, 0x62, 0x61, 0x72)) == 0xbf9cf968
  {
    hide Fnv;
    var text: seq<Byte> := [0x66, 0x6f, 0x6f, 0x62, 0x61, 0x72];
    FnvOfNothing(text);
    FnvStep(text, 0, 0x811c9dc5, 0xe30c2799);
    FnvStep(text, 1, 0xe30c2799, 0x6222e842);
    FnvStep(text, 2, 0x6222e842, 0xa9f37ed7);
    FnvStep(text, 3, 0xa9f37ed7, 0x3f5076ef);
    FnvStep(text, 4, 0x3f5076ef, 0x39aaa18a);
    FnvStep(text, 5, 0x39aaa18a, 0xbf9cf968);
    assert text[..6] == text;
  }

  lemma {:induction false} FnvOfNothing(bytes: seq<Byte>)
    ensures Fnv(bytes[..0]) == 0x811c9dc5
  {
  }

  lemma {:induction false} FnvStep(bytes: seq<Byte>, k: nat, before: bv32, after: bv32)
    requires k < |bytes| && Fnv(bytes[..k]) == before && FnvRound(before, bytes[k]) == after
    ensures Fnv(bytes[..k + 1]) == after
  {
    hide FnvRound;
    assert bytes[..k + 1][..k] == bytes[..k];
  }

  type Index = i: int | 0 <= i < SLOTS

  function Home(m: Mac): Index {
    (HashMac(m) & 63) as int % SLOTS
  }

  /** An address starts at the low six bits of its hash. */
  lemma {:induction false} HomeOfFoobar()
    ensures Home(Mac(0x66, 0x6f, 0x6f, 0x62, 0x61, 0x72)) == 0x28
  {
    hide HashMac;
    HashOfFoobar();
  }

  function NextSlot(i: Index): Index {
    if i == SLOTS - 1 then 0 else i + 1
  }

  // ----- Probing, for any starting slot

  /** Is `m` met within `left` probes from slot `i`, before an unused slot? */
  function Lookup(t: seq<Slot>, m: Mac, i: Index, left: nat): bool
    requires |t| == SLOTS
    decreases left
  {
    left > 0 && t[i].used && (t[i].mac == m || Lookup(t, m, NextSlot(i), left - 1))
  }

  /** Where an insertion of `m` goes. */
  datatype Place = At(slot: Index) | Duplicate | Full

  function FreePlace(t: seq<Slot>, m: Mac, i: Index, left: nat): Place
    requires |t| == SLOTS
    decreases left
  {
    if left == 0 then Full
    else if !t[i].used then At(i)
    else if t[i].mac == m then Duplicate
    else FreePlace(t, m, NextSlot(i), left - 1)
  }

  ghost predicate Stores(t: seq<Slot>, m: Mac) {
    Slot(m, true) in t
  }

  /** Every stored address is found by probing from its home, whatever the hash. */
  ghost predicate Reachable(t: seq<Slot>, home: Mac -> Index)
    requires |t| == SLOTS
  {
    forall m: Mac :: Stores(t, m) ==> Lookup(t, m, home(m), SLOTS)
  }

  lemma {:induction false} FoundIsStored(t: seq<Slot>, m: Mac, i: Index, left: nat)
    requires |t| == SLOTS && Lookup(t, m, i, left)
    ensures Stores(t, m)
    decreases left
  {
    if t[i].mac != m { FoundIsStored(t, m, NextSlot(i), left - 1); }
  }

  /** Filling an unused slot loses no address that was found. */
  lemma {:induction false} FillKeepsFound(t: seq<Slot>, m: Mac, i: Index, left: nat, k: Index, s: Slot)
    requires |t| == SLOTS && Lookup(t, m, i, left) && !t[k].used
    ensures Lookup(t[k := s], m, i, left)
    decreases left
  {
    if t[i].mac != m { FillKeepsFound(t, m, NextSlot(i), left - 1, k, s); }
  }

  lemma {:induction false} FilledIsFound(t: seq<Slot>, m: Mac, i: Index, left: nat)
    requires |t| == SLOTS && FreePlace(t, m, i, left).At?
    ensures var k := FreePlace(t, m, i, left).slot;
      !t[k].used && Lookup(t[k := Slot(m, true)], m, i, left)
    decreases left
  {
    if t[i].used { FilledIsFound(t, m, NextSlot(i), left - 1); }
  }

  lemma {:induction false} DuplicateIsStored(t: seq<Slot>, m: Mac, i: Index, left: nat)
    requires |t| == SLOTS
    ensures FreePlace(t, m, i, left) == Duplicate ==> Lookup(t, m, i, left)
    ensures FreePlace(t, m, i, left).At? ==> !Lookup(t, m, i, left)
    decreases left
  {
    if left > 0 && t[i].used && t[i].mac != m { DuplicateIsStored(t, m, NextSlot(i), left - 1); }
  }

  function Wrap(i: Index, d: nat): int {
    if i + d < SLOTS then i + d else i + d - SLOTS
  }

  lemma {:induction false} FullVisitsAll(t: seq<Slot>, m: Mac, i: Index, left: nat, d: nat)
    requires |t| == SLOTS && d < left <= SLOTS && FreePlace(t, m, i, left) == Full
    ensures t[Wrap(i, d)].used
    decreases left
  {
    if d > 0 {
      FullVisitsAll(t, m, NextSlot(i), left - 1, d - 1);
    }
  }

  /** A table with an unused slot is never full. */
  lemma {:induction false} NotFull(t: seq<Slot>, m: Mac, i: Index, k: Index)
    requires |t| == SLOTS && !t[k].used
    ensures FreePlace(t, m, i, SLOTS) != Full
  {
    if FreePlace(t, m, i, SLOTS) == Full {
      FullVisitsAll(t, m, i, SLOTS, if k >= i then k - i else k - i + SLOTS);
    }
  }

  // ----- Loading a list

  /** The addresses the enabled, readable entries name, in order. */
  function Wanted(list: seq<Computer>): seq<Mac> {
    if list == [] then []
    else
      var c := list[|list| - 1];
      Wanted(list[..|list| - 1]) +
        if c.enabled && ParseMac(c.mac).Some? then [ParseMac(c.mac).value] else []
  }

  function EnabledCount(list: seq<Computer>): nat {
    if list == [] then 0
    else EnabledCount(list[..|list| - 1]) + if list[|list| - 1].enabled then 1 else 0
  }

  /** First occurrences only. */
  function Dedup(ms: seq<Mac>): (r: seq<Mac>)
    ensures forall m :: m in r <==> m in ms
  {
    if ms == [] then []
    else
      var init, m := Dedup(ms[..|ms| - 1]), ms[|ms| - 1];
      assert ms == ms[..|ms| - 1] + [m];
      if m in init then init else init + [m]
  }

  /** The addresses a rebuild accepts: the first 25 distinct wanted ones. */
  function Accepted(list: seq<Computer>): seq<Mac> {
    var d := Dedup(Wanted(list));
    if |d| > MAX_ENTRIES then d[..MAX_ENTRIES] else d
  }

  ghost function UsedSlots(t: seq<Slot>): set<int> {
    set i | 0 <= i < |t| && t[i].used
  }

  /** The table holds exactly `ms`, one slot each, and all of them are found. */
  ghost predicate Holds(t: seq<Slot>, ms: seq<Mac>, home: Mac -> Index) {
    && |t| == SLOTS && Reachable(t, home)
    && (forall m: Mac :: Stores(t, m) <==> m in ms)
    && |UsedSlots(t)| == |ms|
  }

  lemma {:induction false} EmptyHoldsNothing(home: Mac -> Index)
    ensures Holds(EmptyTable(), [], home)
  {
  }

  ghost function Indices(n: nat): (r: set<int>)
    ensures |r| == n && forall i :: i in r <==> 0 <= i < n
  {
    if n == 0 then {} else Indices(n - 1) + {n - 1}
  }

  lemma {:induction false} SomeSlotUnused(t: seq<Slot>) returns (k: Index)
    requires |t| == SLOTS && |UsedSlots(t)| < SLOTS
    ensures !t[k].used
  {
    var all := Indices(SLOTS);
    assert UsedSlots(t) <= all;
    assert UsedSlots(t) != all;
    k :| k in all && k !in UsedSlots(t);
  }

  /** An insertion adds an address unless it is there already. */
  lemma {:induction false} InsertHolds(t: seq<Slot>, ms: seq<Mac>, m: Mac, home: Mac -> Index)
    requires Holds(t, ms, home) && |ms| < SLOTS
    ensures var p := FreePlace(t, m, home(m), SLOTS);
      if m in ms then p == Duplicate else p.At? && Holds(t[p.slot := Slot(m, true)], ms + [m], home)
  {
    var k := SomeSlotUnused(t);
    NotFull(t, m, home(m), k);
    DuplicateIsStored(t, m, home(m), SLOTS);
    if m in ms {
      assert Stores(t, m);
    } else {
      if FreePlace(t, m, home(m), SLOTS) == Duplicate {
        FoundIsStored(t, m, home(m), SLOTS);
      }
      FillHolds(t, ms, m, home);
    }
  }

  lemma {:induction false} FillHolds(t: seq<Slot>, ms: seq<Mac>, m: Mac, home: Mac -> Index)
    requires Holds(t, ms, home) && m !in ms && FreePlace(t, m, home(m), SLOTS).At?
    ensures Holds(t[FreePlace(t, m, home(m), SLOTS).slot := Slot(m, true)], ms + [m], home)
  {
    hide Lookup, FreePlace, Home;
    var k := FreePlace(t, m, home(m), SLOTS).slot;
    var r := t[k := Slot(m, true)];
    FilledIsFound(t, m, home(m), SLOTS);
    assert r[k] == Slot(m, true);
    forall a: Mac
      ensures Stores(r, a) <==> a in ms + [m]
      ensures Stores(r, a) ==> Lookup(r, a, home(a), SLOTS)
    {
      if Stores(r, a) && a != m {
        var j :| 0 <= j < |r| && r[j] == Slot(a, true);
        assert t[j] == r[j];
        FillKeepsFound(t, a, home(a), SLOTS, k, Slot(m, true));
      }
      if Stores(t, a) {
        var j :| 0 <= j < |t| && t[j] == Slot(a, true);
        assert r[j] == t[j];
      }
    }
    assert UsedSlots(r) == UsedSlots(t) + {k};
  }

  lemma {:induction false} DedupStep(list: seq<Computer>, c: Computer)
    ensures var acc, next := Accepted(list), Accepted(list + [c]);
      next ==
        if !c.enabled || ParseMac(c.mac).None? || |acc| >= MAX_ENTRIES || ParseMac(c.mac).value in acc then acc
        else acc + [ParseMac(c.mac).value]
  {
    hide ParseMac;
    var all := list + [c];
    assert all[..|list|] == list;
    var ws := Wanted(list);
    if c.enabled && ParseMac(c.mac).Some? {
      var m := ParseMac(c.mac).value;
      assert (ws + [m])[..|ws|] == ws;
      assert Dedup(ws + [m]) == if m in Dedup(ws) then Dedup(ws) else Dedup(ws) + [m];
    } else {
      assert Wanted(all) == ws;
    }
  }

  lemma {:induction false} NoneAccepted()
    ensures Accepted([]) == [] && EnabledCount([]) == 0 && forall home: Mac -> Index :: Load([], home) == EmptyTable()
  {
  }

  /** One entry of the list into the table, when `inserted` addresses are in it. */
  function LoadOne(t: seq<Slot>, c: Computer, inserted: nat, home: Mac -> Index): (r: seq<Slot>)
    requires |t| == SLOTS
    ensures |r| == SLOTS
  {
    if !c.enabled || ParseMac(c.mac).None? || inserted >= MAX_ENTRIES then t
    else
      var m := ParseMac(c.mac).value;
      match FreePlace(t, m, home(m), SLOTS)
      case At(k) => t[k := Slot(m, true)]
      case Duplicate => t
      case Full => t
  }

  /** The table of a list, for any hash. */
  function Load(list: seq<Computer>, home: Mac -> Index): (t: seq<Slot>)
    ensures |t| == SLOTS
  {
    if list == [] then EmptyTable()
    else
      var init := list[..|list| - 1];
      LoadOne(Load(init, home), list[|list| - 1], |Accepted(init)|, home)
  }

  /** For any hash, the loaded table holds exactly the first 25 distinct readable
      enabled addresses. */
  lemma {:induction false} LoadHolds(list: seq<Computer>, home: Mac -> Index)
    ensures Holds(Load(list, home), Accepted(list), home)
  {
    hide Holds, Accepted, ParseMac, FreePlace;
    if list == [] {
      EmptyHoldsNothing(home);
      NoneAccepted();
    } else {
      var init, c := list[..|list| - 1], list[|list| - 1];
      assert list == init + [c];
      LoadHolds(init, home);
      DedupStep(init, c);
      AtMost25(init);
      if c.enabled && ParseMac(c.mac).Some? {
        InsertHolds(Load(init, home), Accepted(init), ParseMac(c.mac).value, home);
      }
    }
  }

  lemma {:induction false} LoadStep(init: seq<Computer>, c: Computer, home: Mac -> Index)
    ensures Load(init + [c], home) == LoadOne(Load(init, home), c, |Accepted(init)|, home)
    ensures EnabledCount(init + [c]) == EnabledCount(init) + if c.enabled then 1 else 0
  {
    hide Accepted, LoadOne;
    assert (init + [c])[..|init|] == init;
  }

  lemma {:induction false} AtMost25(list: seq<Computer>)
    ensures |Accepted(list)| <= MAX_ENTRIES
  {
  }

  /** A lookup in a loaded table answers membership. */
  lemma {:induction false} LookupAnswersMembership(t: seq<Slot>, ms: seq<Mac>, m: Mac, home: Mac -> Index)
    requires Holds(t, ms, home)
    ensures Lookup(t, m, home(m), SLOTS) <==> m in ms
  {
    if Lookup(t, m, home(m), SLOTS) { FoundIsStored(t, m, home(m), SLOTS); }
  }

  /** Enabled static bindings, as the policy sees them. */
  datatype StaticRef = StaticRef(mac: Mac, enabled: bool)

  class AllowedList {
    /** Empty until storage is bound, then the two halves. */
    var halves: seq<array<Slot>>
    var active: int
    var count: nat

    ghost predicate Valid()
      reads this
    {
      && (active == 0 || active == 1)
      && (halves != [] ==> |halves| == 2 && halves[0] != halves[1] && halves[0].Length == halves[1].Length == SLOTS)
    }

    predicate Available()
      reads this
    {
      halves != []
    }

    /** The active half. */
    ghost function Table(): seq<Slot>
      reads this, if |halves| == 2 then {halves[0], halves[1]} else {}
      requires Valid() && Available()
    {
      halves[active][..]
    }

    constructor ()
      ensures Valid() && !Available()
    {
      halves, active, count := [], 0, 0;
    }

    method ClearTable(table: array<Slot>)
      requires table.Length == SLOTS
      modifies table
      ensures table[..] == EmptyTable()
    {
      for i := 0 to SLOTS
        invariant forall j :: 0 <= j < i ==> table[j] == EMPTY_SLOT
      {
        table[i] := EMPTY_SLOT;
      }
    }

    method Init(a: array<Slot>, b: array<Slot>)
      requires a != b && a.Length == b.Length == SLOTS
      modifies this, a, b
      ensures Valid() && Available() && halves == [a, b] && count == 0 && Table() == EmptyTable()
    {
      halves := [a, b];
      ClearTable(a);
      ClearTable(b);
      count, active := 0, 0;
    }

    /** The slot to fill, or -1 for a duplicate or a full table. */
    static method FreeSlot(table: array<Slot>, m: Mac) returns (k: int)
      requires table.Length == SLOTS
      ensures var p := FreePlace(table[..], m, Home(m), SLOTS);
        if p.At? then k == p.slot else k == -1
    {
      hide HashMac;
      var hash := HashOf(m);
      var idx: Index := (hash & 63) as int % SLOTS;
      for probe := 0 to SLOTS
        invariant FreePlace(table[..], m, Home(m), SLOTS) == FreePlace(table[..], m, idx, SLOTS - probe)
      {
        if !table[idx].used { return idx; }
        if table[idx].mac == m { return -1; }
        idx := NextSlot(idx);
      }
      return -1;
    }

    /** Load the enabled entries of a list into a cleared table. */
    static method FillTable(dest: array<Slot>, list: seq<Computer>) returns (inserted: nat, dropped: nat)
      requires dest.Length == SLOTS && dest[..] == EmptyTable()
      modifies dest
      ensures dest[..] == Load(list, Home)
      ensures inserted == |Accepted(list)| && inserted + dropped == EnabledCount(list)
    {
      hide HashMac, Home, Holds, Accepted, Load, EnabledCount, ParseMac, FreePlace;
      NoneAccepted();
      inserted, dropped := 0, 0;
      for i := 0 to |list|
        invariant dest[..] == Load(list[..i], Home)
        invariant inserted == |Accepted(list[..i])| && inserted + dropped == EnabledCount(list[..i])
      {
        assert list[..i + 1] == list[..i] + [list[i]];
        DedupStep(list[..i], list[i]);
        LoadStep(list[..i], list[i], Home);
        if !list[i].enabled { continue; }
        var mac := ReadMac(list[i].mac);
        if mac.None? { dropped := dropped + 1; continue; }
        if inserted >= MAX_ENTRIES { dropped := dropped + 1; continue; }
        LoadHolds(list[..i], Home);
        InsertHolds(dest[..], Accepted(list[..i]), mac.value, Home);
        var slot := FreeSlot(dest, mac.value);
        if slot == -1 { dropped := dropped + 1; continue; }
        ghost var before := dest[..];
        dest[slot] := Slot(mac.value, true);
        assert dest[..] == before[slot := Slot(mac.value, true)];
        inserted := inserted + 1;
      }
      assert list[..|list|] == list;
    }

    /** Fill the inactive half with the enabled entries and make it active. */
    method Rebuild(list: seq<Computer>) returns (ok: bool, skipped: nat)
      requires Valid()
      modifies this, if |halves| == 2 then {halves[1 - active]} else {}
      ensures Valid() && halves == old(halves) && ok == Available()
      ensures !ok ==> skipped == |list| && active == old(active) && count == old(count)
      ensures ok ==>
        && active == 1 - old(active) && halves[1 - active][..] == old(Table())
        && Table() == Load(list, Home)
        && count == |Accepted(list)| && count + skipped == EnabledCount(list)
    {
      hide HashMac, Home, Load, Accepted, EnabledCount, EmptyTable;
      if !Available() { return false, |list|; }
      var next := 1 - active;
      var dest := halves[next];
      ClearTable(dest);
      var inserted, dropped := FillTable(dest, list);
      count := inserted;
      active := next;
      return true, dropped;
    }

    method Contains(m: Mac) returns (r: bool)
      requires Valid()
      ensures r == (Available() && Lookup(Table(), m, Home(m), SLOTS))
    {
      if !Available() { return false; }
      var table := halves[active];
      hide HashMac;
      var hash := HashOf(m);
      var idx: Index := (hash & 63) as int % SLOTS;
      for probe := 0 to SLOTS
        invariant Lookup(table[..], m, Home(m), SLOTS) == Lookup(table[..], m, idx, SLOTS - probe)
      {
        if !table[idx].used { return false; }
        if table[idx].mac == m { return true; }
        idx := NextSlot(idx);
      }
      return false;
    }

    /** The policy: everyone while the switch is off or the table is unusable,
        else the listed computers and the clients of enabled bindings. */
    method IsClientAllowed(m: Mac, allowOnly: bool, refs: seq<StaticRef>) returns (r: bool)
      requires Valid()
      ensures r == (!allowOnly || !Available() || Lookup(Table(), m, Home(m), SLOTS) || StaticRef(m, true) in refs)
    {
      if !allowOnly { return true; }
      if !Available() { return true; }
      var listed := Contains(m);
      if listed { return true; }
      for i := 0 to |refs|
        invariant StaticRef(m, true) !in refs[..i]
      {
        if refs[i].enabled && refs[i].mac == m { return true; }
      }
      return false;
    }
  }
}
