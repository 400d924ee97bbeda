/** The allow-list end to end: saved as text, loaded, rebuilt into the table
    (src/dhcp/DhcpServer.cpp:528-555). */
module AllowStorage {
  import opened Net
  import opened AllowText
  import opened AllowList
  import opened AllowTable
  import LeaseModel

  /** One of these entries is enabled and names `m`. */
  ghost predicate Lists(cs: seq<Computer>, m: Mac) {
    exists c :: c in cs && c.enabled && ParseMac(c.mac) == Some(m)
  }

  lemma {:induction false} WantedIsListed(cs: seq<Computer>, m: Mac)
    ensures m in Wanted(cs) <==> Lists(cs, m)
    ensures |Dedup(Wanted(cs))| <= |Wanted(cs)| <= |cs|
  {
    hide ParseMac;
    if cs != [] {
      var init, c := cs[..|cs| - 1], cs[|cs| - 1];
      assert cs == init + [c];
      WantedIsListed(init, m);
      assert Lists(cs, m) <==> Lists(init, m) || (c.enabled && ParseMac(c.mac) == Some(m));
    }
    DedupShrinks(Wanted(cs));
  }

  lemma {:induction false} DedupShrinks(ms: seq<Mac>)
    ensures |Dedup(ms)| <= |ms|
  {
    if ms != [] { DedupShrinks(ms[..|ms| - 1]); }
  }

  lemma {:induction false} StoredListsTheSame(cs: seq<Computer>, m: Mac)
    requires forall c :: c in cs ==> ParseMac(c.mac).Some?
    ensures Lists(StoredAll(cs), m) <==> Lists(cs, m)
  {
    hide ParseMac, Stored;
    var stored := StoredAll(cs);
    forall i | 0 <= i < |cs|
      ensures stored[i].enabled == cs[i].enabled && ParseMac(stored[i].mac) == ParseMac(cs[i].mac)
    {
      StoredKeepsMac(cs[i]);
    }
    if Lists(cs, m) {
      var i :| 0 <= i < |cs| && cs[i].enabled && ParseMac(cs[i].mac) == Some(m);
      assert stored[i] in stored;
    }
    if Lists(stored, m) {
      var i :| 0 <= i < |stored| && stored[i].enabled && ParseMac(stored[i].mac) == Some(m);
      assert cs[i] in cs;
    }
  }

  lemma {:induction false} StoredKeepsMac(c: Computer)
    requires ParseMac(c.mac).Some?
    ensures Stored(c).enabled == c.enabled && ParseMac(Stored(c).mac) == ParseMac(c.mac)
  {
    StoredIsSettled(c);
  }

  /** Whatever the hash, the table rebuilt from a saved list finds an address
      exactly when one of the first 25 readable entries is enabled and names it. */
  lemma {:induction false} SavedListDecidesLookup(list: seq<Computer>, m: Mac, home: Mac -> Index)
    ensures Lookup(Load(Parse(Serialize(list)), home), m, home(m), SLOTS) <==> Lists(Kept(list, MAX_ENTRIES), m)
  {
    hide ParseMac, Parse, Serialize, Load, Holds, Kept, Lookup;
    var kept := Kept(list, MAX_ENTRIES);
    var loaded := Parse(Serialize(list));
    KeptParses(list, MAX_ENTRIES);
    ParseSerialize(list);
    StoredListsTheSame(kept, m);
    WantedIsListed(loaded, m);
    LoadHolds(loaded, home);
    LookupAnswersMembership(Load(loaded, home), Accepted(loaded), m, home);
  }

  /** The policy the server applies is the one the table answers. */
  lemma {:induction false} PolicyFollowsTheTable(
    cfg: LeaseModel.Config, t: seq<Slot>, ms: seq<Mac>, m: Mac, home: Mac -> Index)
    requires Holds(t, ms, home) && cfg.allowed == Some(set x | x in ms)
    ensures LeaseModel.ClientAllowed(cfg, m) <==>
      || !cfg.allowOnly || Lookup(t, m, home(m), SLOTS)
      || exists b :: b in cfg.bindings && b.enabled && b.mac == m
  {
    LookupAnswersMembership(t, ms, m, home);
  }

  /** reloadAllowedComputers: load the stored text and rebuild the table. */
  method Reload(table: AllowedList, cell: Option<string>, nvs: Nvs) returns (ok: bool, skipped: nat)
    requires table.Valid()
    modifies table, if |table.halves| == 2 then {table.halves[1 - table.active]} else {}
    ensures table.Valid() && table.halves == old(table.halves) && ok == table.Available()
    ensures ok ==> table.Table() == Load(Parse(LoadText(cell, nvs)), Home)
  {
    var list := ReadList(LoadText(cell, nvs));
    ok, skipped := table.Rebuild(list);
  }

  /** Save a list and, if that was accepted, reload the table from what was stored. A
      save is refused only by the store, and then nothing changes; after an accepted
      one that took place and can be read, the table answers for the saved list. */
  method SaveAndReload(table: AllowedList, cell: Option<string>, list: seq<Computer>, nvs: Nvs)
    returns (after: Option<string>, saved: bool, ok: bool)
    requires table.Valid()
    modifies table, if |table.halves| == 2 then {table.halves[1 - table.active]} else {}
    ensures table.Valid() && ok == (saved && table.Available())
    ensures saved <==> nvs.opens && (nvs.writes || Serialize(list) == "")
    ensures !saved ==> after == cell && unchanged(table) && (forall a :: a in table.halves ==> unchanged(a))
    ensures ok && nvs.Takes() && nvs.readable ==> forall m: Mac ::
      Lookup(table.Table(), m, Home(m), SLOTS) <==> Lists(Kept(list, MAX_ENTRIES), m)
  {
    hide Lookup, Load, Lists, Kept, Parse, Serialize, Home;
    var text := WriteList(list);
    var result := StoreText(cell, text, nvs);
    after, saved := result.0, result.1;
    SurvivesStorage(cell, list, nvs);
    ParseSerialize(list);
    if !saved { return after, false, false; }
    var skipped;
    ok, skipped := Reload(table, after, nvs);
    if ok && nvs.Takes() && nvs.readable {
      forall m: Mac
        ensures Lookup(table.Table(), m, Home(m), SLOTS) <==> Lists(Kept(list, MAX_ENTRIES), m)
      {
        SavedListDecidesLookup(list, m, Home);
      }
    }
  }
}
