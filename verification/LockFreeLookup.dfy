/** One lookup running beside rebuilds, with no lock: the reader picks a half and
    probes it slot by slot while the writer fills the other half and flips
    (src/dhcp/DhcpAllowedList.cpp:197-241). */
module LockFreeLookup {
  import opened Net
  import opened AllowText
  import opened AllowTable

  datatype Write = Write(slot: Index, value: Slot)

  /** What a script of writes makes of the half they go to. */
  function Apply(ws: seq<Write>, t: seq<Slot>): (r: seq<Slot>)
    requires |t| == SLOTS
    ensures |r| == SLOTS
    decreases |ws|
  {
    if ws == [] then t else Apply(ws[1..], t[ws[0].slot := ws[0].value])
  }

  lemma {:induction false} ApplyConcat(a: seq<Write>, b: seq<Write>, t: seq<Slot>)
    requires |t| == SLOTS
    ensures Apply(a + b, t) == Apply(b, Apply(a, t))
    decreases |a|
  {
    if a == [] {
      assert a + b == b;
    } else {
      assert (a + b)[1..] == a[1..] + b;
      ApplyConcat(a[1..], b, t[a[0].slot := a[0].value]);
    }
  }

  // ----- The writes of a rebuild

  /** Clearing the first `n` slots. */
  function Clearing(n: nat): (r: seq<Write>)
    requires n <= SLOTS
    ensures |r| == n
  {
    if n == 0 then [] else Clearing(n - 1) + [Write(n - 1, EMPTY_SLOT)]
  }

  /** The writes that put one entry into the table: the address, then the flag. */
  function InsertWrites(t: seq<Slot>, c: Computer, inserted: nat, home: Mac -> Index): seq<Write>
    requires |t| == SLOTS
  {
    if !c.enabled || ParseMac(c.mac).None? || inserted >= MAX_ENTRIES then []
    else
      var m := ParseMac(c.mac).value;
      match FreePlace(t, m, home(m), SLOTS)
      case At(k) => [Write(k, Slot(m, false)), Write(k, Slot(m, true))]
      case _ => []
  }

  function Inserting(list: seq<Computer>, home: Mac -> Index): seq<Write> {
    if list == [] then []
    else
      var init := list[..|list| - 1];
      Inserting(init, home) + InsertWrites(Load(init, home), list[|list| - 1], |Accepted(init)|, home)
  }

  /** A rebuild from a list, write by write. */
  function RebuildScript(list: seq<Computer>, home: Mac -> Index): seq<Write> {
    Clearing(SLOTS) + Inserting(list, home)
  }

  lemma {:induction false} ClearingClears(n: nat, t: seq<Slot>)
    requires n <= SLOTS == |t|
    ensures forall i :: 0 <= i < SLOTS ==> Apply(Clearing(n), t)[i] == if i < n then EMPTY_SLOT else t[i]
  {
    if n > 0 {
      ClearingClears(n - 1, t);
      ApplyConcat(Clearing(n - 1), [Write(n - 1, EMPTY_SLOT)], t);
    }
  }

  lemma {:induction false} TwoWrites(k: Index, first: Slot, last: Slot, t: seq<Slot>)
    requires |t| == SLOTS
    ensures Apply([Write(k, first), Write(k, last)], t) == t[k := last]
  {
    var ws := [Write(k, first), Write(k, last)];
    var u := t[k := first];
    assert ws[1..] == [Write(k, last)] && ws[1..][1..] == [];
    assert Apply(ws[1..], u) == Apply([], u[k := last]) == u[k := last];
  }

  lemma {:induction false} InsertApplies(t: seq<Slot>, c: Computer, inserted: nat, home: Mac -> Index)
    requires |t| == SLOTS
    ensures Apply(InsertWrites(t, c, inserted, home), t) == LoadOne(t, c, inserted, home)
  {
    hide ParseMac, FreePlace;
    var ws := InsertWrites(t, c, inserted, home);
    if ws != [] { TwoWrites(ws[0].slot, ws[0].value, ws[1].value, t); }
  }

  lemma {:induction false} InsertingLoads(list: seq<Computer>, home: Mac -> Index)
    ensures Apply(Inserting(list, home), EmptyTable()) == Load(list, home)
  {
    hide InsertWrites, LoadOne, Accepted;
    if list != [] {
      var init, c := list[..|list| - 1], list[|list| - 1];
      var more := InsertWrites(Load(init, home), c, |Accepted(init)|, home);
      InsertingLoads(init, home);
      ApplyConcat(Inserting(init, home), more, EmptyTable());
      InsertApplies(Load(init, home), c, |Accepted(init)|, home);
    }
  }

  /** Whatever the half held, the writes of a rebuild leave the table of the list. */
  lemma {:induction false} ScriptLoads(list: seq<Computer>, t: seq<Slot>, home: Mac -> Index)
    requires |t| == SLOTS
    ensures Apply(RebuildScript(list, home), t) == Load(list, home)
  {
    hide Inserting, Clearing, Load;
    ClearingClears(SLOTS, t);
    assert Apply(Clearing(SLOTS), t) == EmptyTable();
    ApplyConcat(Clearing(SLOTS), Inserting(list, home), t);
    InsertingLoads(list, home);
  }

  // ----- The reader and the writer

  /** Where the lookup is: it reads `used` and then the address of each slot. */
  datatype Reader =
    | Starting
    | Probing(half: int, slot: Index, left: nat)
    | Comparing(half: int, slot: Index, left: nat)
    | Done(answer: bool)

  /** The two halves, the active one, the rebuilds still to come (each a script of
      slot writes ended by a flip), and the lookup. */
  datatype World = World(half0: seq<Slot>, half1: seq<Slot>, active: int, rebuilds: seq<seq<Write>>, reader: Reader) {
    ghost predicate Valid() {
      && |half0| == SLOTS && |half1| == SLOTS && 0 <= active <= 1
      && (Probes() ==> 0 <= reader.half <= 1)
    }

    predicate Probes() { reader.Probing? || reader.Comparing? }

    function Half(h: int): seq<Slot> {
      if h == 0 then half0 else half1
    }
  }

  function ReaderStep(w: World, m: Mac, home: Mac -> Index): World
    requires w.Valid()
  {
    match w.reader
    case Starting => w.(reader := Probing(w.active, home(m), SLOTS))
    case Probing(h, i, left) =>
      w.(reader := if left == 0 || !w.Half(h)[i].used then Done(false) else Comparing(h, i, left))
    case Comparing(h, i, left) =>
      w.(reader := if w.Half(h)[i].mac == m then Done(true)
                   else Probing(h, NextSlot(i), if left > 0 then left - 1 else 0))
    case Done(_) => w
  }

  /** The next write goes to the half that is not active; the end of a script flips. */
  function WriterStep(w: World): World
    requires w.Valid()
  {
    if w.rebuilds == [] then w
    else if w.rebuilds[0] == [] then w.(active := 1 - w.active, rebuilds := w.rebuilds[1..])
    else
      var x := w.rebuilds[0][0];
      var v := w.(rebuilds := [w.rebuilds[0][1..]] + w.rebuilds[1..]);
      if w.active == 0 then v.(half1 := w.half1[x.slot := x.value])
      else v.(half0 := w.half0[x.slot := x.value])
  }

  datatype Turn = ReaderTurn | WriterTurn

  function Run(w: World, turns: seq<Turn>, m: Mac, home: Mac -> Index): (r: World)
    requires w.Valid()
    ensures r.Valid()
  {
    if turns == [] then w
    else
      var v := Run(w, turns[..|turns| - 1], m, home);
      if turns[|turns| - 1].ReaderTurn? then ReaderStep(v, m, home) else WriterStep(v)
  }

  // ----- A lookup whose half is not written answers as that half

  /** The next turn of the writer writes into the half that is being probed. */
  predicate Disturbs(w: World) {
    w.Probes() && w.rebuilds != [] && w.rebuilds[0] != [] && w.reader.half != w.active
  }

  predicate Undisturbed(w: World, turns: seq<Turn>, m: Mac, home: Mac -> Index)
    requires w.Valid()
  {
    turns == [] ||
    var init := turns[..|turns| - 1];
    Undisturbed(w, init, m, home) && (turns[|turns| - 1].WriterTurn? ==> !Disturbs(Run(w, init, m, home)))
  }

  /** The active half when the lookup picks its half, or now if it has not yet. */
  function StartTable(w: World, turns: seq<Turn>, m: Mac, home: Mac -> Index): (t: seq<Slot>)
    requires w.Valid()
    ensures |t| == SLOTS
  {
    var v := Run(w, turns, m, home);
    if turns == [] || v.reader == Starting then v.Half(v.active)
    else
      var before := Run(w, turns[..|turns| - 1], m, home);
      if before.reader == Starting then before.Half(before.active)
      else StartTable(w, turns[..|turns| - 1], m, home)
  }

  /** The lookup stands at a probe of `t`, or has answered as `t`. */
  ghost predicate Follows(w: World, t: seq<Slot>, m: Mac, home: Mac -> Index)
    requires w.Valid() && |t| == SLOTS
  {
    match w.reader
    case Starting => t == w.Half(w.active)
    case Probing(h, i, left) => w.Half(h) == t && Lookup(t, m, home(m), SLOTS) == Lookup(t, m, i, left)
    case Comparing(h, i, left) =>
      w.Half(h) == t && left > 0 && t[i].used && Lookup(t, m, home(m), SLOTS) == Lookup(t, m, i, left)
    case Done(answer) => answer == Lookup(t, m, home(m), SLOTS)
  }

  lemma {:induction false} ReaderFollows(w: World, t: seq<Slot>, m: Mac, home: Mac -> Index)
    requires w.Valid() && |t| == SLOTS && Follows(w, t, m, home)
    ensures Follows(ReaderStep(w, m, home), t, m, home) && ReaderStep(w, m, home).reader != Starting
  {
  }

  lemma {:induction false} WriterFollows(w: World, t: seq<Slot>, m: Mac, home: Mac -> Index)
    requires w.Valid() && |t| == SLOTS && Follows(w, t, m, home) && w.reader != Starting && !Disturbs(w)
    ensures Follows(WriterStep(w), t, m, home)
  {
    hide Lookup;
  }

  lemma {:induction false} RunFollows(w: World, turns: seq<Turn>, m: Mac, home: Mac -> Index)
    requires w.Valid() && w.reader == Starting && Undisturbed(w, turns, m, home)
    ensures Follows(Run(w, turns, m, home), StartTable(w, turns, m, home), m, home)
  {
    hide ReaderStep, Lookup;
    if turns != [] {
      var init := turns[..|turns| - 1];
      var v, t := Run(w, init, m, home), StartTable(w, init, m, home);
      RunFollows(w, init, m, home);
      if turns[|turns| - 1].ReaderTurn? {
        ReaderFollows(v, t, m, home);
      } else if v.reader != Starting {
        WriterFollows(v, t, m, home);
      }
    }
  }

  /** However many rebuilds run beside it, a lookup whose half is not written while it
      probes answers as the whole table that was active when it started. */
  lemma {:induction false} LookupAnswersAsItStarted(w: World, turns: seq<Turn>, m: Mac, home: Mac -> Index)
    requires w.Valid() && w.reader == Starting && Undisturbed(w, turns, m, home)
    requires Run(w, turns, m, home).reader.Done?
    ensures Run(w, turns, m, home).reader.answer == Lookup(StartTable(w, turns, m, home), m, home(m), SLOTS)
  {
    RunFollows(w, turns, m, home);
  }

  // ----- One rebuild never disturbs

  /** Beside one rebuild: the half active at the start keeps its table until the flip
      and after, and a lookup is in the other half only after the flip. */
  ghost predicate OneRebuild(w: World, a: int, before: seq<Slot>, after: seq<Slot>)
    requires w.Valid() && 0 <= a <= 1
  {
    && w.Half(a) == before
    && (if w.active == a then
          w.rebuilds == [] || (|w.rebuilds| == 1 && Apply(w.rebuilds[0], w.Half(1 - a)) == after)
        else w.rebuilds == [] && w.Half(1 - a) == after)
    && (w.Probes() && w.reader.half != a ==> w.active != a)
  }

  lemma {:induction false} StepKeepsOne(
    w: World, a: int, before: seq<Slot>, after: seq<Slot>, m: Mac, home: Mac -> Index)
    requires w.Valid() && 0 <= a <= 1 && OneRebuild(w, a, before, after)
    ensures OneRebuild(ReaderStep(w, m, home), a, before, after)
    ensures OneRebuild(WriterStep(w), a, before, after) && !Disturbs(w)
  {
  }

  lemma {:induction false} OneRebuildNeverDisturbs(
    w: World, turns: seq<Turn>, after: seq<Slot>, m: Mac, home: Mac -> Index)
    requires w.Valid() && w.reader == Starting && |w.rebuilds| <= 1
    requires w.rebuilds != [] ==> after == Apply(w.rebuilds[0], w.Half(1 - w.active))
    ensures OneRebuild(Run(w, turns, m, home), w.active, w.Half(w.active), after)
    ensures Undisturbed(w, turns, m, home)
    ensures var t := StartTable(w, turns, m, home);
      t == w.Half(w.active) || (w.rebuilds != [] && t == after)
  {
    hide ReaderStep, Apply;
    if turns != [] {
      var init := turns[..|turns| - 1];
      OneRebuildNeverDisturbs(w, init, after, m, home);
      StepKeepsOne(Run(w, init, m, home), w.active, w.Half(w.active), after, m, home);
      if w.rebuilds == [] { NothingToWrite(w, turns, m, home); }
      if w.rebuilds == [] { NothingToWrite(w, init, m, home); }
    }
  }

  lemma {:induction false} NothingToWrite(w: World, turns: seq<Turn>, m: Mac, home: Mac -> Index)
    requires w.Valid() && w.rebuilds == []
    ensures var v := Run(w, turns, m, home); v.(reader := w.reader) == w
  {
    if turns != [] { NothingToWrite(w, turns[..|turns| - 1], m, home); }
  }

  /** With at most one rebuild beside it, and however the two interleave, a lookup
      answers as the whole old table or the whole new one. */
  lemma {:induction false} LookupSeesAWholeTable(w: World, turns: seq<Turn>, m: Mac, home: Mac -> Index)
    requires w.Valid() && w.reader == Starting && |w.rebuilds| <= 1
    requires Run(w, turns, m, home).reader.Done?
    ensures var answer := Run(w, turns, m, home).reader.answer;
      || answer == Lookup(w.Half(w.active), m, home(m), SLOTS)
      || (w.rebuilds != [] && answer == Lookup(Apply(w.rebuilds[0], w.Half(1 - w.active)), m, home(m), SLOTS))
  {
    hide Run, Lookup, Apply, StartTable;
    var after := if w.rebuilds == [] then [] else Apply(w.rebuilds[0], w.Half(1 - w.active));
    OneRebuildNeverDisturbs(w, turns, after, m, home);
    LookupAnswersAsItStarted(w, turns, m, home);
  }

  // ----- Rebuilds from lists

  function Scripts(lists: seq<seq<Computer>>, home: Mac -> Index): (r: seq<seq<Write>>)
    ensures |r| == |lists| && forall i :: 0 <= i < |lists| ==> r[i] == RebuildScript(lists[i], home)
  {
    seq(|lists|, i requires 0 <= i < |lists| => RebuildScript(lists[i], home))
  }

  /** No lookup and no rebuild has begun: the table of the first list is active, the
      rebuilds from the others are still to come. */
  ghost predicate Fresh(w: World, lists: seq<seq<Computer>>, home: Mac -> Index) {
    && w.Valid() && w.reader == Starting && lists != []
    && w.Half(w.active) == Load(lists[0], home) && w.rebuilds == Scripts(lists[1..], home)
  }

  /** The active half is the table of the last list rebuilt, the rest of the running
      script completes the next one, and the scripts after it are whole. */
  ghost predicate Loading(w: World, lists: seq<seq<Computer>>, home: Mac -> Index)
    requires w.Valid()
  {
    && |w.rebuilds| < |lists|
    && var k := |lists| - 1 - |w.rebuilds|;
       && w.Half(w.active) == Load(lists[k], home)
       && (w.rebuilds != [] ==> Apply(w.rebuilds[0], w.Half(1 - w.active)) == Load(lists[k + 1], home))
       && forall j :: 1 <= j < |w.rebuilds| ==> w.rebuilds[j] == RebuildScript(lists[k + 1 + j], home)
  }

  lemma {:induction false} WriterLoads(w: World, lists: seq<seq<Computer>>, home: Mac -> Index)
    requires w.Valid() && Loading(w, lists, home)
    ensures Loading(WriterStep(w), lists, home)
  {
    hide RebuildScript, Load;
    if w.rebuilds != [] && w.rebuilds[0] == [] {
      var v := WriterStep(w);
      if v.rebuilds != [] {
        assert v.rebuilds[0] == w.rebuilds[1];
        ScriptLoads(lists[|lists| - |v.rebuilds|], v.Half(1 - v.active), home);
      }
    }
  }

  lemma {:induction false} RunLoads(
    w: World, turns: seq<Turn>, lists: seq<seq<Computer>>, m: Mac, home: Mac -> Index) returns (k: nat)
    requires w.Valid() && Loading(w, lists, home)
    ensures Loading(Run(w, turns, m, home), lists, home)
    ensures k < |lists| && StartTable(w, turns, m, home) == Load(lists[k], home)
  {
    hide RebuildScript, Load, WriterStep, Apply;
    if turns == [] {
      k := |lists| - 1 - |w.rebuilds|;
    } else {
      var init := turns[..|turns| - 1];
      var v := Run(w, init, m, home);
      k := RunLoads(w, init, lists, m, home);
      WriterLoads(v, lists, home);
      assert Loading(ReaderStep(v, m, home), lists, home);
      var u := Run(w, turns, m, home);
      if u.reader == Starting {
        k := |lists| - 1 - |u.rebuilds|;
      } else if v.reader == Starting {
        k := |lists| - 1 - |v.rebuilds|;
      }
    }
  }

  /** Beside any number of rebuilds from lists, an undisturbed lookup answers whether
      the address is among the first 25 distinct enabled ones of one of the lists. */
  lemma {:induction false} LookupAnswersForOneList(
    w: World, turns: seq<Turn>, lists: seq<seq<Computer>>, m: Mac, home: Mac -> Index) returns (k: nat)
    requires Fresh(w, lists, home)
    requires Run(w, turns, m, home).reader.Done? && (Undisturbed(w, turns, m, home) || |lists| <= 2)
    ensures k < |lists| && (Run(w, turns, m, home).reader.answer <==> m in Accepted(lists[k]))
  {
    hide Run, Lookup, Apply, StartTable, RebuildScript, Load, Undisturbed, Holds, Accepted;
    if w.rebuilds != [] { ScriptLoads(lists[1], w.Half(1 - w.active), home); }
    if |lists| <= 2 {
      var after := if w.rebuilds == [] then [] else Apply(w.rebuilds[0], w.Half(1 - w.active));
      OneRebuildNeverDisturbs(w, turns, after, m, home);
    }
    LookupAnswersAsItStarted(w, turns, m, home);
    k := RunLoads(w, turns, lists, m, home);
    LoadHolds(lists[k], home);
    LookupAnswersMembership(Load(lists[k], home), Accepted(lists[k]), m, home);
  }

  // ----- Two rebuilds can disturb

  /** The half that is not active becomes `t`. */
  function Filled(w: World, t: seq<Slot>): World {
    if w.active == 0 then w.(half1 := t) else w.(half0 := t)
  }

  function WriterTurns(n: nat): (r: seq<Turn>)
    ensures |r| == n && forall i :: 0 <= i < n ==> r[i] == WriterTurn
  {
    seq(n, _ => WriterTurn)
  }

  lemma {:induction false} RunConcat(w: World, a: seq<Turn>, b: seq<Turn>, m: Mac, home: Mac -> Index)
    requires w.Valid()
    ensures Run(w, a + b, m, home) == Run(Run(w, a, m, home), b, m, home)
  {
    hide ReaderStep, WriterStep;
    if b == [] {
      assert a + b == a;
    } else {
      assert (a + b)[..|a + b| - 1] == a + b[..|b| - 1];
      RunConcat(w, a, b[..|b| - 1], m, home);
    }
  }

  /** A part of a script, written without a turn of the reader in between. */
  lemma {:induction false} WritesDone(w: World, part: seq<Write>, rest: seq<Write>, m: Mac, home: Mac -> Index)
    requires w.Valid() && w.rebuilds != [] && w.rebuilds[0] == part + rest
    ensures Run(w, WriterTurns(|part|), m, home) ==
      Filled(w, Apply(part, w.Half(1 - w.active))).(rebuilds := [rest] + w.rebuilds[1..])
    decreases |part|
  {
    if part == [] {
      assert [] + rest == rest && [rest] + w.rebuilds[1..] == w.rebuilds;
    } else {
      var v := WriterStep(w);
      var x := part[0];
      assert (part + rest)[1..] == part[1..] + rest;
      assert v == Filled(w, w.Half(1 - w.active)[x.slot := x.value]).(rebuilds := [part[1..] + rest] + w.rebuilds[1..]);
      assert WriterTurns(|part|) == [WriterTurn] + WriterTurns(|part| - 1);
      RunConcat(w, [WriterTurn], WriterTurns(|part| - 1), m, home);
      assert [WriterTurn][..0] == [];
      WritesDone(v, part[1..], rest, m, home);
    }
  }

  lemma {:induction false} OneTurn(w: World, turn: Turn, m: Mac, home: Mac -> Index)
    requires w.Valid()
    ensures Run(w, [turn], m, home) == if turn.ReaderTurn? then ReaderStep(w, m, home) else WriterStep(w)
  {
    assert [turn][..0] == [];
    assert Run(w, [], m, home) == w;
  }

  /** A whole rebuild without a turn of the reader in between. */
  lemma {:induction false} RebuildDone(w: World, m: Mac, home: Mac -> Index) returns (turns: seq<Turn>)
    requires w.Valid() && w.rebuilds != []
    ensures Run(w, turns, m, home) ==
      Filled(w, Apply(w.rebuilds[0], w.Half(1 - w.active))).(active := 1 - w.active, rebuilds := w.rebuilds[1..])
  {
    hide Run, Apply;
    var script := w.rebuilds[0];
    assert script + [] == script;
    WritesDone(w, script, [], m, home);
    var v := Run(w, WriterTurns(|script|), m, home);
    OneTurn(v, WriterTurn, m, home);
    turns := WriterTurns(|script|) + [WriterTurn];
    RunConcat(w, WriterTurns(|script|), [WriterTurn], m, home);
    assert v.rebuilds[1..] == w.rebuilds[1..];
  }

  /** While the lookup waits, the writer completes one rebuild and has cleared the half
      that was active for the next. */
  lemma {:induction false} WriterOvertakes(w: World, rest: seq<Write>, m: Mac, home: Mac -> Index)
    returns (turns: seq<Turn>)
    requires w.Valid() && |w.rebuilds| >= 2 && w.rebuilds[1] == Clearing(SLOTS) + rest
    ensures var v := Run(w, turns, m, home); v.Half(w.active) == EmptyTable() && v.reader == w.reader
  {
    hide Clearing, Run, Apply;
    var first := RebuildDone(w, m, home);
    var v := Run(w, first, m, home);
    var clear := Clearing(SLOTS);
    WritesDone(v, clear, rest, m, home);
    ClearingClears(SLOTS, v.Half(w.active));
    assert Apply(clear, v.Half(w.active)) == EmptyTable();
    turns := first + WriterTurns(SLOTS);
    RunConcat(w, first, WriterTurns(SLOTS), m, home);
  }

  /** The writer completes some rebuilds before the lookup starts. */
  lemma {:induction false} RebuildsDone(w: World, lists: seq<seq<Computer>>, j: nat, m: Mac, home: Mac -> Index)
    returns (turns: seq<Turn>)
    requires Fresh(w, lists, home) && j < |lists|
    ensures Fresh(Run(w, turns, m, home), lists[j..], home)
  {
    hide Run, Apply, RebuildScript, Load;
    if j == 0 {
      turns := [];
      NoTurns(w, m, home);
      assert lists[0..] == lists;
    } else {
      var before := RebuildsDone(w, lists, j - 1, m, home);
      var v := Run(w, before, m, home);
      var more := RebuildDone(v, m, home);
      turns := before + more;
      RunConcat(w, before, more, m, home);
      ScriptLoads(lists[j], v.Half(1 - v.active), home);
      assert lists[j - 1..][1..] == lists[j..];
      assert Scripts(lists[j..], home)[1..] == Scripts(lists[j..][1..], home);
    }
  }

  lemma {:induction false} NoTurns(w: World, m: Mac, home: Mac -> Index)
    requires w.Valid()
    ensures Run(w, [], m, home) == w
  {
  }

  /** With two rebuilds to come, a lookup can answer that nothing is listed: it picks
      its half, the writer overtakes it, and it finds its first slot cleared. */
  lemma {:induction false} OvertakenMisses(w: World, lists: seq<seq<Computer>>, m: Mac, home: Mac -> Index)
    returns (turns: seq<Turn>)
    requires Fresh(w, lists, home) && |lists| >= 3
    ensures Run(w, turns, m, home).reader == Done(false)
  {
    hide Run, Load, Clearing, Inserting;
    var w1 := w.(reader := Probing(w.active, home(m), SLOTS));
    OneTurn(w, ReaderTurn, m, home);
    var middle := WriterOvertakes(w1, Inserting(lists[2], home), m, home);
    var w2 := Run(w1, middle, m, home);
    OneTurn(w2, ReaderTurn, m, home);
    turns := [ReaderTurn] + (middle + [ReaderTurn]);
    RunConcat(w, [ReaderTurn], middle + [ReaderTurn], m, home);
    RunConcat(w1, middle, [ReaderTurn], m, home);
  }

  /** The same, when the lookup has already seen its first slot used: the cleared slot
      holds the zero address, and it takes that for a hit. */
  lemma {:induction false} OvertakenFindsZero(w: World, lists: seq<seq<Computer>>, home: Mac -> Index)
    returns (turns: seq<Turn>)
    requires Fresh(w, lists, home) && |lists| >= 3 && Load(lists[0], home)[home(ZERO)].used
    ensures Run(w, turns, ZERO, home).reader == Done(true)
  {
    hide Run, Load, Clearing, Inserting;
    var i := home(ZERO);
    var w1 := w.(reader := Probing(w.active, i, SLOTS));
    OneTurn(w, ReaderTurn, ZERO, home);
    var w2 := w1.(reader := Comparing(w.active, i, SLOTS));
    OneTurn(w1, ReaderTurn, ZERO, home);
    var middle := WriterOvertakes(w2, Inserting(lists[2], home), ZERO, home);
    var w3 := Run(w2, middle, ZERO, home);
    OneTurn(w3, ReaderTurn, ZERO, home);
    turns := [ReaderTurn] + ([ReaderTurn] + (middle + [ReaderTurn]));
    RunConcat(w, [ReaderTurn], [ReaderTurn] + (middle + [ReaderTurn]), ZERO, home);
    RunConcat(w1, [ReaderTurn], middle + [ReaderTurn], ZERO, home);
    RunConcat(w2, middle, [ReaderTurn], ZERO, home);
  }

  /** The address that a cleared slot holds. */
  const ZERO: Mac := EMPTY_SLOT.mac

  // ----- An address in no list is not found

  predicate NoWriteOf(ws: seq<Write>, m: Mac) {
    forall b :: 0 <= b < |ws| ==> ws[b].value.mac != m
  }

  /** Used slots are written with other addresses than `m`, slot `c` only if the
      finished table uses it, and after the first of them nothing writes `m`. */
  ghost predicate Orderly(ws: seq<Write>, table: seq<Slot>, m: Mac, c: Index)
    requires |table| == SLOTS
  {
    && (forall b :: 0 <= b < |ws| && ws[b].value.used ==>
          ws[b].value.mac != m && (ws[b].slot == c ==> table[c].used))
    && (forall a, b :: 0 <= a < b < |ws| && ws[a].value.used ==> ws[b].value.mac != m)
  }

  lemma {:induction false} ClearingWrites(n: nat)
    requires n <= SLOTS
    ensures forall b :: 0 <= b < n ==> Clearing(n)[b].value == EMPTY_SLOT
  {
    if n > 0 { ClearingWrites(n - 1); }
  }

  /** Insertions write only accepted addresses, and what they use stays used. */
  lemma {:induction false} InsertingWrites(list: seq<Computer>, m: Mac, home: Mac -> Index)
    requires m !in Accepted(list)
    ensures var ws := Inserting(list, home);
      NoWriteOf(ws, m) && forall b :: 0 <= b < |ws| ==> Load(list, home)[ws[b].slot].used
  {
    hide Accepted, ParseMac, FreePlace;
    if list != [] {
      var init, c := list[..|list| - 1], list[|list| - 1];
      assert list == init + [c];
      DedupStep(init, c);
      InsertingWrites(init, m, home);
      InsertKeepsUsed(Load(init, home), c, |Accepted(init)|, home);
      InsertWritesOne(Load(init, home), init, c, home);
    }
  }

  lemma {:induction false} InsertKeepsUsed(t: seq<Slot>, c: Computer, inserted: nat, home: Mac -> Index)
    requires |t| == SLOTS
    ensures forall i :: 0 <= i < SLOTS && t[i].used ==> LoadOne(t, c, inserted, home)[i].used
  {
    hide ParseMac, FreePlace;
  }

  lemma {:induction false} InsertWritesOne(t: seq<Slot>, init: seq<Computer>, c: Computer, home: Mac -> Index)
    requires |t| == SLOTS
    ensures var ws, acc := InsertWrites(t, c, |Accepted(init)|, home), Accepted(init + [c]);
      forall b :: 0 <= b < |ws| ==>
        ws[b].value.mac in acc && LoadOne(t, c, |Accepted(init)|, home)[ws[b].slot].used
  {
    hide Accepted, ParseMac, FreePlace;
    DedupStep(init, c);
  }

  lemma {:induction false} ScriptIsOrderly(list: seq<Computer>, m: Mac, home: Mac -> Index)
    requires m !in Accepted(list)
    ensures Orderly(RebuildScript(list, home), Load(list, home), m, home(m))
    ensures m != ZERO ==> NoWriteOf(RebuildScript(list, home), m)
  {
    hide Accepted, Load, Inserting, Clearing;
    ClearingWrites(SLOTS);
    InsertingWrites(list, m, home);
  }

  /** No write of `m` to half `h` is still to come. */
  ghost predicate Sealed(w: World, h: int, m: Mac) {
    forall j :: 0 <= j < |w.rebuilds| && (h == if j % 2 == 0 then 1 - w.active else w.active) ==>
      NoWriteOf(w.rebuilds[j], m)
  }

  ghost predicate UsesOthers(t: seq<Slot>, m: Mac) {
    forall i :: 0 <= i < |t| && t[i].used ==> t[i].mac != m
  }

  /** The scripts still to come, each for its list. */
  ghost predicate Prepared(w: World, lists: seq<seq<Computer>>, m: Mac, home: Mac -> Index) {
    && |w.rebuilds| < |lists|
    && forall j :: 0 <= j < |w.rebuilds| ==>
         && Orderly(w.rebuilds[j], Load(lists[|lists| - |w.rebuilds| + j], home), m, home(m))
         && (m != ZERO ==> NoWriteOf(w.rebuilds[j], m))
  }

  /** The lookup has not been fooled, and cannot be: it still waits at an unused first
      slot, or its half will see no more writes of the address. */
  ghost predicate Unfooled(w: World, m: Mac, home: Mac -> Index)
    requires w.Valid()
  {
    match w.reader
    case Starting => true
    case Probing(h, i, _) =>
      UsesOthers(w.Half(h), m) && ((i == home(m) && !w.Half(h)[i].used) || Sealed(w, h, m))
    case Comparing(h, i, _) => UsesOthers(w.Half(h), m) && Sealed(w, h, m) && w.Half(h)[i].mac != m
    case Done(answer) => !answer
  }

  /** A table that will be overwritten leaves the first slot of `m` unused, or `m` is
      not what a cleared slot holds. */
  ghost predicate ZeroIsSafe(lists: seq<seq<Computer>>, m: Mac, home: Mac -> Index) {
    m != ZERO || forall j :: 0 <= j < |lists| - 2 ==> !Load(lists[j], home)[home(m)].used
  }

  lemma {:induction false} ListedNowhere(lists: seq<seq<Computer>>, k: nat, m: Mac, home: Mac -> Index)
    requires k < |lists| && m !in Accepted(lists[k])
    ensures UsesOthers(Load(lists[k], home), m)
  {
    hide Accepted, Load;
    LoadHolds(lists[k], home);
    var t := Load(lists[k], home);
    assert Slot(m, true) !in t;
    forall i | 0 <= i < |t| && t[i].used ensures t[i].mac != m {
      assert t[i] == Slot(t[i].mac, true) && t[i] in t;
    }
  }

  lemma {:induction false} ReaderUnfooled(w: World, lists: seq<seq<Computer>>, m: Mac, home: Mac -> Index)
    requires w.Valid() && Loading(w, lists, home) && Prepared(w, lists, m, home) && Unfooled(w, m, home)
    requires ZeroIsSafe(lists, m, home) && forall k :: 0 <= k < |lists| ==> m !in Accepted(lists[k])
    ensures Unfooled(ReaderStep(w, m, home), m, home)
  {
    hide Accepted, Load, Apply, RebuildScript, Orderly;
    if w.reader == Starting {
      ListedNowhere(lists, |lists| - 1 - |w.rebuilds|, m, home);
    }
  }

  lemma {:induction false} FlipUnfooled(w: World, lists: seq<seq<Computer>>, m: Mac, home: Mac -> Index)
    requires w.Valid() && Prepared(w, lists, m, home) && Unfooled(w, m, home)
    requires w.rebuilds != [] && w.rebuilds[0] == []
    ensures Prepared(WriterStep(w), lists, m, home) && Unfooled(WriterStep(w), m, home)
  {
    hide Accepted, Load, Orderly, UsesOthers, NoWriteOf;
    var v := WriterStep(w);
    assert forall j :: 0 <= j < |v.rebuilds| ==> v.rebuilds[j] == w.rebuilds[j + 1];
  }

  lemma {:induction false} RestIsOrderly(ws: seq<Write>, table: seq<Slot>, m: Mac, c: Index)
    requires |table| == SLOTS && ws != [] && Orderly(ws, table, m, c)
    ensures Orderly(ws[1..], table, m, c) && (NoWriteOf(ws, m) ==> NoWriteOf(ws[1..], m))
    ensures ws[0].value.used ==> ws[0].value.mac != m && NoWriteOf(ws[1..], m) && (ws[0].slot == c ==> table[c].used)
  {
  }

  lemma {:induction false} WritePrepared(w: World, lists: seq<seq<Computer>>, m: Mac, home: Mac -> Index)
    requires w.Valid() && Prepared(w, lists, m, home) && w.rebuilds != [] && w.rebuilds[0] != []
    ensures Prepared(WriterStep(w), lists, m, home)
  {
    hide Accepted, Load, Orderly, NoWriteOf;
    var v := WriterStep(w);
    assert forall j :: 1 <= j < |v.rebuilds| ==> v.rebuilds[j] == w.rebuilds[j];
    RestIsOrderly(w.rebuilds[0], Load(lists[|lists| - |w.rebuilds|], home), m, home(m));
  }

  lemma {:induction false} SealedStays(w: World, m: Mac, h: int)
    requires w.Valid() && w.rebuilds != [] && w.rebuilds[0] != [] && Sealed(w, h, m)
    ensures Sealed(WriterStep(w), h, m)
  {
    var v := WriterStep(w);
    assert forall j :: 1 <= j < |v.rebuilds| ==> v.rebuilds[j] == w.rebuilds[j];
  }

  /** After a write that puts the first slot into use, no write of the address goes to
      that half. */
  lemma {:induction false} FirstSlotTaken(w: World, lists: seq<seq<Computer>>, m: Mac, home: Mac -> Index)
    requires w.Valid() && Prepared(w, lists, m, home) && ZeroIsSafe(lists, m, home)
    requires w.rebuilds != [] && w.rebuilds[0] != []
    requires w.rebuilds[0][0].slot == home(m) && w.rebuilds[0][0].value.used
    ensures Sealed(WriterStep(w), 1 - w.active, m)
  {
    hide Accepted, Load, Orderly, NoWriteOf;
    var v := WriterStep(w);
    assert forall j :: 1 <= j < |v.rebuilds| ==> v.rebuilds[j] == w.rebuilds[j];
    RestIsOrderly(w.rebuilds[0], Load(lists[|lists| - |w.rebuilds|], home), m, home(m));
  }

  lemma {:induction false} WriteUnfooled(w: World, lists: seq<seq<Computer>>, m: Mac, home: Mac -> Index)
    requires w.Valid() && Prepared(w, lists, m, home) && Unfooled(w, m, home) && ZeroIsSafe(lists, m, home)
    requires w.rebuilds != [] && w.rebuilds[0] != []
    ensures Unfooled(WriterStep(w), m, home)
  {
    hide Accepted, Load, Orderly, ZeroIsSafe, Sealed;
    var x := w.rebuilds[0][0];
    RestIsOrderly(w.rebuilds[0], Load(lists[|lists| - |w.rebuilds|], home), m, home(m));
    if w.Probes() {
      if Sealed(w, w.reader.half, m) {
        SealedStays(w, m, w.reader.half);
        if w.reader.half != w.active { SealedHalf(w, m); }
      } else if w.reader.half != w.active && x.slot == home(m) && x.value.used {
        FirstSlotTaken(w, lists, m, home);
      }
    }
  }

  lemma {:induction false} SealedHalf(w: World, m: Mac)
    requires w.Valid() && w.rebuilds != [] && w.rebuilds[0] != [] && Sealed(w, 1 - w.active, m)
    ensures w.rebuilds[0][0].value.mac != m
  {
    assert NoWriteOf(w.rebuilds[0], m);
  }

  lemma {:induction false} WriterUnfooled(w: World, lists: seq<seq<Computer>>, m: Mac, home: Mac -> Index)
    requires w.Valid() && Prepared(w, lists, m, home) && Unfooled(w, m, home) && ZeroIsSafe(lists, m, home)
    ensures Prepared(WriterStep(w), lists, m, home) && Unfooled(WriterStep(w), m, home)
  {
    hide Prepared, Unfooled, ZeroIsSafe;
    if w.rebuilds != [] {
      if w.rebuilds[0] == [] {
        FlipUnfooled(w, lists, m, home);
      } else {
        WritePrepared(w, lists, m, home);
        WriteUnfooled(w, lists, m, home);
      }
    }
  }

  lemma {:induction false} RunUnfooled(
    w: World, turns: seq<Turn>, lists: seq<seq<Computer>>, m: Mac, home: Mac -> Index)
    requires w.Valid() && Loading(w, lists, home) && Prepared(w, lists, m, home) && Unfooled(w, m, home)
    requires ZeroIsSafe(lists, m, home) && forall k :: 0 <= k < |lists| ==> m !in Accepted(lists[k])
    ensures var v := Run(w, turns, m, home);
      Loading(v, lists, home) && Prepared(v, lists, m, home) && Unfooled(v, m, home)
  {
    hide Accepted, Load, Apply, RebuildScript, Unfooled, WriterStep, Orderly, ZeroIsSafe;
    if turns != [] {
      var init := turns[..|turns| - 1];
      RunUnfooled(w, init, lists, m, home);
      var v := Run(w, init, m, home);
      if turns[|turns| - 1].ReaderTurn? {
        ReaderUnfooled(v, lists, m, home);
      } else {
        WriterLoads(v, lists, home);
        WriterUnfooled(v, lists, m, home);
      }
    }
  }

  lemma {:induction false} FreshIsLoading(w: World, lists: seq<seq<Computer>>, home: Mac -> Index)
    requires Fresh(w, lists, home)
    ensures Loading(w, lists, home)
  {
    hide Load, RebuildScript, Apply;
    if w.rebuilds != [] { ScriptLoads(lists[1], w.Half(1 - w.active), home); }
  }

  /** An address in no list is never found, for any number of rebuilds; for the zero
      address that takes tables that leave its first slot unused. */
  lemma {:induction false} UnlistedIsNotFound(
    w: World, turns: seq<Turn>, lists: seq<seq<Computer>>, m: Mac, home: Mac -> Index)
    requires Fresh(w, lists, home) && ZeroIsSafe(lists, m, home)
    requires forall k :: 0 <= k < |lists| ==> m !in Accepted(lists[k])
    ensures Run(w, turns, m, home).reader != Done(true)
  {
    hide Run, Accepted, Load, RebuildScript, Orderly, ZeroIsSafe;
    FreshIsLoading(w, lists, home);
    forall j | 0 <= j < |w.rebuilds|
      ensures Orderly(w.rebuilds[j], Load(lists[|lists| - |w.rebuilds| + j], home), m, home(m))
      ensures m != ZERO ==> NoWriteOf(w.rebuilds[j], m)
    {
      ScriptIsOrderly(lists[j + 1], m, home);
    }
    RunUnfooled(w, turns, lists, m, home);
  }

  // ----- When every lookup answers as a whole table

  /** The answer is that of one of the whole tables. */
  ghost predicate AnswersAsOne(
    w: World, turns: seq<Turn>, lists: seq<seq<Computer>>, m: Mac, home: Mac -> Index)
    requires w.Valid()
  {
    var r := Run(w, turns, m, home).reader;
    r.Done? ==> exists k :: 0 <= k < |lists| && (r.answer <==> m in Accepted(lists[k]))
  }

  /** Rebuilds from these lists can fool a lookup of `m`: there are at least two of
      them, and either every list has the address, or none has it, it is the zero
      address, and a table that will be overwritten uses its first slot. */
  ghost predicate CanFool(lists: seq<seq<Computer>>, m: Mac, home: Mac -> Index) {
    && |lists| >= 3
    && (|| (forall k :: 0 <= k < |lists| ==> m in Accepted(lists[k]))
        || ((forall k :: 0 <= k < |lists| ==> m !in Accepted(lists[k])) && !ZeroIsSafe(lists, m, home)))
  }

  /** However the lookup and the rebuilds from the given lists interleave, it answers as
      one of the whole tables, if and only if the lists cannot fool it. */
  lemma {:induction false} LookupIsWholeExactlyWhen(
    w: World, lists: seq<seq<Computer>>, m: Mac, home: Mac -> Index)
    requires Fresh(w, lists, home)
    ensures (forall turns :: AnswersAsOne(w, turns, lists, m, home)) <==> !CanFool(lists, m, home)
  {
    hide Run, Accepted, Load, Scripts, RebuildScript, ZeroIsSafe;
    if CanFool(lists, m, home) {
      var turns := FoolingTurns(w, lists, m, home);
      assert !AnswersAsOne(w, turns, lists, m, home);
    } else {
      forall turns ensures AnswersAsOne(w, turns, lists, m, home) {
        NotFooled(w, turns, lists, m, home);
      }
    }
  }

  lemma {:induction false} FoolingTurns(w: World, lists: seq<seq<Computer>>, m: Mac, home: Mac -> Index)
    returns (turns: seq<Turn>)
    requires Fresh(w, lists, home) && CanFool(lists, m, home)
    ensures !AnswersAsOne(w, turns, lists, m, home)
  {
    hide Run, Accepted, Load, Scripts;
    if forall k :: 0 <= k < |lists| ==> m in Accepted(lists[k]) {
      turns := OvertakenMisses(w, lists, m, home);
    } else {
      var j :| 0 <= j < |lists| - 2 && Load(lists[j], home)[home(m)].used;
      var before := RebuildsDone(w, lists, j, m, home);
      var after := OvertakenFindsZero(Run(w, before, m, home), lists[j..], home);
      turns := before + after;
      RunConcat(w, before, after, m, home);
    }
  }

  lemma {:induction false} NotFooled(
    w: World, turns: seq<Turn>, lists: seq<seq<Computer>>, m: Mac, home: Mac -> Index)
    requires Fresh(w, lists, home) && !CanFool(lists, m, home)
    ensures AnswersAsOne(w, turns, lists, m, home)
  {
    hide Run, Accepted, Load, Scripts, ZeroIsSafe, Undisturbed;
    if Run(w, turns, m, home).reader.Done? {
      if |lists| <= 2 {
        var k := LookupAnswersForOneList(w, turns, lists, m, home);
      } else if forall k :: 0 <= k < |lists| ==> m !in Accepted(lists[k]) {
        UnlistedIsNotFound(w, turns, lists, m, home);
        assert m !in Accepted(lists[0]);
      }
    }
  }

  /** An address that every list has is found by every lookup, if and only if there is at
      most one rebuild. */
  lemma {:induction false} ListedIsFoundExactlyWhen(
    w: World, lists: seq<seq<Computer>>, m: Mac, home: Mac -> Index)
    requires Fresh(w, lists, home) && forall k :: 0 <= k < |lists| ==> m in Accepted(lists[k])
    ensures (forall turns :: Run(w, turns, m, home).reader != Done(false)) <==> |lists| <= 2
  {
    hide Run, Accepted, Load, Scripts, Undisturbed;
    if |lists| <= 2 {
      forall turns ensures Run(w, turns, m, home).reader != Done(false) {
        if Run(w, turns, m, home).reader.Done? {
          var k := LookupAnswersForOneList(w, turns, lists, m, home);
        }
      }
    } else {
      var turns := OvertakenMisses(w, lists, m, home);
    }
  }

  lemma {:induction false} OneComputer(m: Mac) returns (list: seq<Computer>)
    ensures Accepted(list) == [m]
  {
    hide ParseMac, FormatMac;
    var c := Computer(FormatMac(m), "", true);
    list := [c];
    MacRoundTrip(m);
    NoneAccepted();
    DedupStep([], c);
    assert [] + [c] == list;
  }

  /** A lookup that two rebuilds overtake misses an address that every complete table
      contains, also when both are rebuilds from one list that has it. */
  lemma {:induction false} TwoRebuildsCanFoolALookup(m: Mac, home: Mac -> Index)
    returns (w: World, turns: seq<Turn>, list: seq<Computer>)
    ensures Fresh(w, [list, list, list], home) && m in Accepted(list)
    ensures Lookup(Load(list, home), m, home(m), SLOTS) && Run(w, turns, m, home).reader == Done(false)
  {
    hide Run, Load, Lookup, Holds, Accepted, Scripts;
    list := OneComputer(m);
    var t, lists := Load(list, home), [list, list, list];
    LoadHolds(list, home);
    LookupAnswersMembership(t, Accepted(list), m, home);
    w := World(t, t, 0, Scripts(lists[1..], home), Starting);
    turns := OvertakenMisses(w, lists, m, home);
  }
}
