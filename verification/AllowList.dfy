/** The allow-list codec: serialize, parse and the stored blob
    (src/dhcp/DhcpAllowedList.cpp:78-147, src/core/Config.cpp:474-495). */
module AllowList {
  import opened Net
  import opened AllowText
  import opened TextLines

  // ----- One entry

  function EntryText(c: Computer): string
    requires ParseMac(c.mac).Some?
  {
    FormatMac(ParseMac(c.mac).value) + "|" + SanitizeName(c.name) + "|" + if c.enabled then "1" else "0"
  }

  function ParseLine(raw: string): Option<Computer> {
    var line := Trim(raw);
    var sep := Find(line, '|');
    if line == "" then None
    else
      var mac := NormalizeMac(line[..sep]);
      var c := if sep == |line| then Computer(mac, "", true)
               else ParseRest(mac, line[sep + 1..]);
      if mac == "" then None else Some(c)
  }

  function ParseRest(mac: string, rest: string): Computer {
    var sep := Find(rest, '|');
    if sep == |rest| then Computer(mac, SanitizeName(rest), true)
    else Computer(mac, SanitizeName(rest[..sep]), Trim(rest[sep + 1..]) != "0")
  }

  /** What one entry becomes when saved and loaded. */
  function Stored(c: Computer): Computer {
    Computer(NormalizeMac(c.mac), SanitizeName(SanitizeName(c.name)), c.enabled)
  }

  lemma {:induction false} EntryTextShape(c: Computer)
    requires ParseMac(c.mac).Some?
    ensures var t := EntryText(c); t != "" && Trimmed(t) && '\n' !in t && |t| <= 40
  {
    MacRoundTrip(ParseMac(c.mac).value);
    SanitizedName(c.name);
    var m, t := FormatMac(ParseMac(c.mac).value), EntryText(c);
    assert t[0] == m[0];
  }

  /** A written line reads back as its entry. */
  lemma {:induction false} LineRoundTrip(c: Computer)
    requires ParseMac(c.mac).Some?
    ensures ParseLine(EntryText(c)) == Some(Stored(c))
  {
    hide FormatMac, ParseMac, SanitizeName, Trimmed;
    var m := ParseMac(c.mac).value;
    var mac, name, flag := FormatMac(m), SanitizeName(c.name), if c.enabled then "1" else "0";
    var rest := name + ['|'] + flag;
    var line := mac + ['|'] + rest;
    MacRoundTrip(m);
    SanitizedName(c.name);
    EntryTextShape(c);
    assert EntryText(c) == line;
    TrimKeepsTrimmed(line);
    FindInConcat(mac, '|', rest);
    assert line[..|mac|] == mac && line[|mac| + 1..] == rest;
    assert '|' !in name;
    FindInConcat(name, '|', flag);
    assert rest[..|name|] == name && rest[|name| + 1..] == flag;
    FlagReads(c.enabled);
  }

  lemma {:induction false} FlagReads(enabled: bool)
    ensures Trim(if enabled then "1" else "0") != "0" <==> enabled
  {
  }

  // ----- Lines nobody saved in this form

  /** What a line says, by its fields: without a third one, as an older firmware wrote it,
      the entry is enabled; with one it is disabled only by "0". */
  lemma {:induction false} LineReads(m: string, n: string, f: string)
    requires ParseMac(m).Some? && '|' !in n
    ensures var mac := FormatMac(ParseMac(m).value);
      && ParseLine(m) == Some(Computer(mac, "", true))
      && ParseLine(m + "|" + n) == Some(Computer(mac, SanitizeName(n), true))
      && ParseLine(m + "|" + n + "|" + f) == Some(Computer(mac, SanitizeName(n), Trim(f) != "0"))
  {
    hide ParseMac, FormatMac, SanitizeName, Trim, TrimLeft, TrimRight;
    BareLine(m);
    assert m + "|" + n + "|" + f == m + "|" + (n + "|" + f);
    LineWithBar(m, n);
    LineWithBar(m, n + "|" + f);
    BareRest(FormatMac(ParseMac(m).value), n);
    RestWithFlag(FormatMac(ParseMac(m).value), n, f);
  }

  lemma {:induction false} BareLine(m: string)
    requires ParseMac(m).Some?
    ensures ParseLine(m) == Some(Computer(FormatMac(ParseMac(m).value), "", true))
  {
    hide ParseMac, FormatMac, Trim;
    var line := Trim(m);
    MacOfTrim(m);
    if line == "" { NoMacInNothing(); }
    MacHasNoBar(line);
    FindNone(line, '|');
    assert line[..|line|] == line;
  }

  lemma {:induction false} NoMacInNothing()
    ensures ParseMac("") == None
  {
  }

  /** A line with a bar: the address before it, the rest with its end trimmed behind it. */
  lemma {:induction false} LineWithBar(m: string, rest: string)
    requires ParseMac(m).Some?
    ensures ParseLine(m + "|" + rest) == Some(ParseRest(FormatMac(ParseMac(m).value), TrimRight(rest)))
  {
    hide ParseMac, FormatMac, Trim, TrimLeft, TrimRight, SanitizeName, ParseRest;
    var mac, end := TrimLeft(m), TrimRight(rest);
    var line := mac + ['|'] + end;
    TrimAroundBar(m, rest);
    assert Trim(m + "|" + rest) == line;
    MacOfTrimLeft(m);
    MacHasNoBar(mac);
    FindInConcat(mac, '|', end);
    assert line[..|mac|] == mac && line[|mac| + 1..] == end;
  }

  lemma {:induction false} BareRest(mac: string, n: string)
    requires '|' !in n
    ensures ParseRest(mac, TrimRight(n)) == Computer(mac, SanitizeName(n), true)
  {
    hide Trim, Cleaned;
    TrimRightPart(n);
    TrimOfTrimRight(n);
    FindNone(TrimRight(n), '|');
  }

  lemma {:induction false} RestWithFlag(mac: string, n: string, f: string)
    requires '|' !in n
    ensures ParseRest(mac, TrimRight(n + "|" + f)) == Computer(mac, SanitizeName(n), Trim(f) != "0")
  {
    hide Trim, SanitizeName;
    var left := n + ['|'];
    TrimRightAfter(left, f);
    var rest := left + TrimRight(f);
    FindInConcat(n, '|', TrimRight(f));
    assert rest[..|n|] == n && rest[|n| + 1..] == TrimRight(f);
    TrimOfTrimRight(f);
  }

  /** A line whose first field is no address is dropped, whatever follows. */
  lemma {:induction false} DamagedLine(m: string, rest: string)
    requires ParseMac(m) == None && '|' !in m
    ensures ParseLine(m) == None && ParseLine(m + "|" + rest) == None
  {
    hide ParseMac, Trim, TrimLeft, TrimRight, SanitizeName, ParseRest;
    MacOfTrim(m);
    TrimIsTrimmed(m);
    FindNone(Trim(m), '|');
    assert Trim(m)[..|Trim(m)|] == Trim(m);
    var mac, end := TrimLeft(m), TrimRight(rest);
    var line := mac + ['|'] + end;
    TrimAroundBar(m, rest);
    assert Trim(m + "|" + rest) == line;
    MacOfTrimLeft(m);
    TrimLeftChars(m);
    FindInConcat(mac, '|', end);
    assert line[..|mac|] == mac;
  }

  lemma {:induction false} TrimLeftChars(s: string)
    ensures forall c :: c in TrimLeft(s) ==> c in s
  {
    TrimLeftPart(s);
  }

  // ----- The list

  /** The first entries with a readable address, at most `room` of them. */
  function Kept(list: seq<Computer>, room: nat): seq<Computer> {
    if list == [] || room == 0 then []
    else if ParseMac(list[0].mac).None? then Kept(list[1..], room)
    else [list[0]] + Kept(list[1..], room - 1)
  }

  lemma {:induction false} KeptParses(list: seq<Computer>, room: nat)
    ensures |Kept(list, room)| <= room
    ensures forall c :: c in Kept(list, room) ==> ParseMac(c.mac).Some? && c in list
  {
    if list != [] && room > 0 {
      KeptParses(list[1..], if ParseMac(list[0].mac).None? then room else room - 1);
    }
  }

  function Texts(cs: seq<Computer>): (r: seq<string>)
    requires forall c :: c in cs ==> ParseMac(c.mac).Some?
    ensures |r| == |cs| && forall i :: 0 <= i < |cs| ==> r[i] == EntryText(cs[i])
  {
    seq(|cs|, i requires 0 <= i < |cs| => EntryText(cs[i]))
  }

  function Serialize(list: seq<Computer>): string {
    KeptParses(list, MAX_ENTRIES);
    Join(Texts(Kept(list, MAX_ENTRIES)), '\n')
  }

  /** The entries of the lines, at most `room` of them. */
  function Collect(lines: seq<string>, room: nat): seq<Computer> {
    if lines == [] || room == 0 then []
    else match ParseLine(lines[0])
      case None => Collect(lines[1..], room)
      case Some(c) => [c] + Collect(lines[1..], room - 1)
  }

  function Parse(text: string): seq<Computer> {
    Collect(Lines(text), MAX_ENTRIES)
  }

  function StoredAll(cs: seq<Computer>): (r: seq<Computer>)
    ensures |r| == |cs| && forall i :: 0 <= i < |cs| ==> r[i] == Stored(cs[i])
  {
    seq(|cs|, i requires 0 <= i < |cs| => Stored(cs[i]))
  }

  // ----- The loops

  method WriteEntry(before: string, c: Computer, m: Mac) returns (out: string)
    requires ParseMac(c.mac) == Some(m)
    ensures out == (if before == "" then "" else before + "\n") + EntryText(c)
  {
    out := before;
    if out != "" { out := out + "\n"; }
    out := out + FormatMac(m);
    out := out + "|";
    out := out + SanitizeName(c.name);
    out := out + "|";
    out := out + if c.enabled then "1" else "0";
  }

  /** `done` is what the first entries contribute, `rest` is still to be read. */
  ghost predicate Written(list: seq<Computer>, done: seq<Computer>, rest: seq<Computer>) {
    && |done| <= MAX_ENTRIES && (forall c :: c in done ==> ParseMac(c.mac).Some?)
    && done + Kept(rest, MAX_ENTRIES - |done|) == Kept(list, MAX_ENTRIES)
  }

  lemma {:induction false} WrittenStep(list: seq<Computer>, done: seq<Computer>, rest: seq<Computer>)
    requires Written(list, done, rest) && rest != [] && |done| < MAX_ENTRIES
    ensures Written(list, if ParseMac(rest[0].mac).None? then done else done + [rest[0]], rest[1..])
  {
    hide ParseMac;
    if ParseMac(rest[0].mac).Some? {
      var more := Kept(rest[1..], MAX_ENTRIES - |done| - 1);
      assert done + ([rest[0]] + more) == (done + [rest[0]]) + more;
    }
  }

  method WriteList(list: seq<Computer>) returns (out: string)
    ensures out == Serialize(list)
  {
    hide ParseMac, EntryText, Join, Kept;
    out := "";
    var written := 0;
    ghost var done: seq<Computer> := [];
    assert list[0..] == list && Written(list, done, list);
    assert Join([], '\n') == "" by { EmptyList(); }
    for i := 0 to |list|
      invariant written == |done| && Written(list, done, list[i..])
      invariant out == Join(Texts(done), '\n') && (out == "" <==> done == [])
    {
      if written >= MAX_ENTRIES { break; }
      WrittenStep(list, done, list[i..]);
      assert list[i..][0] == list[i] && list[i..][1..] == list[i + 1..];
      var m := ReadMac(list[i].mac);
      if m.None? { continue; }
      AppendText(done, list[i]);
      out := WriteEntry(out, list[i], m.value);
      written := written + 1;
      done := done + [list[i]];
    }
    AllWritten(list, done);
  }

  lemma {:induction false} EmptyList()
    ensures Join([], '\n') == "" && Kept([], 0) == []
  {
  }

  lemma {:induction false} AllWritten(list: seq<Computer>, done: seq<Computer>)
    requires Written(list, done, []) || (|done| == MAX_ENTRIES && exists rest :: Written(list, done, rest))
    ensures done == Kept(list, MAX_ENTRIES)
  {
  }

  lemma {:induction false} AppendText(done: seq<Computer>, c: Computer)
    requires (forall d :: d in done ==> ParseMac(d.mac).Some?) && ParseMac(c.mac).Some?
    ensures var t := Join(Texts(done + [c]), '\n');
      t == (if done == [] then "" else Join(Texts(done), '\n') + "\n") + EntryText(c) && t != ""
  {
    var all := Texts(done + [c]);
    EntryTextShape(c);
    assert all[..|done|] == Texts(done);
  }

  /** The lines still to be read at `pos`; past the end there are none. */
  function Remaining(text: string, pos: nat): seq<string> {
    if pos <= |text| then Lines(text[pos..]) else []
  }

  lemma {:induction false} RemainingStep(text: string, pos: nat)
    requires pos <= |text|
    ensures var n := Find(text[pos..], '\n');
      Remaining(text, pos) == [text[pos..][..n]] + Remaining(text, pos + n + 1)
  {
    var n := Find(text[pos..], '\n');
    if n < |text[pos..]| {
      assert text[pos..][n + 1..] == text[pos + n + 1..];
    } else {
      assert text[pos..][..n] == text[pos..];
    }
  }

  lemma {:induction false} CollectStep(out: seq<Computer>, line: string, rest: seq<string>, room: nat)
    requires room > 0
    ensures out + Collect([line] + rest, room) ==
      match ParseLine(line) case None => out + Collect(rest, room) case Some(c) => (out + [c]) + Collect(rest, room - 1)
  {
    hide ParseLine;
    assert ([line] + rest)[1..] == rest;
  }

  method ReadList(text: string) returns (out: seq<Computer>)
    ensures out == Parse(text)
  {
    hide Collect, ParseLine, Parse, Remaining, Find;
    out := [];
    var pos := 0;
    WholeText(text);
    while pos <= |text| && |out| < MAX_ENTRIES
      invariant 0 <= pos <= |text| + 1 && |out| <= MAX_ENTRIES
      invariant out + Collect(Remaining(text, pos), MAX_ENTRIES - |out|) == Parse(text)
      decreases |text| + 1 - pos
    {
      var n := Find(text[pos..], '\n');
      var line := text[pos..][..n];
      RemainingStep(text, pos);
      pos := pos + n + 1;
      CollectStep(out, line, Remaining(text, pos), MAX_ENTRIES - |out|);
      var c := ParseLine(line);
      if c.Some? { out := out + [c.value]; }
    }
    if pos > |text| { PastTheEnd(text, pos); }
    NothingLeft(Remaining(text, pos), MAX_ENTRIES - |out|);
  }

  lemma {:induction false} PastTheEnd(text: string, pos: nat)
    requires pos > |text|
    ensures Remaining(text, pos) == []
  {
  }

  lemma {:induction false} WholeText(text: string)
    ensures [] + Collect(Remaining(text, 0), MAX_ENTRIES) == Parse(text)
  {
  }

  lemma {:induction false} NothingLeft(lines: seq<string>, room: nat)
    requires lines == [] || room == 0
    ensures Collect(lines, room) == []
  {
  }

  // ----- The laws

  lemma {:induction false} CollectTexts(cs: seq<Computer>, room: nat)
    requires |cs| <= room && forall c :: c in cs ==> ParseMac(c.mac).Some?
    ensures Collect(Texts(cs), room) == StoredAll(cs)
  {
    hide ParseLine, EntryText, ParseMac, Stored;
    if cs != [] {
      LineRoundTrip(cs[0]);
      assert Texts(cs)[1..] == Texts(cs[1..]);
      CollectTexts(cs[1..], room - 1);
      assert StoredAll(cs) == [Stored(cs[0])] + StoredAll(cs[1..]);
    }
  }

  /** Loading what was saved gives the first 25 readable entries, each with its
      address in one spelling and its name settled. */
  lemma {:induction false} ParseSerialize(list: seq<Computer>)
    ensures Parse(Serialize(list)) == StoredAll(Kept(list, MAX_ENTRIES))
  {
    var kept := Kept(list, MAX_ENTRIES);
    KeptParses(list, MAX_ENTRIES);
    if kept == [] {
      FindNone("", '\n');
      assert Lines("") == [""];
      assert ParseLine("") == None;
    } else {
      forall l | l in Texts(kept) ensures '\n' !in l {
        var i :| 0 <= i < |kept| && Texts(kept)[i] == l;
        EntryTextShape(kept[i]);
      }
      SplitOfJoin(Texts(kept), '\n');
      CollectTexts(kept, MAX_ENTRIES);
    }
  }

  /** The entries of the readable lines, in order. */
  function Readable(lines: seq<string>): seq<Computer> {
    if lines == [] then []
    else (match ParseLine(lines[0]) case Some(c) => [c] case None => []) + Readable(lines[1..])
  }

  lemma {:induction false} CollectReads(lines: seq<string>, room: nat)
    ensures var all := Readable(lines); Collect(lines, room) == if |all| > room then all[..room] else all
  {
    hide ParseLine;
    if lines != [] && room > 0 {
      CollectReads(lines[1..], room - if ParseLine(lines[0]).Some? then 1 else 0);
    }
  }

  /** Whatever the lines of a text are, loading it gives the entries of the first 25
      readable ones. */
  lemma {:induction false} ParseReadsLines(lines: seq<string>)
    requires lines != [] && forall l :: l in lines ==> '\n' !in l
    ensures var all := Readable(lines);
      Parse(Join(lines, '\n')) == if |all| > MAX_ENTRIES then all[..MAX_ENTRIES] else all
  {
    hide ParseLine;
    SplitOfJoin(lines, '\n');
    CollectReads(lines, MAX_ENTRIES);
  }

  /** A line of the older form, an address and a name. */
  function OldLine(c: Computer): string { c.mac + "|" + c.name }

  function OldLines(cs: seq<Computer>): (r: seq<string>)
    ensures |r| == |cs| && forall i :: 0 <= i < |cs| ==> r[i] == OldLine(cs[i])
  {
    seq(|cs|, i requires 0 <= i < |cs| => OldLine(cs[i]))
  }

  lemma {:induction false} OldLinesRead(cs: seq<Computer>)
    requires forall c :: c in cs ==> ParseMac(c.mac).Some? && '|' !in c.name
    ensures var all := Readable(OldLines(cs));
      |all| == |cs| && forall i :: 0 <= i < |cs| ==>
        all[i] == Computer(FormatMac(ParseMac(cs[i].mac).value), SanitizeName(cs[i].name), true)
  {
    hide ParseLine, ParseMac, FormatMac, SanitizeName, OldLine;
    if cs != [] {
      OldLineReads(cs[0]);
      OldLinesRead(cs[1..]);
      assert OldLines(cs)[1..] == OldLines(cs[1..]);
    }
  }

  lemma {:induction false} OldLineReads(c: Computer)
    requires ParseMac(c.mac).Some? && '|' !in c.name
    ensures ParseLine(OldLine(c)) == Some(Computer(FormatMac(ParseMac(c.mac).value), SanitizeName(c.name), true))
  {
    LineReads(c.mac, c.name, "");
  }

  /** A list that an older firmware saved is loaded with every entry enabled. */
  lemma {:induction false} OldListIsEnabled(cs: seq<Computer>)
    requires 0 < |cs| <= MAX_ENTRIES
    requires forall c :: c in cs ==>
      ParseMac(c.mac).Some? && '|' !in c.name && '\n' !in c.mac && '\n' !in c.name
    ensures var list := Parse(Join(OldLines(cs), '\n'));
      |list| == |cs| && forall i :: 0 <= i < |cs| ==>
        list[i] == Computer(FormatMac(ParseMac(cs[i].mac).value), SanitizeName(cs[i].name), true)
  {
    hide Parse, Readable, ParseMac, FormatMac, SanitizeName;
    OldLinesRead(cs);
    forall l | l in OldLines(cs) ensures '\n' !in l {
      var i :| 0 <= i < |cs| && OldLines(cs)[i] == l;
    }
    ParseReadsLines(OldLines(cs));
  }

  lemma {:induction false} StoredIsSettled(c: Computer)
    requires ParseMac(c.mac).Some?
    ensures Stored(Stored(c)) == Stored(c) && ParseMac(Stored(c).mac) == ParseMac(c.mac)
  {
    MacRoundTrip(ParseMac(c.mac).value);
    NameSettlesAfterTwo(c.name);
  }

  lemma {:induction false} KeepsAll(cs: seq<Computer>, room: nat)
    requires |cs| <= room && forall c :: c in cs ==> ParseMac(c.mac).Some?
    ensures Kept(cs, room) == cs
  {
    if cs != [] { KeepsAll(cs[1..], room - 1); }
  }

  /** Saving and loading what was loaded changes nothing. */
  lemma {:induction false} SecondSaveChangesNothing(list: seq<Computer>)
    ensures var loaded := Parse(Serialize(list));
      Parse(Serialize(loaded)) == loaded && |loaded| <= MAX_ENTRIES
  {
    var kept := Kept(list, MAX_ENTRIES);
    KeptParses(list, MAX_ENTRIES);
    var loaded := StoredAll(kept);
    ParseSerialize(list);
    forall i | 0 <= i < |kept|
      ensures Stored(loaded[i]) == loaded[i] && ParseMac(loaded[i].mac).Some?
    {
      StoredIsSettled(kept[i]);
    }
    KeepsAll(loaded, MAX_ENTRIES);
    ParseSerialize(loaded);
  }

  lemma {:induction false} JoinBudget(cs: seq<Computer>)
    requires forall c :: c in cs ==> ParseMac(c.mac).Some?
    ensures |Join(Texts(cs), '\n')| <= if cs == [] then 0 else 41 * |cs| - 1
  {
    if cs != [] {
      var init, c := cs[..|cs| - 1], cs[|cs| - 1];
      assert cs == init + [c];
      JoinBudget(init);
      AppendText(init, c);
      EntryTextShape(c);
    }
  }

  /** A serialized list always fits the byte budget. */
  lemma {:induction false} FitsTheBudget(list: seq<Computer>)
    ensures |Serialize(list)| <= MAX_BYTES
  {
    KeptParses(list, MAX_ENTRIES);
    JoinBudget(Kept(list, MAX_ENTRIES));
  }

  // ----- The stored blob

  /** The settings store: it opens, its write or erase succeeds, the commit makes that
      last, and the stored cell can be read back. */
  datatype Nvs = Nvs(opens: bool, writes: bool, commits: bool, readable: bool) {
    predicate Takes() { opens && writes && commits }
  }

  /** setAllowedComputers: an empty text erases the cell and ignores how that went, a
      long one is refused; how the commit went is ignored in both cases. */
  function StoreText(cell: Option<string>, text: string, nvs: Nvs): (Option<string>, bool) {
    if text == "" then (if nvs.Takes() then None else cell, nvs.opens)
    else if |text| > MAX_BYTES then (cell, false)
    else (if nvs.Takes() then Some(text) else cell, nvs.opens && nvs.writes)
  }

  /** getAllowedComputers: no cell and an unreadable one are an empty text. */
  function LoadText(cell: Option<string>, nvs: Nvs): string {
    if cell.Some? && nvs.readable then cell.value else ""
  }

  /** A serialized list is never refused for its size: the setter answers false only
      when the store fails it, and then changes nothing. What the reader then gets is
      the list if the change took place, else the list of before, and none from an
      unreadable cell; so an accepted save brings back the list if and only if it took
      place and can be read, unless what is read is the same anyway. */
  lemma {:induction false} SurvivesStorage(cell: Option<string>, list: seq<Computer>, nvs: Nvs)
    ensures var (after, ok) := StoreText(cell, Serialize(list), nvs);
      var saved, loaded := StoredAll(Kept(list, MAX_ENTRIES)), Parse(LoadText(after, nvs));
      var takes := nvs.opens && nvs.writes && nvs.commits;
      && (ok <==> nvs.opens && (nvs.writes || Serialize(list) == ""))
      && (!ok ==> after == cell)
      && loaded == (if !nvs.readable then [] else if takes then saved else Parse(LoadText(cell, nvs)))
      && (saved != [] && Parse(LoadText(cell, nvs)) != saved ==> (loaded == saved <==> takes && nvs.readable))
  {
    hide Parse, Serialize, Kept;
    FitsTheBudget(list);
    ParseSerialize(list);
    NothingParsed();
  }

  /** A text over the budget, however it came about, is refused and changes nothing. */
  lemma {:induction false} LongTextIsRefused(cell: Option<string>, text: string, nvs: Nvs)
    requires |text| > 1024
    ensures StoreText(cell, text, nvs) == (cell, false)
  {
  }

  lemma {:induction false} NothingParsed()
    ensures Parse("") == []
  {
  }

  /** A list that was to be emptied and is still there after an accepted save. */
  lemma {:induction false} FailedEraseGoesUnnoticed(text: string)
    ensures var nvs := Nvs(true, false, true, true);
      StoreText(Some(text), Serialize([]), nvs) == (Some(text), true) && LoadText(Some(text), nvs) == text
  {
  }
}
