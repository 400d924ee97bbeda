/** IPv6 addresses as text: the printer of src/core/IpText.h:47-98 in the shape of
    section 4 of RFC 5952, and a reader of the forms in section 2.2 of RFC 4291. */
module Ip6Text {
  import opened Net
  import opened TextLines
  import opened HexDigits

  type Group = g: int | 0 <= g < 0x1_0000

  /** Groups of an address; always eight. */
  type Groups = seq<Group>

  // ----- Groups and bytes

  function GroupsOf(bytes: seq<Byte>): (gs: Groups)
    requires |bytes| == 16
    ensures |gs| == 8 && forall i :: 0 <= i < 8 ==> gs[i] == Pair(bytes[2 * i], bytes[2 * i + 1])
  {
    seq(8, i requires 0 <= i < 8 => Pair(bytes[2 * i], bytes[2 * i + 1]))
  }

  function Pair(hi: Byte, lo: Byte): Group {
    var h: int := hi;
    h * 256 + lo
  }

  function BytesOf(gs: Groups): seq<Byte> {
    if gs == [] then [] else [gs[0] / 256, gs[0] % 256] + BytesOf(gs[1..])
  }

  lemma {:induction false} PairSplits(hi: Byte, lo: Byte)
    ensures Pair(hi, lo) / 256 == hi && Pair(hi, lo) % 256 == lo
  {
  }

  lemma {:induction false} BytesOfGroups(bytes: seq<Byte>, from: nat)
    requires |bytes| == 16 && from <= 8
    ensures BytesOf(GroupsOf(bytes)[from..]) == bytes[2 * from..]
    decreases 8 - from
  {
    hide Pair;
    if from < 8 {
      BytesOfGroups(bytes, from + 1);
      var gs := GroupsOf(bytes);
      PairSplits(bytes[2 * from], bytes[2 * from + 1]);
      assert gs[from..][1..] == gs[from + 1..] && gs[from..][0] == gs[from];
      assert bytes[2 * from..] == [bytes[2 * from], bytes[2 * from + 1]] + bytes[2 * (from + 1)..];
    }
  }

  // ----- One group

  /** `%x`: lower case, no leading zeros. */
  function HexOf(g: nat): string {
    if g < 16 then [HexChar(g)] else HexOf(g / 16) + [HexChar(g % 16)]
  }

  function HexValue(s: string): int {
    if s == "" then 0 else HexValue(s[..|s| - 1]) * 16 + HexNibble(s[|s| - 1])
  }

  predicate HexText(s: string) {
    1 <= |s| <= 4 && forall i :: 0 <= i < |s| ==> HexNibble(s[i]) >= 0
  }

  lemma {:induction false} HexReads(g: nat, digits: nat)
    requires 1 <= digits <= 4 && g < Sixteens(digits)
    ensures HexText(HexOf(g)) && |HexOf(g)| <= digits && HexValue(HexOf(g)) == g && ':' !in HexOf(g)
  {
    HexCharReads(g % 16);
    var s := HexOf(g);
    if g < 16 {
      assert s[..0] == "";
      assert HexValue(s[..0]) == 0;
    } else {
      HexReads(g / 16, digits - 1);
      assert s[..|s| - 1] == HexOf(g / 16);
    }
  }

  function Sixteens(n: nat): nat {
    if n == 0 then 1 else 16 * Sixteens(n - 1)
  }

  lemma {:induction false} GroupReads(g: Group)
    ensures HexText(HexOf(g)) && HexValue(HexOf(g)) == g && ':' !in HexOf(g)
  {
    assert Sixteens(4) == 0x1_0000;
    HexReads(g, 4);
  }

  function Hexes(gs: Groups): (r: seq<string>)
    ensures |r| == |gs| && forall i :: 0 <= i < |gs| ==> r[i] == HexOf(gs[i])
  {
    seq(|gs|, i requires 0 <= i < |gs| => HexOf(gs[i]))
  }

  function Colons(gs: Groups): string { Join(Hexes(gs), ':') }

  // ----- The run that becomes "::"

  ghost predicate ZeroRun(gs: Groups, start: int, len: int) {
    0 <= start && 1 <= len && start + len <= |gs| && forall i :: start <= i < start + len ==> gs[i] == 0
  }

  /** The leftmost longest run of two or more zero groups, or none. */
  ghost predicate IsGap(gs: Groups, start: int, len: int) {
    if start < 0 then
      start == -1 && forall s, n :: ZeroRun(gs, s, n) ==> n < 2
    else
      && len >= 2 && ZeroRun(gs, start, len)
      && forall s, n :: ZeroRun(gs, s, n) ==> n <= len && (n == len ==> start <= s)
  }

  /** Every run inside `gs[..upTo]` is no longer than the best, and not before it
      when as long. */
  ghost predicate BestUpTo(gs: Groups, upTo: int, start: int, len: int) {
    && len >= 0 && (len > 0 ==> ZeroRun(gs, start, len) && start + len <= upTo)
    && forall s, n :: ZeroRun(gs, s, n) && s + n <= upTo ==> n <= len && (n == len ==> start <= s)
  }

  method FindGap(gs: Groups) returns (bestStart: int, bestLen: int)
    requires |gs| == 8
    ensures IsGap(gs, bestStart, bestLen)
  {
    bestStart, bestLen := -1, 0;
    var runStart := -1;
    for i := 0 to 9
      invariant -1 <= runStart < i && (i == 9 ==> runStart == -1)
      invariant runStart >= 0 ==> ZeroRun(gs, runStart, i - runStart)
      invariant BestUpTo(gs, if runStart >= 0 then runStart else if i == 9 then 8 else i, bestStart, bestLen)
      invariant runStart < 0 ==> i == 0 || i == 9 || gs[i - 1] != 0
      invariant runStart > 0 ==> gs[runStart - 1] != 0
    {
      var zero := i < 8 && gs[i] == 0;
      if zero {
        if runStart < 0 { runStart := i; }
        continue;
      }
      if runStart >= 0 {
        var len := i - runStart;
        EndOfRun(gs, runStart, i, bestStart, bestLen);
        if len > bestLen { bestLen, bestStart := len, runStart; }
        runStart := -1;
      }
      if i < 8 { NonZero(gs, i, bestStart, bestLen); }
    }
    if bestLen < 2 { bestStart := -1; }
  }

  /** A finished run competes with the best so far. */
  lemma {:induction false} EndOfRun(gs: Groups, runStart: int, i: int, start: int, len: int)
    requires 0 <= runStart < i <= |gs| && ZeroRun(gs, runStart, i - runStart)
    requires BestUpTo(gs, runStart, start, len)
    requires runStart > 0 ==> gs[runStart - 1] != 0
    ensures if i - runStart > len then BestUpTo(gs, i, runStart, i - runStart) else BestUpTo(gs, i, start, len)
  {
  }

  lemma {:induction false} NonZero(gs: Groups, i: int, start: int, len: int)
    requires 0 <= i < |gs| && gs[i] != 0 && BestUpTo(gs, i, start, len)
    ensures BestUpTo(gs, i + 1, start, len)
  {
  }

  // ----- The text

  /** Groups joined by colons, with the gap as "::". */
  function Render(gs: Groups, start: int, len: int): string
    requires start >= 0 ==> 0 <= len && start + len <= |gs|
  {
    if start < 0 then Colons(gs) else Colons(gs[..start]) + "::" + Colons(gs[start + len..])
  }

  lemma {:induction false} ColonsAppend(gs: Groups, g: Group)
    ensures Colons(gs + [g]) == (if gs == [] then "" else Colons(gs) + ":") + HexOf(g)
    ensures Colons(gs + [g])[|Colons(gs + [g])| - 1] != ':'
  {
    var all := Hexes(gs + [g]);
    assert all[..|gs|] == Hexes(gs);
    GroupReads(g);
    var h := HexOf(g);
    assert h[|h| - 1] in h;
  }

  lemma {:induction false} ColonsEnd(gs: Groups)
    ensures gs == [] ==> Colons(gs) == ""
    ensures gs != [] ==> Colons(gs) != "" && Colons(gs)[|Colons(gs)| - 1] != ':'
  {
  }

  /** What is written after the groups before `i`. */
  function Progress(gs: Groups, i: int, start: int, len: int): string
    requires 0 <= i <= |gs| && (start >= 0 ==> 0 <= len && start + len <= |gs|)
  {
    if start < 0 || i <= start then Colons(gs[..i])
    else Colons(gs[..start]) + "::" + if i <= start + len then "" else Colons(gs[start + len..i])
  }

  /** One more group after `out`, with a colon unless one is there. */
  function PutGroup(out: string, g: Group): string {
    (if out != "" && out[|out| - 1] != ':' then out + ":" else out) + HexOf(g)
  }

  lemma {:induction false} PutGroupAppends(gs: Groups, g: Group)
    ensures Colons(gs + [g]) == PutGroup(Colons(gs), g)
  {
    hide Colons, HexOf;
    ColonsEnd(gs);
    ColonsAppend(gs, g);
  }

  lemma {:induction false} PutGroupAfterGap(head: string, gs: Groups, g: Group)
    ensures head + "::" + Colons(gs + [g]) == PutGroup(head + "::" + Colons(gs), g)
  {
    hide Colons, HexOf;
    ColonsEnd(gs);
    ColonsAppend(gs, g);
    var out := head + "::" + Colons(gs);
    if gs == [] {
      assert out == head + "::" && Colons(gs + [g]) == HexOf(g);
    } else {
      assert out[|out| - 1] == Colons(gs)[|Colons(gs)| - 1];
      assert head + "::" + (Colons(gs) + ":" + HexOf(g)) == out + ":" + HexOf(g);
    }
  }

  lemma {:induction false} ProgressStep(gs: Groups, i: int, start: int, len: int)
    requires 0 <= i < |gs| && i != start
    requires start >= 0 ==> 2 <= len && start + len <= |gs| && (i < start || start + len <= i)
    ensures Progress(gs, i + 1, start, len) == PutGroup(Progress(gs, i, start, len), gs[i])
  {
    hide Colons, PutGroup;
    if start < 0 || i < start {
      PutGroupAppends(gs[..i], gs[i]);
      assert gs[..i + 1] == gs[..i] + [gs[i]];
    } else {
      var after := gs[start + len..i];
      PutGroupAfterGap(Colons(gs[..start]), after, gs[i]);
      assert gs[start + len..i + 1] == after + [gs[i]];
      if after == [] { ColonsEnd(after); }
    }
  }

  method WriteGroups(gs: Groups, start: int, len: int) returns (out: string)
    requires |gs| == 8 && IsGap(gs, start, len)
    ensures out == Render(gs, start, len)
  {
    hide Colons, HexOf;
    out := "";
    ColonsEnd(gs[..0]);
    var i := 0;
    while i < 8
      invariant 0 <= i <= 8 && (start >= 0 ==> i <= start || start + len <= i)
      invariant out == Progress(gs, i, start, len)
    {
      if i == start {
        out := out + "::";
        i := i + len;
        assert Colons(gs[..start]) + "::" + "" == Colons(gs[..start]) + "::";
        continue;
      }
      ProgressStep(gs, i, start, len);
      if out != "" && out[|out| - 1] != ':' { out := out + ":"; }
      out := out + HexOf(gs[i]);
      i := i + 1;
    }
    assert gs[..8] == gs;
    if start >= 0 {
      assert gs[start + len..8] == gs[start + len..];
      ColonsEnd(gs[start + len..]);
    }
  }

  // ----- The reader

  /** Groups separated by colons; nothing is no group. */
  function ReadGroups(s: string): Option<Groups> {
    if s == "" then Some([]) else ReadAll(Split(s, ':'))
  }

  function ReadAll(parts: seq<string>): Option<Groups> {
    if parts == [] then Some([])
    else
      match ReadAll(parts[..|parts| - 1])
      case None => None
      case Some(gs) =>
        var p := parts[|parts| - 1];
        if HexText(p) && 0 <= HexValue(p) < 0x1_0000 then Some(gs + [HexValue(p)]) else None
  }

  /** The first "::", or the length. */
  function FindDouble(s: string): (i: nat)
    ensures i <= |s|
    ensures i < |s| ==> i + 1 < |s| && s[i] == ':' && s[i + 1] == ':'
    ensures forall j :: 0 <= j < i && j + 1 < |s| ==> !(s[j] == ':' && s[j + 1] == ':')
  {
    if |s| < 2 then |s|
    else if s[0] == ':' && s[1] == ':' then 0
    else
      var i := FindDouble(s[1..]);
      assert forall j :: 1 <= j < 1 + i && j + 1 < |s| ==> s[j] == s[1..][j - 1] && s[j + 1] == s[1..][j];
      1 + i
  }

  /** Eight groups, or fewer on both sides of one "::" that stands for the rest. */
  function Read(s: string): Option<Groups> {
    var i := FindDouble(s);
    if i == |s| then
      match ReadGroups(s)
      case None => None
      case Some(gs) => if |gs| == 8 then Some(gs) else None
    else
      match (ReadGroups(s[..i]), ReadGroups(s[i + 2..]))
      case (Some(a), Some(b)) => if |a| + |b| < 8 then Some(a + Zeros(8 - |a| - |b|) + b) else None
      case _ => None
  }

  function Zeros(n: nat): (r: Groups)
    ensures |r| == n && forall i :: 0 <= i < n ==> r[i] == 0
  {
    seq(n, _ => 0)
  }

  // ----- Round trip

  lemma {:induction false} ReadHexes(gs: Groups)
    ensures ReadAll(Hexes(gs)) == Some(gs)
  {
    if gs != [] {
      var init, g := gs[..|gs| - 1], gs[|gs| - 1];
      ReadHexes(init);
      GroupReads(g);
      assert Hexes(gs)[..|gs| - 1] == Hexes(init);
      assert gs == init + [g];
    }
  }

  lemma {:induction false} ReadColons(gs: Groups)
    ensures ReadGroups(Colons(gs)) == Some(gs)
  {
    ColonsEnd(gs);
    if gs != [] {
      forall p | p in Hexes(gs) ensures ':' !in p {
        var i :| 0 <= i < |gs| && Hexes(gs)[i] == p;
        GroupReads(gs[i]);
      }
      SplitOfJoin(Hexes(gs), ':');
      ReadHexes(gs);
    }
  }

  ghost predicate DoubleAt(s: string, i: int) {
    0 <= i && i + 1 < |s| && s[i] == ':' && s[i + 1] == ':'
  }

  /** Joined groups hold no "::", and begin and end with a digit. */
  lemma {:induction false} ColonsHaveNoDouble(gs: Groups, i: int)
    ensures !DoubleAt(Colons(gs), i)
    ensures gs != [] ==> Colons(gs)[0] != ':'
  {
    ColonsEnd(gs);
    if gs != [] {
      var init, g := gs[..|gs| - 1], gs[|gs| - 1];
      assert gs == init + [g];
      ColonsHaveNoDouble(init, i);
      ColonsEnd(init);
      ColonsAppend(init, g);
      GroupReads(g);
      var h, c := HexOf(g), Colons(init);
      assert forall j :: 0 <= j < |h| ==> h[j] != ':' by { assert forall j :: 0 <= j < |h| ==> h[j] in h; }
      NoDoubleInAppend(c, h, i);
    }
  }

  lemma {:induction false} NoDoubleInAppend(c: string, h: string, i: int)
    requires h != "" && (forall j :: 0 <= j < |h| ==> h[j] != ':') && !DoubleAt(c, i)
    requires c != "" ==> c[|c| - 1] != ':' && c[0] != ':'
    ensures var s := (if c == "" then "" else c + ":") + h; !DoubleAt(s, i) && s[0] != ':'
  {
  }

  /** With a gap, "::" stands at one place only; without one, nowhere. */
  lemma {:induction false} OneDoubleColon(gs: Groups, start: int, len: int, i: int)
    requires |gs| == 8 && IsGap(gs, start, len)
    ensures DoubleAt(Render(gs, start, len), i) <==> start >= 0 && i == |Colons(gs[..start])|
  {
    hide Colons;
    if start < 0 {
      ColonsHaveNoDouble(gs, i);
    } else {
      var a, b := Colons(gs[..start]), Colons(gs[start + len..]);
      ColonsHaveNoDouble(gs[..start], i);
      ColonsEnd(gs[..start]);
      ColonsHaveNoDouble(gs[start + len..], i - |a| - 2);
      ColonsEnd(gs[start + len..]);
      DoubleInTheMiddle(a, b, i);
    }
  }

  lemma {:induction false} DoubleInTheMiddle(a: string, b: string, i: int)
    requires !DoubleAt(a, i) && !DoubleAt(b, i - |a| - 2)
    requires (a != "" ==> a[|a| - 1] != ':') && (b != "" ==> b[0] != ':')
    ensures DoubleAt(a + "::" + b, i) <==> i == |a|
  {
    var s := a + "::" + b;
    assert s[|a|] == ':' && s[|a| + 1] == ':';
    if 0 <= i && i + 1 < |a| {
      assert s[i] == a[i] && s[i + 1] == a[i + 1];
    } else if |a| + 2 <= i && i + 1 < |s| {
      assert s[i] == b[i - |a| - 2] && s[i + 1] == b[i + 1 - |a| - 2];
    }
  }

  /** The reader gets back the groups that were printed. */
  lemma {:induction false} ReadRendered(gs: Groups, start: int, len: int)
    requires |gs| == 8 && IsGap(gs, start, len)
    ensures Read(Render(gs, start, len)) == Some(gs)
  {
    hide Colons, ReadGroups;
    var s := Render(gs, start, len);
    var i := FindDouble(s);
    OneDoubleColon(gs, start, len, i);
    if start < 0 {
      ReadColons(gs);
    } else {
      var before, after := gs[..start], gs[start + len..];
      var at := |Colons(before)|;
      OneDoubleColon(gs, start, len, at);
      assert i == at;
      assert s[..at] == Colons(before) && s[at + 2..] == Colons(after);
      ReadColons(before);
      ReadColons(after);
      assert before + Zeros(len) + after == gs;
    }
  }

  /** The printed address is canonical and reversible: its gap is the leftmost longest
      run of two or more zero groups, "::" appears where that run was and nowhere
      else, and reading the text gives the same sixteen bytes. */
  lemma {:induction false} TextIsCanonicalAndReversible(bytes: seq<Byte>, start: int, len: int)
    requires |bytes| == 16 && IsGap(GroupsOf(bytes), start, len)
    ensures var text := Render(GroupsOf(bytes), start, len);
      && Read(text).Some? && BytesOf(Read(text).value) == bytes
      && (forall i: int :: DoubleAt(text, i) <==> start >= 0 && i == |Colons(GroupsOf(bytes)[..start])|)
  {
    hide Render, Read, IsGap, Colons;
    var gs := GroupsOf(bytes);
    ReadRendered(gs, start, len);
    BytesOfGroups(bytes, 0);
    assert gs[0..] == gs && bytes[0..] == bytes;
    forall i: int { OneDoubleColon(gs, start, len, i); }
  }

  /** The gap is determined by the groups, so every address has one text. */
  lemma {:induction false} GapIsUnique(gs: Groups, s1: int, n1: int, s2: int, n2: int)
    requires IsGap(gs, s1, n1) && IsGap(gs, s2, n2)
    ensures s1 == s2 && (s1 >= 0 ==> n1 == n2)
  {
  }

  /** A group is printed without leading zeros and in lower case. */
  lemma {:induction false} GroupIsPlain(g: nat)
    ensures HexOf(g) != "" && (|HexOf(g)| > 1 ==> HexOf(g)[0] != '0')
    ensures forall i :: 0 <= i < |HexOf(g)| ==> !('A' <= HexOf(g)[i] <= 'F')
  {
    if g >= 16 { GroupIsPlain(g / 16); }
  }

  method Write(bytes: seq<Byte>) returns (out: string)
    requires |bytes| == 16
    ensures exists start, len :: IsGap(GroupsOf(bytes), start, len) && out == Render(GroupsOf(bytes), start, len)
    ensures Read(out).Some? && BytesOf(Read(out).value) == bytes
  {
    hide Render, Read, IsGap;
    var gs := GroupsOf(bytes);
    var start, len := FindGap(gs);
    out := WriteGroups(gs, start, len);
    TextIsCanonicalAndReversible(bytes, start, len);
  }

  /** The gap in plain terms: two or more zero groups, no longer run of zero groups, none
      as long further left; and no gap if and only if no two zero groups meet. */
  lemma {:induction false} GapInPlainTerms(gs: Groups, start: int, len: int)
    requires |gs| == 8
    ensures start >= 0 ==>
      (IsGap(gs, start, len) <==>
        && 2 <= len && start + len <= 8 && gs[start..start + len] == Zeros(len)
        && forall s, e :: 0 <= s < e <= 8 && gs[s..e] == Zeros(e - s) ==> e - s < len || (e - s == len && start <= s))
    ensures IsGap(gs, -1, len) <==> forall i :: 0 <= i < 7 ==> gs[i] != 0 || gs[i + 1] != 0
  {
    forall s, e | 0 <= s < e <= 8 ensures ZeroRun(gs, s, e - s) <==> gs[s..e] == Zeros(e - s) {
      RunIsSlice(gs, s, e);
    }
    forall s, n | ZeroRun(gs, s, n) ensures gs[s..s + n] == Zeros(s + n - s) { RunIsSlice(gs, s, s + n); }
    if i :| 0 <= i < 7 && gs[i] == 0 == gs[i + 1] { assert ZeroRun(gs, i, 2); }
    if s, n :| ZeroRun(gs, s, n) && n >= 2 { assert gs[s] == 0 == gs[s + 1]; }
  }

  lemma {:induction false} RunIsSlice(gs: Groups, s: nat, e: nat)
    requires s < e <= |gs|
    ensures ZeroRun(gs, s, e - s) <==> gs[s..e] == Zeros(e - s)
  {
    if gs[s..e] == Zeros(e - s) {
      forall i | s <= i < e ensures gs[i] == 0 { assert gs[i] == gs[s..e][i - s]; }
    }
  }

  /** The documentation address 2001:db8::1. */
  lemma {:induction false} DocumentationAddress()
    ensures var bytes := [0x20, 0x01, 0x0d, 0xb8, 0, 0, 0, 0, 0, 0, 0, 0, 0, 0, 0, 1];
      Render(GroupsOf(bytes), 2, 5) == "2001:db8::1" && IsGap(GroupsOf(bytes), 2, 5)
  {
    hide HexOf, Colons, IsGap;
    var bytes := [0x20, 0x01, 0x0d, 0xb8, 0, 0, 0, 0, 0, 0, 0, 0, 0, 0, 0, 1];
    var gs := GroupsOf(bytes);
    assert gs == [0x2001, 0xdb8, 0, 0, 0, 0, 0, 1];
    assert gs[..2] == [] + [0x2001] + [0xdb8] && gs[2 + 5..] == [] + [1];
    ColonsEnd([]);
    ColonsAppend([], 0x2001);
    ColonsAppend([] + [0x2001], 0xdb8);
    ColonsAppend([], 1);
    PrintedGroups();
    FiveZeros(gs);
    assert Colons([] + [0x2001]) == "2001";
    assert Colons([] + [0x2001] + [0xdb8]) == "2001:db8" && Colons([] + [1]) == "1";
    assert "2001:db8" + "::" + "1" == "2001:db8::1";
  }

  lemma {:induction false} FiveZeros(gs: Groups)
    requires |gs| == 8 && gs[1] != 0 && gs[7] != 0 && forall i :: 2 <= i < 7 ==> gs[i] == 0
    ensures IsGap(gs, 2, 5)
  {
    assert ZeroRun(gs, 2, 5);
    forall s, n | ZeroRun(gs, s, n) ensures n <= 5 && (n == 5 ==> 2 <= s) {
      RunAvoids(gs, s, n, 1);
      RunAvoids(gs, s, n, 7);
    }
  }

  lemma {:induction false} RunAvoids(gs: Groups, start: int, len: int, i: nat)
    requires ZeroRun(gs, start, len) && i < |gs| && gs[i] != 0
    ensures !(start <= i < start + len)
  {
  }

  lemma {:induction false} PrintedGroups()
    ensures HexOf(0x2001) == "2001" && HexOf(0xdb8) == "db8" && HexOf(1) == "1"
  {
    assert HexOf(0x2) == "2" && HexOf(0x20) == "20" && HexOf(0x200) == "200";
    assert HexOf(0xd) == "d" && HexOf(0xdb) == "db";
  }
}
