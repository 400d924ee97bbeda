/** The allow-list as stored text: MAC addresses, names and lines
    (src/dhcp/DhcpAllowedList.cpp, src/core/StorageText.h). A char stands for a byte. */
module AllowText {
  import opened Net
  import opened HexDigits

  const MAX_ENTRIES: nat := 25
  const MAX_NAME: nat := 20
  const MAX_BYTES: nat := 1024

  datatype Computer = Computer(mac: string, name: string, enabled: bool)

  // ----- Trimming and separators

  /** `isspace` of the C locale. */
  predicate IsSpace(c: char) {
    c == ' ' || 9 <= c as int <= 13
  }

  predicate IsSeparator(c: char) {
    c == '|' || c == '\n' || c == '\r'
  }

  /** Neither end is a space. */
  ghost predicate Trimmed(s: string) {
    s != "" ==> !IsSpace(s[0]) && !IsSpace(s[|s| - 1])
  }

  ghost predicate AllSpace(s: string) {
    forall c :: c in s ==> IsSpace(c)
  }

  function TrimLeft(s: string): string {
    if s != "" && IsSpace(s[0]) then TrimLeft(s[1..]) else s
  }

  function TrimRight(s: string): string {
    if s != "" && IsSpace(s[|s| - 1]) then TrimRight(s[..|s| - 1]) else s
  }

  function Trim(s: string): string {
    TrimRight(TrimLeft(s))
  }

  lemma {:induction false} TrimLeftCuts(s: string, k: nat)
    requires k <= |s| && AllSpace(s[..k])
    ensures TrimLeft(s) == TrimLeft(s[k..])
  {
    if k > 0 {
      assert IsSpace(s[..k][0]);
      assert s[1..][..k - 1] == s[..k][1..] && s[1..][k - 1..] == s[k..];
      TrimLeftCuts(s[1..], k - 1);
    }
  }

  lemma {:induction false} TrimRightCuts(s: string, k: nat)
    requires k <= |s| && AllSpace(s[k..])
    ensures TrimRight(s) == TrimRight(s[..k])
  {
    if k < |s| {
      assert s[|s| - 1] in s[k..];
      var t := s[..|s| - 1];
      assert t[..k] == s[..k];
      assert forall c :: c in t[k..] ==> c in s[k..];
      TrimRightCuts(t, k);
    } else {
      assert s[..k] == s;
    }
  }

  lemma {:induction false} TrimLeftPart(s: string)
    ensures TrimLeft(s) != "" ==> !IsSpace(TrimLeft(s)[0])
    ensures exists k :: 0 <= k <= |s| && TrimLeft(s) == s[k..]
  {
    if s != "" && IsSpace(s[0]) {
      TrimLeftPart(s[1..]);
      var k :| 0 <= k <= |s[1..]| && TrimLeft(s[1..]) == s[1..][k..];
      assert TrimLeft(s) == s[k + 1..];
    } else {
      assert s[0..] == s;
    }
  }

  lemma {:induction false} TrimRightPart(s: string)
    ensures TrimRight(s) != "" ==> !IsSpace(TrimRight(s)[|TrimRight(s)| - 1])
    ensures TrimRight(s) <= s
  {
    if s != "" && IsSpace(s[|s| - 1]) { TrimRightPart(s[..|s| - 1]); }
  }

  /** Space, tab, line feed, vertical tab, form feed and carriage return. */
  const SPACES: string := " \t\n\U{000B}\U{000C}\r"

  lemma {:induction false} SpacesAreSpaces(c: char)
    ensures IsSpace(c) <==> c in SPACES
  {
    assert SPACES[0] == ' ' && SPACES[1] == '\t' && SPACES[2] == '\n' && SPACES[5] == '\r';
    assert SPACES[3] as int == 11 && SPACES[4] as int == 12;
    if 9 <= c as int <= 13 { assert c == SPACES[[1, 2, 3, 4, 5][c as int - 9]]; }
  }

  /** Trimming leaves a part of the text with no space at either end. */
  lemma {:induction false} TrimIsTrimmed(s: string)
    ensures Trimmed(Trim(s)) && |Trim(s)| <= |s|
    ensures var t := Trim(s); t != "" ==> t[0] !in SPACES && t[|t| - 1] !in SPACES
    ensures forall c :: c in Trim(s) ==> c in s
  {
    TrimLeftPart(s);
    TrimRightPart(TrimLeft(s));
    var t := Trim(s);
    if t != "" {
      SpacesAreSpaces(t[0]);
      SpacesAreSpaces(t[|t| - 1]);
    }
  }

  /** What is trimmed away is space: the text is spaces, the trimmed text, and spaces. */
  lemma {:induction false} TrimTakesSpacesOnly(s: string) returns (before: string, after: string)
    ensures s == before + Trim(s) + after && (forall c :: c in before + after ==> c in SPACES)
  {
    before := LeftSpaces(s);
    after := RightSpaces(TrimLeft(s));
    assert before + (Trim(s) + after) == before + Trim(s) + after;
  }

  lemma {:induction false} LeftSpaces(s: string) returns (before: string)
    ensures s == before + TrimLeft(s) && forall c :: c in before ==> c in SPACES
  {
    before := "";
    if s != "" && IsSpace(s[0]) {
      var rest := LeftSpaces(s[1..]);
      SpacesAreSpaces(s[0]);
      before := [s[0]] + rest;
      assert s == [s[0]] + s[1..];
    }
  }

  lemma {:induction false} RightSpaces(s: string) returns (after: string)
    ensures s == TrimRight(s) + after && forall c :: c in after ==> c in SPACES
  {
    after := "";
    if s != "" && IsSpace(s[|s| - 1]) {
      var rest := RightSpaces(s[..|s| - 1]);
      SpacesAreSpaces(s[|s| - 1]);
      after := rest + [s[|s| - 1]];
      assert s == s[..|s| - 1] + [s[|s| - 1]];
    }
  }

  lemma {:induction false} TrimKeepsTrimmed(s: string)
    requires Trimmed(s)
    ensures Trim(s) == s
  {
  }

  function Despaced(c: char): char {
    if IsSeparator(c) then ' ' else c
  }

  function Cleaned(s: string): (r: string)
    ensures |r| == |s| && forall i :: 0 <= i < |s| ==> r[i] == Despaced(s[i])
  {
    if s == "" then "" else Cleaned(s[..|s| - 1]) + [Despaced(s[|s| - 1])]
  }

  function FieldText(s: string): string {
    Cleaned(Trim(s))
  }

  function SanitizeName(s: string): string {
    var t := FieldText(s);
    if |t| > MAX_NAME then t[..MAX_NAME] else t
  }

  method StorageFieldText(value: string) returns (out: string)
    ensures out == FieldText(value)
  {
    var begin, end := 0, |value|;
    while begin < end && IsSpace(value[begin])
      invariant begin <= end
      invariant AllSpace(value[..begin])
    {
      begin := begin + 1;
    }
    while end > begin && IsSpace(value[end - 1])
      invariant begin <= end <= |value|
      invariant AllSpace(value[end..])
    {
      end := end - 1;
    }
    TrimOfCut(value, begin, end);
    out := "";
    for i := begin to end
      invariant out == Cleaned(value[begin..i])
    {
      assert value[begin..i + 1][..i - begin] == value[begin..i];
      out := out + [if value[i] == '|' || value[i] == '\n' || value[i] == '\r' then ' ' else value[i]];
    }
  }

  lemma {:induction false} TrimOfCut(s: string, begin: nat, end: nat)
    requires begin <= end <= |s| && AllSpace(s[..begin]) && AllSpace(s[end..])
    requires begin < end ==> !IsSpace(s[begin]) && !IsSpace(s[end - 1])
    ensures Trim(s) == s[begin..end]
  {
    TrimLeftCuts(s, begin);
    if begin < end {
      assert TrimLeft(s) == s[begin..];
      assert s[begin..][end - begin..] == s[end..] && s[begin..][..end - begin] == s[begin..end];
      TrimRightCuts(s[begin..], end - begin);
    } else {
      TrimLeftCuts(s[begin..], |s| - begin);
      assert s[begin..][|s| - begin..] == "";
      assert s[begin..end] == "";
    }
  }

  /** In a stored field the text is trimmed, each bar, line feed and carriage return is a
      space, and nothing else is changed. */
  lemma {:induction false} FieldTextReads(s: string, i: nat)
    requires i < |Trim(s)|
    ensures |FieldText(s)| == |Trim(s)|
    ensures FieldText(s)[i] == if Trim(s)[i] in "|\n\r" then ' ' else Trim(s)[i]
  {
    hide Trim;
    assert "|\n\r"[0] == '|' && "|\n\r"[1] == '\n' && "|\n\r"[2] == '\r';
  }

  /** A name keeps at most twenty characters of that. */
  lemma {:induction false} NameIsShortened(s: string)
    ensures SanitizeName(s) == if |FieldText(s)| > 20 then FieldText(s)[..20] else FieldText(s)
  {
  }

  // ----- Names settle after two passes

  ghost predicate NoSeparator(s: string) {
    forall c :: c in s ==> !IsSeparator(c)
  }

  lemma {:induction false} CleanedHasNoSeparator(s: string)
    ensures NoSeparator(Cleaned(s))
    ensures NoSeparator(s) ==> Cleaned(s) == s
  {
  }

  lemma {:induction false} SanitizedName(s: string)
    ensures NoSeparator(SanitizeName(s)) && |SanitizeName(s)| <= MAX_NAME
  {
  }

  /** A short clean name is only trimmed. */
  lemma {:induction false} SanitizeShort(s: string)
    requires NoSeparator(s) && |s| <= MAX_NAME
    ensures SanitizeName(s) == Trim(s)
  {
    TrimIsTrimmed(s);
    CleanedHasNoSeparator(Trim(s));
  }

  /** One pass may leave a space at an edge; after two passes a name is settled. */
  lemma {:induction false} NameSettlesAfterTwo(s: string)
    ensures SanitizeName(SanitizeName(SanitizeName(s))) == SanitizeName(SanitizeName(s))
  {
    var once := SanitizeName(s);
    SanitizedName(s);
    SanitizeShort(once);
    TrimIsTrimmed(once);
    SanitizeShort(Trim(once));
    TrimKeepsTrimmed(Trim(once));
  }

  lemma {:induction false} OnePassIsNotEnough()
    ensures SanitizeName("|a") == " a" && SanitizeName(SanitizeName("|a")) == "a"
  {
    assert Trim("|a") == "|a" by { TrimKeepsTrimmed("|a"); }
    TrimOfCut(" a", 1, 2);
    assert " a"[1..2] == "a";
    assert Cleaned("|a") == " a" && Cleaned("a") == "a";
  }

  /** One pass settles a name, if and only if the part that is kept, once trimmed, has
      no bar at its start and neither a bar nor a space at its end. */
  lemma {:induction false} OnePassIsEnoughExactlyWhen(s: string)
    ensures var t := Trim(s);
      var kept := if |t| > MAX_NAME then MAX_NAME else |t|;
      SanitizeName(SanitizeName(s)) == SanitizeName(s) <==>
        t == "" || (t[0] != '|' && t[kept - 1] != '|' && !IsSpace(t[kept - 1]))
  {
    hide Trim, Cleaned;
    var t, once := Trim(s), SanitizeName(s);
    SanitizedName(s);
    SanitizeShort(once);
    TrimIsTrimmed(s);
    TrimIsTrimmed(once);
    if Trimmed(once) { TrimKeepsTrimmed(once); }
    if t != "" {
      assert once[0] == Despaced(t[0]) && once[|once| - 1] == Despaced(t[|once| - 1]);
    }
  }

  // ----- MAC addresses

  predicate IsMacSeparator(c: char) {
    c == ':' || c == '-' || c == '.' || IsSpace(c)
  }

  predicate MacText(s: string) {
    forall i :: 0 <= i < |s| ==> IsMacSeparator(s[i]) || HexNibble(s[i]) >= 0
  }

  /** The hexadecimal digits of a text, in order. */
  function Digits(s: string): seq<Nibble> {
    if s == "" then []
    else
      var c := s[|s| - 1];
      Digits(s[..|s| - 1]) + if IsMacSeparator(c) || HexNibble(c) < 0 then [] else [HexNibble(c)]
  }

  function Octet(hi: Nibble, lo: Nibble): Byte {
    var h: int := hi;
    h * 16 + lo
  }

  function MacOf(d: seq<Nibble>): Mac
    requires |d| == 12
  {
    Mac(Octet(d[0], d[1]), Octet(d[2], d[3]), Octet(d[4], d[5]),
        Octet(d[6], d[7]), Octet(d[8], d[9]), Octet(d[10], d[11]))
  }

  function ParseMac(s: string): Option<Mac> {
    if MacText(s) && |Digits(s)| == 12 then Some(MacOf(Digits(s))) else None
  }

  lemma {:induction false} DigitsConcat(a: string, b: string)
    ensures Digits(a + b) == Digits(a) + Digits(b)
  {
    if b == "" {
      assert a + b == a;
    } else {
      DigitsConcat(a, b[..|b| - 1]);
      assert (a + b)[..|a + b| - 1] == a + b[..|b| - 1];
    }
  }

  method ReadMac(mac: string) returns (r: Option<Mac>)
    ensures r == ParseMac(mac)
  {
    var digits: seq<Nibble> := [];
    for i := 0 to |mac|
      invariant digits == Digits(mac[..i]) && |digits| <= 12
      invariant MacText(mac[..i])
    {
      assert mac[..i + 1][..i] == mac[..i];
      assert mac == mac[..i + 1] + mac[i + 1..];
      DigitsConcat(mac[..i + 1], mac[i + 1..]);
      var c := mac[i];
      if c == ':' || c == '-' || c == '.' || IsSpace(c) { continue; }
      var v := HexNibble(c);
      if v < 0 || |digits| >= 12 { return None; }
      digits := digits + [v];
    }
    assert mac[..|mac|] == mac;
    if |digits| != 12 { return None; }
    r := Some(MacOf(digits));
  }

  function Hex2(b: Byte): (s: string)
    ensures |s| == 2
  {
    [HexChar(b / 16), HexChar(b % 16)]
  }

  function FormatMac(m: Mac): (s: string)
    ensures |s| == 17
  {
    Hex2(m.b0) + ":" + Hex2(m.b1) + ":" + Hex2(m.b2) + ":" + Hex2(m.b3) + ":" + Hex2(m.b4) + ":" + Hex2(m.b5)
  }

  lemma {:induction false} Hex2Reads(b: Byte)
    ensures MacText(Hex2(b)) && Digits(Hex2(b)) == [b / 16, b % 16]
    ensures '|' !in Hex2(b) && '\n' !in Hex2(b) && !IsSpace(Hex2(b)[0])
  {
    HexCharReads(b / 16);
    HexCharReads(b % 16);
    var s := Hex2(b);
    assert s[..1] == [HexChar(b / 16)] && s[..1][..0] == "";
    assert Digits(s[..1]) == [b / 16];
  }

  /** A printed address shows its octets from the first on, two digits each, with colons. */
  lemma {:induction false} MacTextShows(m: Mac)
    ensures var t := FormatMac(m);
      && OctetAt(t, 0) == m.b0 && OctetAt(t, 3) == m.b1 && OctetAt(t, 6) == m.b2
      && OctetAt(t, 9) == m.b3 && OctetAt(t, 12) == m.b4 && OctetAt(t, 15) == m.b5
      && t[2] == t[5] == t[8] == t[11] == t[14] == ':'
  {
    hide Hex2;
    Hex2Shows(m.b0);
    Hex2Shows(m.b1);
    Hex2Shows(m.b2);
    Hex2Shows(m.b3);
    Hex2Shows(m.b4);
    Hex2Shows(m.b5);
  }

  /** The number that two hexadecimal digits stand for. */
  function OctetAt(t: string, i: nat): int
    requires i + 1 < |t|
  {
    HexNibble(t[i]) * 16 + HexNibble(t[i + 1])
  }

  lemma {:induction false} Hex2Shows(b: Byte)
    ensures OctetAt(Hex2(b), 0) == b
  {
    HexCharReads(b / 16);
    HexCharReads(b % 16);
  }

  lemma {:induction false} AppendOctet(s: string, b: Byte)
    requires MacText(s) && '|' !in s && '\n' !in s
    ensures var t := s + ":" + Hex2(b);
      MacText(t) && Digits(t) == Digits(s) + [b / 16, b % 16] && '|' !in t && '\n' !in t
  {
    Hex2Reads(b);
    DigitsConcat(s + ":", Hex2(b));
    DigitsConcat(s, ":");
    assert ":"[..0] == "";
    assert Digits(":") == [];
  }

  /** A printed address reads back as itself, and holds no separator. */
  lemma {:induction false} MacRoundTrip(m: Mac)
    ensures ParseMac(FormatMac(m)) == Some(m)
    ensures '|' !in FormatMac(m) && '\n' !in FormatMac(m) && !IsSpace(FormatMac(m)[0])
  {
    hide Hex2, Digits, MacText, IsSpace;
    var s0 := Hex2(m.b0);
    Hex2Reads(m.b0);
    var s1 := s0 + ":" + Hex2(m.b1);
    AppendOctet(s0, m.b1);
    var s2 := s1 + ":" + Hex2(m.b2);
    AppendOctet(s1, m.b2);
    var s3 := s2 + ":" + Hex2(m.b3);
    AppendOctet(s2, m.b3);
    var s4 := s3 + ":" + Hex2(m.b4);
    AppendOctet(s3, m.b4);
    AppendOctet(s4, m.b5);
    assert FormatMac(m) == s4 + ":" + Hex2(m.b5);
    assert FormatMac(m)[0] == s0[0];
    forall b: Byte ensures Octet(b / 16, b % 16) == b { }
  }

  function NormalizeMac(s: string): string {
    match ParseMac(s)
    case Some(m) => FormatMac(m)
    case None => ""
  }

  // ----- Trimming around a field

  lemma {:induction false} TrimLeftBefore(a: string, b: string)
    requires b != "" && !IsSpace(b[0])
    ensures TrimLeft(a + b) == TrimLeft(a) + b
  {
    if a == "" {
      assert a + b == b;
    } else {
      assert (a + b)[1..] == a[1..] + b;
      if IsSpace(a[0]) { TrimLeftBefore(a[1..], b); }
    }
  }

  lemma {:induction false} TrimRightAfter(a: string, b: string)
    requires a != "" && !IsSpace(a[|a| - 1])
    ensures TrimRight(a + b) == a + TrimRight(b)
  {
    if b == "" {
      assert a + b == a;
    } else {
      assert (a + b)[..|a + b| - 1] == a + b[..|b| - 1];
      if IsSpace(b[|b| - 1]) { TrimRightAfter(a, b[..|b| - 1]); }
    }
  }

  /** Only the outer ends of a line with a bar are trimmed. */
  lemma {:induction false} TrimAroundBar(a: string, b: string)
    ensures Trim(a + "|" + b) == TrimLeft(a) + "|" + TrimRight(b)
  {
    assert a + "|" + b == a + ("|" + b);
    TrimLeftBefore(a, "|" + b);
    var left := TrimLeft(a) + "|";
    assert TrimLeft(a) + ("|" + b) == left + b;
    TrimRightAfter(left, b);
  }

  lemma {:induction false} TrimOfTrimRight(s: string)
    ensures Trim(TrimRight(s)) == Trim(s)
    decreases |s|
  {
    if s != "" && IsSpace(s[|s| - 1]) {
      var init := s[..|s| - 1];
      TrimOfTrimRight(init);
      TrimDropsLast(init, s[|s| - 1]);
      assert s == init + [s[|s| - 1]];
    }
  }

  lemma {:induction false} TrimDropsLast(s: string, c: char)
    requires IsSpace(c)
    ensures Trim(s + [c]) == Trim(s)
  {
    if s == "" {
      assert s + [c] == [c] && [c][1..] == "";
    } else if IsSpace(s[0]) {
      assert (s + [c])[1..] == s[1..] + [c];
      TrimDropsLast(s[1..], c);
    } else {
      assert (s + [c])[..|s + [c]| - 1] == s;
    }
  }

  // ----- Spaces around an address

  lemma {:induction false} MacOfTrimLeft(s: string)
    ensures ParseMac(TrimLeft(s)) == ParseMac(s)
  {
    hide ParseMac;
    if s != "" && IsSpace(s[0]) {
      MacOfTrimLeft(s[1..]);
      SeparatorsDoNotCount(s[..1], s[1..]);
      assert s == s[..1] + s[1..];
    }
  }

  lemma {:induction false} MacOfTrim(s: string)
    ensures ParseMac(Trim(s)) == ParseMac(s)
  {
    hide ParseMac;
    MacOfTrimLeft(s);
    MacOfTrimRight(TrimLeft(s));
  }

  lemma {:induction false} MacOfTrimRight(s: string)
    ensures ParseMac(TrimRight(s)) == ParseMac(s)
  {
    hide ParseMac;
    if s != "" && IsSpace(s[|s| - 1]) {
      var init, last := s[..|s| - 1], s[|s| - 1..];
      MacOfTrimRight(init);
      SeparatorsDoNotCount(last, init);
      assert s == init + last;
    }
  }

  lemma {:induction false} MacTextConcat(a: string, b: string)
    ensures MacText(a + b) <==> MacText(a) && MacText(b)
  {
    hide IsMacSeparator, HexNibble;
    var all := a + b;
    if MacText(all) {
      assert forall i :: 0 <= i < |a| ==> all[i] == a[i];
      assert forall i :: 0 <= i < |b| ==> all[|a| + i] == b[i];
    }
  }

  lemma {:induction false} SeparatorsDoNotCount(a: string, b: string)
    requires |a| == 1 && IsMacSeparator(a[0])
    ensures ParseMac(a + b) == ParseMac(b) == ParseMac(b + a)
  {
    hide MacText, Digits, IsMacSeparator, MacOf;
    DigitsConcat(a, b);
    DigitsConcat(b, a);
    MacTextConcat(a, b);
    MacTextConcat(b, a);
    NoDigits(a);
    assert [] + Digits(b) == Digits(b) == Digits(b) + [];
  }

  lemma {:induction false} NoDigits(a: string)
    requires |a| == 1 && IsMacSeparator(a[0])
    ensures Digits(a) == [] && MacText(a)
  {
    assert a[..0] == "";
  }

  /** Colons, dashes, dots and white space may stand anywhere in an address. */
  lemma {:induction false} MacSeparatorsAreSkipped(a: string, c: char, b: string)
    requires c in ":-." || c in SPACES
    ensures ParseMac(a + [c] + b) == ParseMac(a + b)
  {
    hide MacText, Digits, MacOf;
    SpacesAreSpaces(c);
    assert c in ":-." ==> c == ":-."[0] || c == ":-."[1] || c == ":-."[2];
    NoDigits([c]);
    DigitsConcat(a + [c], b);
    DigitsConcat(a, [c]);
    DigitsConcat(a, b);
    MacTextConcat(a + [c], b);
    MacTextConcat(a, [c]);
    MacTextConcat(a, b);
    assert Digits(a) + [] == Digits(a);
  }

  /** Any other character that is no hexadecimal digit spoils it. */
  lemma {:induction false} StrangeCharacterIsRefused(s: string, c: char)
    requires c in s && c !in ":-." && c !in SPACES && c !in "0123456789abcdef" && c !in "0123456789ABCDEF"
    ensures ParseMac(s) == None
  {
    hide Digits, MacOf, HexNibble;
    SpacesAreSpaces(c);
    var i :| 0 <= i < |s| && s[i] == c;
    assert ":-."[0] == ':' && ":-."[1] == '-' && ":-."[2] == '.';
    NoNibble(c);
  }

  lemma {:induction false} NoNibble(c: char)
    requires c !in "0123456789abcdef" && c !in "0123456789ABCDEF"
    ensures HexNibble(c) < 0
  {
    if HexNibble(c) >= 0 { NibbleExactlyWhen(c, HexNibble(c)); }
  }

  /** A readable address has no bar. */
  lemma {:induction false} MacHasNoBar(s: string)
    requires ParseMac(s).Some?
    ensures '|' !in s
  {
  }
}
