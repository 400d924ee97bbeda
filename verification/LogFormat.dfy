/** What a rotation keeps and how an archive is named (src/core/LogFileFormat.h). */
module LogFormat {
  import opened TextLines

  const KEEP_LINES: nat := 10
  const MAX_ATTEMPTS: nat := 10

  /** Years of four digits, months and days of two. */
  datatype LogDate = LogDate(year: nat, month: nat, day: nat) {
    predicate Valid() { year < 10000 && month < 100 && day < 100 }
  }

  /** A line's time: only its day matters here, and only when the clock is set. */
  datatype Stamp = NoClock | Real(date: LogDate)

  // ----- Range names

  function Digit(n: nat): char {
    ('0' as int + n % 10) as char
  }

  function Two(n: nat): string { [Digit(n / 10), Digit(n)] }

  function Four(n: nat): string { [Digit(n / 1000), Digit(n / 100), Digit(n / 10), Digit(n)] }

  function DateText(d: LogDate): string { Four(d.year) + "." + Two(d.month) + "." + Two(d.day) }

  /** The folder of a range of days, as `%04d.%02d.%02d-%04d.%02d.%02d`. */
  function RangeName(first: LogDate, last: LogDate): string {
    DateText(first) + "-" + DateText(last)
  }

  predicate IsDigit(c: char) { '0' <= c <= '9' }

  lemma {:induction false} DigitReads(n: nat)
    ensures IsDigit(Digit(n)) && Digit(n) as int - '0' as int == n % 10
  {
  }

  lemma {:induction false} TwoReads(n: nat)
    requires n < 100
    ensures Value(Two(n)) == n && forall c :: c in Two(n) ==> IsDigit(c)
  {
    hide Digit;
    DigitReads(n);
    DigitReads(n / 10);
    ValueOfDigits(Two(n), 0, n / 10, n % 10);
  }

  lemma {:induction false} FourReads(n: nat)
    requires n < 10000
    ensures Value(Four(n)) == n && forall c :: c in Four(n) ==> IsDigit(c)
  {
    hide Digit;
    var t := Four(n);
    DigitReads(n);
    DigitReads(n / 10);
    DigitReads(n / 100);
    DigitReads(n / 1000);
    assert t[..3] == [Digit(n / 1000), Digit(n / 100), Digit(n / 10)];
    ValueOfDigits(t[..3], n / 1000, n / 100 % 10, n / 10 % 10);
    assert n / 100 / 10 == n / 1000 && n / 10 / 10 == n / 100;
  }

  /** The folder of a range reads back: year, month and day of its first and last days,
      in four, two and two digits with dots between them, and a dash between the days. */
  lemma {:induction false} RangeNameReads(first: LogDate, last: LogDate)
    requires first.Valid() && last.Valid()
    ensures var t := RangeName(first, last);
      && |t| == 21 && t[4] == t[7] == t[15] == t[18] == '.' && t[10] == '-'
      && Value(t[..4]) == first.year && Value(t[5..7]) == first.month && Value(t[8..10]) == first.day
      && Value(t[11..15]) == last.year && Value(t[16..18]) == last.month && Value(t[19..]) == last.day
      && forall i :: 0 <= i < 21 && i !in {4, 7, 10, 15, 18} ==> '0' <= t[i] <= '9'
  {
    hide Four, Two, Value;
    DateReads(first);
    DateReads(last);
    var t, a, b := RangeName(first, last), DateText(first), DateText(last);
    assert t[..10] == a && t[11..] == b;
    assert t[..4] == a[..4] && t[5..7] == a[5..7] && t[8..10] == a[8..];
    assert t[11..15] == b[..4] && t[16..18] == b[5..7] && t[19..] == b[8..];
    assert forall i :: 0 <= i < 10 ==> t[i] == a[i] && t[11 + i] == b[i];
  }

  lemma {:induction false} DateReads(d: LogDate)
    requires d.Valid()
    ensures var t := DateText(d);
      && |t| == 10 && t[4] == t[7] == '.'
      && Value(t[..4]) == d.year && Value(t[5..7]) == d.month && Value(t[8..]) == d.day
      && forall i :: 0 <= i < 10 && i != 4 && i != 7 ==> IsDigit(t[i])
  {
    hide Digit, Value;
    FourReads(d.year);
    TwoReads(d.month);
    TwoReads(d.day);
    var t := DateText(d);
    assert t[..4] == Four(d.year) && t[5..7] == Two(d.month) && t[8..] == Two(d.day);
  }

  lemma {:induction false} DateTextInjective(x: LogDate, y: LogDate)
    requires x.Valid() && y.Valid() && DateText(x) == DateText(y)
    ensures x == y
  {
    hide Digit;
    var s, t := DateText(x), DateText(y);
    assert s[0] == Digit(x.year / 1000) && s[1] == Digit(x.year / 100);
    assert s[2] == Digit(x.year / 10) && s[3] == Digit(x.year);
    assert t[0] == Digit(y.year / 1000) && t[1] == Digit(y.year / 100);
    assert t[2] == Digit(y.year / 10) && t[3] == Digit(y.year);
    assert s[5] == Digit(x.month / 10) && s[6] == Digit(x.month) && s[8] == Digit(x.day / 10) && s[9] == Digit(x.day);
    assert t[5] == Digit(y.month / 10) && t[6] == Digit(y.month) && t[8] == Digit(y.day / 10) && t[9] == Digit(y.day);
    SameNumber(x.year, y.year);
    SameNumber(x.month, y.month);
    SameNumber(x.day, y.day);
  }

  lemma {:induction false} SameByTens(m: nat, n: nat)
    requires Digit(m) == Digit(n) && m / 10 == n / 10
    ensures m == n
  {
  }

  lemma {:induction false} SameNumber(m: nat, n: nat)
    requires m < 10000 && n < 10000
    requires Digit(m) == Digit(n) && Digit(m / 10) == Digit(n / 10)
    requires (m < 100 && n < 100) || (Digit(m / 100) == Digit(n / 100) && Digit(m / 1000) == Digit(n / 1000))
    ensures m == n
  {
    hide Digit;
    assert m / 10 / 10 == m / 100 && n / 10 / 10 == n / 100;
    if m >= 100 || n >= 100 {
      assert m / 100 / 10 == m / 1000 && n / 100 / 10 == n / 1000 && m / 1000 / 10 == 0 == n / 1000 / 10;
      SameByTens(m / 1000, n / 1000);
      SameByTens(m / 100, n / 100);
    }
    SameByTens(m / 10, n / 10);
    SameByTens(m, n);
  }

  /** Two archives share a folder only when their first and last days agree. */
  lemma {:induction false} RangeNameInjective(f1: LogDate, l1: LogDate, f2: LogDate, l2: LogDate)
    requires f1.Valid() && l1.Valid() && f2.Valid() && l2.Valid()
    requires RangeName(f1, l1) == RangeName(f2, l2)
    ensures f1 == f2 && l1 == l2
  {
    hide DateText;
    DateLength(f1);
    DateLength(f2);
    var a, b := RangeName(f1, l1), RangeName(f2, l2);
    assert a[..10] == DateText(f1) && b[..10] == DateText(f2) && a[11..] == DateText(l1) && b[11..] == DateText(l2);
    DateTextInjective(f1, f2);
    DateTextInjective(l1, l2);
  }

  lemma {:induction false} DateLength(d: LogDate)
    ensures |DateText(d)| == 10
  {
  }

  // ----- The carried tail

  function Last<T>(s: seq<T>, n: nat): seq<T> {
    if |s| <= n then s else s[|s| - n..]
  }

  /** The last lines of a text, each closed by a newline; a final newline closes the
      last line and starts no other. */
  function Tail(text: string, n: nat): string {
    if n == 0 || text == "" then ""
    else Body(Last(Lines(if text[|text| - 1] == '\n' then text[..|text| - 1] else text), n))
  }

  lemma {:induction false} OneMoreChar(c: char, s: string)
    ensures |Lines([c] + s)| == |Lines(s)| + if c == '\n' then 1 else 0
  {
  }

  /** The tail that starts after a newline with `n` lines behind it. */
  lemma {:induction false} TailAfterNewline(t: string, at: nat, n: nat)
    requires at < |t| && t[at] == '\n' && |Lines(t[at + 1..])| == n
    ensures Body(Last(Lines(t), n)) == t[at + 1..] + "\n"
  {
    var a, b := t[..at], t[at + 1..];
    assert t == a + "\n" + b;
    LinesSplit(a, b);
    BodyOfLines(b);
    assert (Lines(a) + Lines(b))[|Lines(a)|..] == Lines(b);
  }

  method LogTail(text: string, lines: nat) returns (r: string)
    ensures r == Tail(text, lines)
  {
    hide Lines, Last, Body;
    if lines == 0 || text == "" { return ""; }
    var end := |text|;
    if text[end - 1] == '\n' { end := end - 1; }
    assert text[..|text|] == text;
    var start := FindTail(text[..end], lines);
    assert text[start..end] == text[..end][start..];
    r := text[start..end] + "\n";
  }

  /** Where the last `lines` lines of `t` start. */
  method FindTail(t: string, lines: nat) returns (start: nat)
    requires lines > 0
    ensures start <= |t| && t[start..] + "\n" == Body(Last(Lines(t), lines))
  {
    hide Lines, Last, Body;
    start := |t|;
    var found := 0;
    assert t[|t|..] == "";
    LinesOfOne("");
    while start > 0 && found < lines
      invariant start <= |t| && found <= lines
      invariant |Lines(t[start..])| == found + 1
      invariant found == lines ==> start < |t| && t[start] == '\n' && |Lines(t[start + 1..])| == lines
    {
      ghost var after := t[start..];
      start := start - 1;
      OneMoreChar(t[start], after);
      assert t[start..] == [t[start]] + after;
      if t[start] == '\n' { found := found + 1; }
    }
    if found == lines {
      TailAfterNewline(t, start, lines);
      start := start + 1;
    } else {
      assert t[0..] == t;
      WholeBody(t, lines);
    }
  }

  lemma {:induction false} WholeBody(t: string, n: nat)
    requires |Lines(t)| <= n
    ensures Body(Last(Lines(t), n)) == t + "\n"
  {
    BodyOfLines(t);
  }

  /** Of a file of whole lines the tail is exactly the last of them. */
  lemma {:induction false} TailKeepsLastLines(ls: seq<string>, n: nat)
    requires forall i :: 0 <= i < |ls| ==> '\n' !in ls[i]
    ensures Tail(Body(ls), n) == Body(Last(ls, n))
  {
    if ls != [] { LinesOfBody(ls); }
  }

  /** A last line without its newline counts as a line, and the tail closes it. */
  lemma {:induction false} TailClosesLastLine(ls: seq<string>, l: string, n: nat)
    requires forall i :: 0 <= i < |ls| ==> '\n' !in ls[i]
    requires l != "" && '\n' !in l
    ensures Tail(Body(ls) + l, n) == Body(Last(ls + [l], n))
  {
    hide Lines, Body, Last;
    var text := Body(ls) + l;
    if n == 0 {
      LastOfNone(ls + [l]);
    } else {
      LinesOfBody(ls + [l]);
      BodyConcat(ls, [l]);
      BodyOfOne(l);
      assert Body(ls) + (l + "\n") == text + "\n";
      assert Body(ls + [l])[..|Body(ls + [l])| - 1] == text;
      assert text[|text| - 1] == l[|l| - 1];
    }
  }

  lemma {:induction false} LastOfNone(ls: seq<string>)
    ensures Body(Last(ls, 0)) == ""
  {
  }
}
