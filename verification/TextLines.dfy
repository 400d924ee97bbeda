/** Splitting and joining text. */
module TextLines {

  /** The first position of `c`, or the length. */
  function Find(s: string, c: char): (i: nat)
    ensures i <= |s| && (i < |s| ==> s[i] == c) && c !in s[..i]
  {
    if s == "" then 0
    else if s[0] == c then 0
    else
      var i := Find(s[1..], c);
      assert s[..1 + i] == [s[0]] + s[1..][..i];
      1 + i
  }

  /** The parts of a text between the separators `c`; at least one. */
  function Split(s: string, c: char): (r: seq<string>)
    decreases |s|
  {
    var i := Find(s, c);
    if i == |s| then [s] else [s[..i]] + Split(s[i + 1..], c)
  }

  function Lines(s: string): seq<string> {
    Split(s, '\n')
  }

  /** Parts with one separator between them, none at the end. */
  function Join(ls: seq<string>, c: char): string {
    if ls == [] then ""
    else if |ls| == 1 then ls[0]
    else Join(ls[..|ls| - 1], c) + [c] + ls[|ls| - 1]
  }

  lemma {:induction false} FindInConcat(a: string, c: char, b: string)
    requires c !in a
    ensures Find(a + [c] + b, c) == |a|
  {
    var s := a + [c] + b;
    assert s[|a|] == c;
  }

  lemma {:induction false} FindNone(a: string, c: char)
    requires c !in a
    ensures Find(a, c) == |a|
  {
  }

  lemma {:induction false} SplitOne(s: string, c: char)
    requires c !in s
    ensures Split(s, c) == [s]
  {
  }

  lemma {:induction false} SplitCons(a: string, c: char, b: string)
    requires c !in a
    ensures Split(a + [c] + b, c) == [a] + Split(b, c)
  {
    var s := a + [c] + b;
    FindInConcat(a, c, b);
    assert s[..|a|] == a && s[|a| + 1..] == b;
  }

  lemma {:induction false} JoinCons(x: string, ls: seq<string>, c: char)
    requires ls != []
    ensures Join([x] + ls, c) == x + [c] + Join(ls, c)
  {
    var all := [x] + ls;
    if |ls| == 1 {
      assert all[..1] == [x];
    } else {
      assert all[..|all| - 1] == [x] + ls[..|ls| - 1];
      JoinCons(x, ls[..|ls| - 1], c);
    }
  }

  /** Splitting undoes joining, for parts without the separator. */
  lemma {:induction false} SplitOfJoin(ls: seq<string>, c: char)
    requires ls != [] && forall l :: l in ls ==> c !in l
    ensures Split(Join(ls, c), c) == ls
  {
    var x, rest := ls[0], ls[1..];
    if rest == [] {
      SplitOne(x, c);
      assert ls == [x];
    } else {
      assert ls == [x] + rest;
      JoinCons(x, rest, c);
      SplitOfJoin(rest, c);
      SplitCons(x, c, Join(rest, c));
    }
  }

  lemma {:induction false} LinesOfOne(s: string)
    requires '\n' !in s
    ensures Lines(s) == [s]
  {
  }

  lemma {:induction false} LinesCons(a: string, b: string)
    requires '\n' !in a
    ensures Lines(a + "\n" + b) == [a] + Lines(b)
  {
    SplitCons(a, '\n', b);
  }

  /** Splitting at any newline splits the lines there. */
  lemma {:induction false} LinesSplit(a: string, b: string)
    ensures Lines(a + "\n" + b) == Lines(a) + Lines(b)
    decreases |a|
  {
    hide Lines;
    var i := Find(a, '\n');
    if i == |a| {
      LinesCons(a, b);
      LinesOfOne(a);
    } else {
      var head, rest := a[..i], a[i + 1..];
      assert a == head + "\n" + rest;
      assert a + "\n" + b == head + "\n" + (rest + "\n" + b);
      LinesCons(head, rest);
      LinesCons(head, rest + "\n" + b);
      LinesSplit(rest, b);
    }
  }

  /** Lines each closed by a newline: the contents of a log file. */
  function Body(ls: seq<string>): string {
    if ls == [] then "" else Body(ls[..|ls| - 1]) + ls[|ls| - 1] + "\n"
  }

  lemma {:induction false} BodyConcat(a: seq<string>, b: seq<string>)
    ensures Body(a + b) == Body(a) + Body(b)
  {
    if b == [] {
      assert a + b == a;
    } else {
      var init, l := b[..|b| - 1], b[|b| - 1];
      BodyConcat(a, init);
      assert (a + b)[..|a + b| - 1] == a + init;
      assert Body(a) + Body(init) + l + "\n" == Body(a) + (Body(init) + l + "\n");
    }
  }

  lemma {:induction false} BodyOfLines(s: string)
    ensures Body(Lines(s)) == s + "\n"
    decreases |s|
  {
    var i := Find(s, '\n');
    if i == |s| {
      BodyOfOne(s);
    } else {
      BodyOfLines(s[i + 1..]);
      BodyConcat([s[..i]], Lines(s[i + 1..]));
      BodyOfOne(s[..i]);
      assert s == s[..i] + "\n" + s[i + 1..];
    }
  }

  lemma {:induction false} BodyOfOne(s: string)
    ensures Body([s]) == s + "\n"
  {
  }

  /** The lines of a file body are the lines that were written. */
  lemma {:induction false} LinesOfBody(ls: seq<string>)
    requires ls != [] && forall i :: 0 <= i < |ls| ==> '\n' !in ls[i]
    ensures var t := Body(ls); t != "" && t[|t| - 1] == '\n' && Lines(t[..|t| - 1]) == ls
  {
    hide Lines;
    var init, l := ls[..|ls| - 1], ls[|ls| - 1];
    var t := Body(ls);
    LinesOfOne(l);
    assert t[..|t| - 1] == Body(init) + l;
    if init == [] {
      assert Body(init) + l == l && ls == [l];
    } else {
      LinesOfBody(init);
      var b := Body(init);
      assert b + l == b[..|b| - 1] + "\n" + l;
      LinesSplit(b[..|b| - 1], l);
      assert ls == init + [l];
    }
  }

  // ----- Decimal numbers

  /** The number a text of digits stands for. */
  function Value(t: string): int {
    if t == "" then 0 else 10 * Value(t[..|t| - 1]) + (t[|t| - 1] as int - '0' as int)
  }

  lemma {:induction false} ValueOfDigits(t: string, h: nat, m: nat, l: nat)
    requires 1 <= |t| <= 3 && h < 10 && m < 10 && l < 10
    requires t[|t| - 1] as int == 48 + l && (if |t| > 1 then t[|t| - 2] as int == 48 + m else m == 0)
    requires if |t| > 2 then t[0] as int == 48 + h else h == 0
    ensures Value(t) == 100 * h + 10 * m + l
  {
    var u := t[..|t| - 1];
    if |t| > 1 {
      assert u[|u| - 1] == t[|t| - 2];
      var w := u[..|u| - 1];
      assert Value(t) == 10 * Value(u) + l && Value(u) == 10 * Value(w) + m;
      if |t| > 2 { assert w[0] == t[0] && w[..0] == "" && Value(w) == h; }
    } else {
      assert u == "";
    }
  }
}
