/** What happens to lines over whole runs of a log: where each one is, what each
    archive is called, and how large the live file gets. */
module LogRuns {
  import opened TextLines
  import opened LogFormat
  import opened LogRotation

  datatype Entry = Entry(line: string, stamp: Stamp)

  /** One archived file: the range it went to and the entries it held. */
  datatype Generation = Generation(range: string, entries: seq<Entry>)

  datatype Op = AppendOp(line: string, stamp: Stamp, env: Env) | ResizeOp(bytes: nat, env: Env)

  /** What a call does about rotation. */
  datatype Outcome = Untouched | Archives | Retries | Carries

  function RotationOutcome(s: Log, incoming: nat, env: Env): Outcome {
    if !Rotates(s, incoming) then Untouched
    else if env.card && env.copy == Copied then Archives
    else if !env.card || s.failed + 1 >= MAX_ATTEMPTS then Carries
    else Retries
  }

  function OutcomeOf(s: Log, op: Op): Outcome {
    match op
    case AppendOp(line, _, env) => if env.folderOk then RotationOutcome(s, |line| + 1, env) else Untouched
    case ResizeOp(bytes, env) =>
      if |s.live| > bytes then RotationOutcome(s.(maxBytes := bytes), 0, env) else Untouched
  }

  /** The copy broke off, so the cleanup removes the range file. */
  predicate Breaks(outcome: Outcome, env: Env) {
    outcome != Untouched && env.card && env.copy == Broken
  }

  predicate Accepts(op: Op) {
    op.AppendOp? && op.env.folderOk && op.env.writeOk
  }

  /** The log beside its history: the generations in the range files, the entries of
      the live file, the outcome of every archive attempt, and how many rewrites of
      the live file were refused since the last one that succeeded. */
  datatype Trace = Trace(log: Log, gens: seq<Generation>, current: seq<Entry>, attempts: seq<bool>, stuck: nat)

  function Without(gens: seq<Generation>, range: string): seq<Generation> {
    if gens == [] then []
    else
      var g := gens[|gens| - 1];
      Without(gens[..|gens| - 1], range) + if g.range == range then [] else [g]
  }

  /** The entries of the live file after a call that rewrites it with the last `keep`. */
  function Rewritten(t: Trace, keep: nat, env: Env): seq<Entry> {
    if env.freshOk then Last(t.current, keep) else t.current
  }

  function RotateTrace(t: Trace, incoming: nat, env: Env): Trace {
    var log := Rotate(t.log, incoming, env);
    var outcome := RotationOutcome(t.log, incoming, env);
    var range := RangeName(t.log.first, t.log.last);
    var stuck := if env.freshOk then 0 else t.stuck + 1;
    var gens := if Breaks(outcome, env) then Without(t.gens, range) else t.gens;
    match outcome
    case Untouched => t
    case Archives =>
      Trace(log, gens + [Generation(range, t.current)], Rewritten(t, 0, env), t.attempts + [true], stuck)
    case Retries => Trace(log, gens, t.current, t.attempts + [false], t.stuck)
    case Carries =>
      Trace(log, gens, Rewritten(t, KEEP_LINES, env), t.attempts + if env.card then [false] else [], stuck)
  }

  /** The rotation a call makes before it writes. */
  function Rotated(t: Trace, op: Op): Trace {
    match op
    case AppendOp(line, _, env) => if env.folderOk then RotateTrace(t, |line| + 1, env) else t
    case ResizeOp(bytes, env) =>
      var u := t.(log := t.log.(maxBytes := bytes));
      if |t.log.live| > bytes then RotateTrace(u, 0, env) else u
  }

  function Written(t: Trace, line: string, stamp: Stamp): Trace {
    t.(log := Remember(t.log.(live := t.log.live + (line + "\n"), lines := t.log.lines + 1), stamp),
       current := t.current + [Entry(line, stamp)])
  }

  function StepTrace(t: Trace, op: Op): Trace {
    if Accepts(op) then Written(Rotated(t, op), op.line, op.stamp) else Rotated(t, op)
  }

  function TraceAfter(cap: nat, ops: seq<Op>): Trace {
    if ops == [] then Trace(Empty(cap), [], [], [], 0)
    else StepTrace(TraceAfter(cap, ops[..|ops| - 1]), ops[|ops| - 1])
  }

  /** The log of a trace is what the writer's calls make of it. */
  lemma {:induction false} TraceFollowsTheWriter(t: Trace, op: Op)
    ensures StepTrace(t, op).log ==
      match op
      case AppendOp(line, stamp, env) => AppendLine(t.log, line, stamp, env).0
      case ResizeOp(bytes, env) => SetMax(t.log, bytes, env)
    ensures op.AppendOp? ==> (AppendLine(t.log, op.line, op.stamp, op.env).1 <==> op.env.folderOk && op.env.writeOk)
  {
    hide RangeName, Tail, Newlines;
  }

  // ----- When the log rotates

  /** A log with room for the line and its newline is only appended to. */
  lemma {:induction false} RoomIsOnlyFilled(t: Trace, line: string, stamp: Stamp, env: Env)
    requires env.folderOk && env.writeOk && |t.log.live| + |line| + 2 <= t.log.maxBytes
    ensures var u := StepTrace(t, AppendOp(line, stamp, env));
      && u.log.live == t.log.live + line + "\n" && u.log.archive == t.log.archive && u.gens == t.gens
      && u.attempts == t.attempts && u.log.lines == t.log.lines + 1
      && u.log.failed == t.log.failed && u.log.archives == t.log.archives && u.log.carryOvers == t.log.carryOvers
      && u.log.maxBytes == t.log.maxBytes
      && u.log.firstSeen == (t.log.firstSeen || stamp.Real?)
      && u.log.first == (if stamp.Real? && !t.log.firstSeen then stamp.date else t.log.first)
      && u.log.last == (if stamp.Real? then stamp.date else t.log.last)
  {
    hide Rotate, RangeName, Without;
  }

  /** An append tries to archive or carries the tail, if and only if the live folder is
      there, the file has no room for the line, and a real day is known. */
  lemma {:induction false} AppendRotatesExactlyWhen(t: Trace, line: string, stamp: Stamp, env: Env)
    ensures var u := StepTrace(t, AppendOp(line, stamp, env));
      u.attempts != t.attempts || u.log.carryOvers != t.log.carryOvers <==>
        env.folderOk && |t.log.live| + |line| + 2 > t.log.maxBytes && t.log.firstSeen
  {
    hide RangeName, Without, Tail, Newlines;
  }

  /** A new cap does so, if and only if the file is over it and a real day is known. */
  lemma {:induction false} ResizeRotatesExactlyWhen(t: Trace, bytes: nat, env: Env)
    ensures var u := StepTrace(t, ResizeOp(bytes, env));
      && u.log.maxBytes == bytes
      && (u.attempts != t.attempts || u.log.carryOvers != t.log.carryOvers <==>
            |t.log.live| > bytes && t.log.firstSeen)
  {
    hide RangeName, Without, Tail, Newlines;
  }

  /** What an append that has no room does: with a card it tries to archive, and only a
      copy that completes counts; without one, or at the tenth failure in a row, it
      carries the tail. */
  lemma {:induction false} RotationBranches(t: Trace, line: string, stamp: Stamp, env: Env)
    requires env.folderOk && |t.log.live| + |line| + 2 > t.log.maxBytes && t.log.firstSeen
    ensures var u := StepTrace(t, AppendOp(line, stamp, env));
      && u.attempts == t.attempts + (if env.card then [env.copy == Copied] else [])
      && u.log.archives == t.log.archives + (if env.card && env.copy == Copied then 1 else 0)
      && u.log.carryOvers == t.log.carryOvers +
           (if !env.card || (env.copy != Copied && t.log.failed + 1 >= 10) then 1 else 0)
      && u.log.failed ==
           if !env.card then t.log.failed
           else if env.copy == Copied || t.log.failed + 1 >= 10 then 0 else t.log.failed + 1
  {
    hide RangeName, Without, Tail, Newlines;
  }

  // ----- The live file holds the current entries

  function LinesOf(es: seq<Entry>): (r: seq<string>)
    ensures |r| == |es| && forall i :: 0 <= i < |es| ==> r[i] == es[i].line
  {
    seq(|es|, i requires 0 <= i < |es| => es[i].line)
  }

  function Text(es: seq<Entry>): string { Body(LinesOf(es)) }

  ghost predicate OneLiners(es: seq<Entry>) {
    forall i :: 0 <= i < |es| ==> '\n' !in es[i].line
  }

  /** A record is one line. */
  predicate GoodOp(op: Op) {
    op.AppendOp? ==> '\n' !in op.line
  }

  ghost predicate LiveIsCurrent(t: Trace) {
    OneLiners(t.current) && t.log.live == Text(t.current)
  }

  lemma {:induction false} TailOfText(es: seq<Entry>)
    requires OneLiners(es)
    ensures Tail(Text(es), KEEP_LINES) == Text(Last(es, KEEP_LINES)) && OneLiners(Last(es, KEEP_LINES))
  {
    TailKeepsLastLines(LinesOf(es), KEEP_LINES);
    assert LinesOf(Last(es, KEEP_LINES)) == Last(LinesOf(es), KEEP_LINES);
  }

  lemma {:induction false} TextAppend(es: seq<Entry>, e: Entry)
    ensures Text(es + [e]) == Text(es) + (e.line + "\n")
  {
    var all := LinesOf(es + [e]);
    assert all[..|es|] == LinesOf(es);
  }

  lemma {:induction false} NothingWritten()
    ensures Text([]) == ""
  {
  }

  lemma {:induction false} RotateKeepsLive(t: Trace, incoming: nat, env: Env)
    requires LiveIsCurrent(t)
    ensures LiveIsCurrent(RotateTrace(t, incoming, env))
  {
    hide Tail, Text, RangeName, Newlines;
    TailOfText(t.current);
    NothingWritten();
    assert Last(t.current, 0) == [];
  }

  lemma {:induction false} WriteKeepsLive(t: Trace, line: string, stamp: Stamp)
    requires LiveIsCurrent(t) && '\n' !in line
    ensures LiveIsCurrent(Written(t, line, stamp))
  {
    hide Text;
    TextAppend(t.current, Entry(line, stamp));
  }

  lemma {:induction false} StepKeepsLive(t: Trace, op: Op)
    requires LiveIsCurrent(t) && GoodOp(op)
    ensures LiveIsCurrent(Rotated(t, op)) && LiveIsCurrent(StepTrace(t, op))
  {
    hide Text, RotateTrace, Written;
    match op {
      case AppendOp(line, _, env) => RotateKeepsLive(t, |line| + 1, env);
      case ResizeOp(bytes, env) => RotateKeepsLive(t.(log := t.log.(maxBytes := bytes)), 0, env);
    }
    if Accepts(op) { WriteKeepsLive(Rotated(t, op), op.line, op.stamp); }
  }

  /** At every moment the live file is exactly its entries, one per line. */
  lemma {:induction false} LiveFileHoldsCurrent(cap: nat, ops: seq<Op>)
    requires forall i :: 0 <= i < |ops| ==> GoodOp(ops[i])
    ensures LiveIsCurrent(TraceAfter(cap, ops))
  {
    hide StepTrace, Text;
    if ops == [] {
      NothingWritten();
    } else {
      LiveFileHoldsCurrent(cap, ops[..|ops| - 1]);
      StepKeepsLive(TraceAfter(cap, ops[..|ops| - 1]), ops[|ops| - 1]);
    }
  }

  // ----- Counters

  lemma {:induction false} NewlinesAppend(s: string, l: string)
    requires '\n' !in l
    ensures Newlines(s + l) == Newlines(s)
  {
    if l == "" {
      assert s + l == s;
    } else {
      NewlinesAppend(s, l[..|l| - 1]);
      assert (s + l)[..|s + l| - 1] == s + l[..|l| - 1];
      assert (s + l)[|s + l| - 1] in l;
    }
  }

  lemma {:induction false} NewlinesOfText(es: seq<Entry>)
    requires OneLiners(es)
    ensures Newlines(Text(es)) == |es|
  {
    if es == [] {
      NothingWritten();
    } else {
      var init, e := es[..|es| - 1], es[|es| - 1];
      assert es == init + [e];
      NewlinesOfText(init);
      TextAppend(init, e);
      NewlinesAppend(Text(init), e.line);
      var t := Text(es);
      assert t == Text(init) + e.line + "\n" && t[..|t| - 1] == Text(init) + e.line;
    }
  }

  function Successes(attempts: seq<bool>): nat {
    if attempts == [] then 0
    else Successes(attempts[..|attempts| - 1]) + if attempts[|attempts| - 1] then 1 else 0
  }

  /** The line counter was reset for a file that then could not be emptied. */
  function Miscounts(cap: nat, ops: seq<Op>): bool {
    if ops == [] then false
    else
      var init, op := ops[..|ops| - 1], ops[|ops| - 1];
      var outcome := OutcomeOf(TraceAfter(cap, init).log, op);
      if outcome == Archives then !op.env.freshOk
      else Miscounts(cap, init) && !(outcome == Carries && op.env.freshOk)
  }

  ghost predicate CountersAre(t: Trace, wrong: bool) {
    && t.log.archives == Successes(t.attempts)
    && (if wrong then t.log.lines < |t.current| else t.log.lines == |t.current|)
    && (t.log.firstSeen ==> t.current != [])
  }

  lemma {:induction false} RotateKeepsCounters(t: Trace, incoming: nat, env: Env, wrong: bool)
    requires LiveIsCurrent(t) && CountersAre(t, wrong)
    ensures var outcome := RotationOutcome(t.log, incoming, env);
      CountersAre(RotateTrace(t, incoming, env),
        if outcome == Archives then !env.freshOk else wrong && !(outcome == Carries && env.freshOk))
  {
    hide Tail, Text, RangeName, Newlines, Without;
    TailOfText(t.current);
    NewlinesOfText(Last(t.current, KEEP_LINES));
    assert (t.attempts + [true])[..|t.attempts|] == t.attempts == (t.attempts + [false])[..|t.attempts|];
    assert t.attempts + [] == t.attempts;
  }

  lemma {:induction false} StepKeepsCounters(t: Trace, op: Op, wrong: bool)
    requires LiveIsCurrent(t) && CountersAre(t, wrong)
    ensures var outcome := OutcomeOf(t.log, op);
      CountersAre(StepTrace(t, op),
        if outcome == Archives then !op.env.freshOk else wrong && !(outcome == Carries && op.env.freshOk))
  {
    hide RotateTrace, RotationOutcome, Text;
    match op
    case AppendOp(line, _, env) => RotateKeepsCounters(t, |line| + 1, env, wrong);
    case ResizeOp(bytes, env) => RotateKeepsCounters(t.(log := t.log.(maxBytes := bytes)), 0, env, wrong);
  }

  /** `archives` counts the successful copies, and `lines` the lines of the live file
      if and only if the last archive whose file was not rewritten since could empty
      it. */
  lemma {:induction false} CountersStayRight(cap: nat, ops: seq<Op>)
    requires forall i :: 0 <= i < |ops| ==> GoodOp(ops[i])
    ensures var t := TraceAfter(cap, ops);
      t.log.archives == Successes(t.attempts) && (t.log.lines == |t.current| <==> !Miscounts(cap, ops))
    ensures CountersAre(TraceAfter(cap, ops), Miscounts(cap, ops))
  {
    hide StepTrace, GoodOp, LiveIsCurrent, OutcomeOf;
    if ops != [] {
      var init := ops[..|ops| - 1];
      CountersStayRight(cap, init);
      LiveFileHoldsCurrent(cap, init);
      StepKeepsCounters(TraceAfter(cap, init), ops[|ops| - 1], Miscounts(cap, init));
    }
  }

  // ----- Range files

  /** The generations of a range, one after another. */
  function RangeText(gens: seq<Generation>, range: string): string {
    if gens == [] then ""
    else
      var g := gens[|gens| - 1];
      RangeText(gens[..|gens| - 1], range) + if g.range == range then Text(g.entries) else ""
  }

  /** How many entries a range file holds. */
  function Filed(gens: seq<Generation>, range: string): nat {
    if gens == [] then 0
    else
      var g := gens[|gens| - 1];
      Filed(gens[..|gens| - 1], range) + if g.range == range then |g.entries| else 0
  }

  lemma {:induction false} OneMoreGeneration(gens: seq<Generation>, g: Generation, range: string)
    ensures RangeText(gens + [g], range) == RangeText(gens, range) + if g.range == range then Text(g.entries) else ""
    ensures Filed(gens + [g], range) == Filed(gens, range) + if g.range == range then |g.entries| else 0
    ensures Archived(gens + [g]) == Archived(gens) + g.entries
  {
    assert (gens + [g])[..|gens|] == gens;
  }

  lemma {:induction false} RemovedStep(init: seq<Generation>, g: Generation, range: string, r: string)
    ensures var left, more := Without(init, range), if g.range == r then Text(g.entries) else "";
      && RangeText(init + [g], r) == RangeText(init, r) + more
      && RangeText(Without(init + [g], range), r) == RangeText(left, r) + (if g.range == range then "" else more)
      && Filed(init + [g], range) == Filed(init, range) + (if g.range == range then |g.entries| else 0)
      && Filed(init + [g], r) == Filed(init, r) + (if g.range == r then |g.entries| else 0)
      && Filed(Without(init + [g], range), r) ==
           Filed(left, r) + (if g.range == range || g.range != r then 0 else |g.entries|)
      && Archived(init + [g]) == Archived(init) + g.entries
      && Archived(Without(init + [g], range)) == Archived(left) + (if g.range == range then [] else g.entries)
  {
    hide Text, RangeText, Filed, Archived;
    var left := Without(init, range);
    assert (init + [g])[..|init|] == init;
    assert left + [] == left;
    OneMoreGeneration(init, g, r);
    OneMoreGeneration(init, g, range);
    OneMoreGeneration(left, g, r);
    assert Archived(left) + [] == Archived(left);
    assert RangeText(left, r) + "" == RangeText(left, r);
  }

  lemma {:induction false} NoGenerations(range: string, r: string)
    ensures Without([], range) == [] && Archived([]) == []
    ensures RangeText([], r) == "" && Filed([], r) == 0 == Filed([], range)
  {
  }

  /** Removing a range file removes its generations and no other. */
  lemma {:induction false} RemovedRange(gens: seq<Generation>, range: string, r: string)
    ensures RangeText(Without(gens, range), r) == if r == range then "" else RangeText(gens, r)
    ensures Filed(Without(gens, range), r) == if r == range then 0 else Filed(gens, r)
    ensures |Archived(gens)| == |Archived(Without(gens, range))| + Filed(gens, range)
  {
    hide Text, RangeText, Filed, Archived, Without;
    if gens == [] {
      NoGenerations(range, r);
    } else {
      var init, g := gens[..|gens| - 1], gens[|gens| - 1];
      assert gens == init + [g];
      RemovedStep(init, g, range, r);
      RemovedRange(init, range, r);
    }
  }

  ghost predicate RangesHold(t: Trace) {
    forall r: string :: Stored(t.log.archive, r) == RangeText(t.gens, r)
  }

  /** A range file exists exactly when some entry was filed in it, and a range has a
      name only while the live file has entries. */
  ghost predicate FilesHoldEntries(t: Trace) {
    && (forall r: string :: r in t.log.archive <==> Filed(t.gens, r) > 0)
    && (t.log.firstSeen ==> t.current != [])
  }

  lemma {:induction false} RotateFiles(t: Trace, incoming: nat, env: Env, r: string)
    ensures var range, u := RangeName(t.log.first, t.log.last), RotateTrace(t, incoming, env);
      match RotationOutcome(t.log, incoming, env)
      case Untouched => u.log.archive == t.log.archive && u.gens == t.gens
      case Archives =>
        && u.log.archive == t.log.archive[range := Stored(t.log.archive, range) + t.log.live]
        && RangeText(u.gens, r) == RangeText(t.gens, r) + (if r == range then Text(t.current) else "")
        && Filed(u.gens, r) == Filed(t.gens, r) + (if r == range then |t.current| else 0)
      case _ =>
        if env.card && env.copy == Broken then
          && u.log.archive == t.log.archive - {range}
          && RangeText(u.gens, r) == (if r == range then "" else RangeText(t.gens, r))
          && Filed(u.gens, r) == (if r == range then 0 else Filed(t.gens, r))
        else u.log.archive == t.log.archive && u.gens == t.gens
  {
    hide RangeName, Text, Tail, Newlines, Filed, RangeText, Last;
    var range := RangeName(t.log.first, t.log.last);
    OneMoreGeneration(t.gens, Generation(range, t.current), r);
    RemovedRange(t.gens, range, r);
  }

  lemma {:induction false} RotateKeepsRanges(t: Trace, incoming: nat, env: Env)
    requires RangesHold(t) && LiveIsCurrent(t)
    ensures RangesHold(RotateTrace(t, incoming, env))
  {
    hide RangeName, Text, RangeText, RotateTrace, RotationOutcome;
    forall r: string
      ensures Stored(RotateTrace(t, incoming, env).log.archive, r) == RangeText(RotateTrace(t, incoming, env).gens, r)
    {
      RotateFiles(t, incoming, env, r);
    }
  }

  lemma {:induction false} StepKeepsRanges(t: Trace, op: Op)
    requires RangesHold(t) && LiveIsCurrent(t)
    ensures RangesHold(StepTrace(t, op))
  {
    hide RotateTrace, RangeText, Stored;
    match op
    case AppendOp(line, _, env) => RotateKeepsRanges(t, |line| + 1, env);
    case ResizeOp(bytes, env) => RotateKeepsRanges(t.(log := t.log.(maxBytes := bytes)), 0, env);
  }

  /** Each range file is the concatenation of its generations. */
  lemma {:induction false} RangeFilesHoldGenerations(cap: nat, ops: seq<Op>)
    requires forall i :: 0 <= i < |ops| ==> GoodOp(ops[i])
    ensures RangesHold(TraceAfter(cap, ops))
  {
    hide StepTrace, LiveIsCurrent, GoodOp;
    if ops != [] {
      var init := ops[..|ops| - 1];
      RangeFilesHoldGenerations(cap, init);
      LiveFileHoldsCurrent(cap, init);
      StepKeepsRanges(TraceAfter(cap, init), ops[|ops| - 1]);
    }
  }

  /** A rotation keeps every archived text, if and only if it is not a copy that
      broke off while its range file already existed. */
  lemma {:induction false} ArchiveSurvivesExactlyWhen(s: Log, incoming: nat, env: Env)
    ensures var after := Rotate(s, incoming, env).archive;
      (forall r :: r in s.archive ==> r in after && s.archive[r] <= Stored(after, r))
      <==> !(Rotates(s, incoming) && env.card && env.copy == Broken && RangeName(s.first, s.last) in s.archive)
  {
  }

  // ----- No line is lost, none repeated

  function Accepted(ops: seq<Op>): seq<Entry> {
    if ops == [] then []
    else
      var op := ops[|ops| - 1];
      Accepted(ops[..|ops| - 1]) + if Accepts(op) then [Entry(op.line, op.stamp)] else []
  }

  function Archived(gens: seq<Generation>): seq<Entry> {
    if gens == [] then [] else Archived(gens[..|gens| - 1]) + gens[|gens| - 1].entries
  }

  /** Everything the range files and the live file hold. */
  function AllEntries(t: Trace): seq<Entry> { Archived(t.gens) + t.current }

  /** The call archived the live file and could not empty it. */
  predicate RepeatsAt(s: Log, op: Op) {
    OutcomeOf(s, op) == Archives && !op.env.freshOk
  }

  /** The call broke off a copy into an existing range file, or replaced a live file
      of more than ten lines by its tail. */
  predicate LosesAt(t: Trace, op: Op) {
    var outcome := OutcomeOf(t.log, op);
    || (Breaks(outcome, op.env) && RangeName(t.log.first, t.log.last) in t.log.archive)
    || (outcome == Carries && op.env.freshOk && |t.current| > KEEP_LINES)
  }

  predicate Repeats(cap: nat, ops: seq<Op>) {
    ops != [] &&
    var init := ops[..|ops| - 1];
    Repeats(cap, init) || RepeatsAt(TraceAfter(cap, init).log, ops[|ops| - 1])
  }

  predicate Loses(cap: nat, ops: seq<Op>) {
    ops != [] &&
    var init := ops[..|ops| - 1];
    Loses(cap, init) || LosesAt(TraceAfter(cap, init), ops[|ops| - 1])
  }

  /** How many entries the call repeats, and how many it loses. */
  function RepeatedBy(t: Trace, op: Op): nat {
    if RepeatsAt(t.log, op) then |t.current| else 0
  }

  function LostBy(t: Trace, op: Op): nat {
    var outcome := OutcomeOf(t.log, op);
    (if Breaks(outcome, op.env) then Filed(t.gens, RangeName(t.log.first, t.log.last)) else 0) +
    (if outcome == Carries && op.env.freshOk then |t.current| - |Last(t.current, KEEP_LINES)| else 0)
  }

  function Repeated(cap: nat, ops: seq<Op>): nat {
    if ops == [] then 0
    else
      var init := ops[..|ops| - 1];
      Repeated(cap, init) + RepeatedBy(TraceAfter(cap, init), ops[|ops| - 1])
  }

  function Lost(cap: nat, ops: seq<Op>): nat {
    if ops == [] then 0
    else
      var init := ops[..|ops| - 1];
      Lost(cap, init) + LostBy(TraceAfter(cap, init), ops[|ops| - 1])
  }

  lemma {:induction false} RotateKeepsFiles(t: Trace, incoming: nat, env: Env)
    requires FilesHoldEntries(t)
    ensures FilesHoldEntries(RotateTrace(t, incoming, env))
  {
    hide RangeName, Text, RangeText, Filed, RotateTrace, Stored;
    var u := RotateTrace(t, incoming, env);
    forall r: string ensures r in u.log.archive <==> Filed(u.gens, r) > 0 {
      RotateFiles(t, incoming, env, r);
    }
    StillNamed(t, incoming, env);
  }

  lemma {:induction false} StillNamed(t: Trace, incoming: nat, env: Env)
    requires t.log.firstSeen ==> t.current != []
    ensures var u := RotateTrace(t, incoming, env); u.log.firstSeen ==> u.current != []
  {
    hide RangeName, Tail, Newlines, Without;
  }

  lemma {:induction false} StepKeepsFiles(t: Trace, op: Op)
    requires FilesHoldEntries(t)
    ensures FilesHoldEntries(StepTrace(t, op))
  {
    hide RotateTrace, Filed;
    match op
    case AppendOp(line, _, env) => RotateKeepsFiles(t, |line| + 1, env);
    case ResizeOp(bytes, env) => RotateKeepsFiles(t.(log := t.log.(maxBytes := bytes)), 0, env);
  }

  lemma {:induction false} FilesAlwaysHoldEntries(cap: nat, ops: seq<Op>)
    ensures FilesHoldEntries(TraceAfter(cap, ops))
  {
    hide StepTrace;
    if ops != [] {
      FilesAlwaysHoldEntries(cap, ops[..|ops| - 1]);
      StepKeepsFiles(TraceAfter(cap, ops[..|ops| - 1]), ops[|ops| - 1]);
    }
  }

  lemma {:induction false} NothingRemoved(gens: seq<Generation>, range: string)
    requires Filed(gens, range) == 0
    ensures Archived(Without(gens, range)) == Archived(gens)
  {
    hide Text, RangeText, Filed, Archived, Without;
    if gens == [] {
      NoGenerations(range, range);
    } else {
      var init, g := gens[..|gens| - 1], gens[|gens| - 1];
      assert gens == init + [g];
      RemovedStep(init, g, range, range);
      NothingRemoved(init, range);
    }
  }

  /** What a rotation loses and repeats, and the entries in order when it does neither. */
  lemma {:induction false} RotateEntries(t: Trace, incoming: nat, env: Env)
    ensures var u, outcome := RotateTrace(t, incoming, env), RotationOutcome(t.log, incoming, env);
      var removed := if Breaks(outcome, env) then Filed(t.gens, RangeName(t.log.first, t.log.last)) else 0;
      var carried := outcome == Carries && env.freshOk;
      var lost := removed + if carried then |t.current| - |Last(t.current, KEEP_LINES)| else 0;
      var repeated := outcome == Archives && !env.freshOk;
      && |AllEntries(u)| + lost == |AllEntries(t)| + (if repeated then |t.current| else 0)
      && (lost == 0 && !repeated ==> AllEntries(u) == AllEntries(t))
  {
    hide RangeName, Filed, Archived, Rotate, Without;
    var range := RangeName(t.log.first, t.log.last);
    OneMoreGeneration(t.gens, Generation(range, t.current), range);
    RemovedRange(t.gens, range, range);
    if Filed(t.gens, range) == 0 { NothingRemoved(t.gens, range); }
  }

  /** One call: what it adds, less what it loses and plus what it repeats; and the
      entries in order when it does neither. */
  lemma {:induction false} StepEntries(t: Trace, op: Op)
    ensures var added := if Accepts(op) then [Entry(op.line, op.stamp)] else [];
      && |AllEntries(StepTrace(t, op))| + LostBy(t, op) == |AllEntries(t)| + RepeatedBy(t, op) + |added|
      && (LostBy(t, op) == 0 && !RepeatsAt(t.log, op) ==> AllEntries(StepTrace(t, op)) == AllEntries(t) + added)
  {
    hide RotateTrace, RotationOutcome, Filed, RangeName, Archived;
    match op {
      case AppendOp(line, _, env) => if env.folderOk { RotateEntries(t, |line| + 1, env); }
      case ResizeOp(bytes, env) => RotateEntries(t.(log := t.log.(maxBytes := bytes)), 0, env);
    }
    var u := Rotated(t, op);
    assert |AllEntries(u)| + LostBy(t, op) == |AllEntries(t)| + RepeatedBy(t, op);
    if Accepts(op) { WriteAdds(u, op.line, op.stamp); }
  }

  /** The calls that lose or repeat something are exactly the ones named. */
  lemma {:induction false} LossIsNamed(t: Trace, op: Op)
    requires FilesHoldEntries(t)
    ensures (LostBy(t, op) > 0 <==> LosesAt(t, op)) && (RepeatedBy(t, op) > 0 <==> RepeatsAt(t.log, op))
  {
    hide Filed, RangeName;
  }

  /** Conservation, for every run: what the files hold, plus what was lost, is what
      was accepted plus what was repeated. */
  lemma {:induction false} EntriesAreConserved(cap: nat, ops: seq<Op>)
    ensures |AllEntries(TraceAfter(cap, ops))| + Lost(cap, ops) == |Accepted(ops)| + Repeated(cap, ops)
    ensures (Lost(cap, ops) > 0 <==> Loses(cap, ops)) && (Repeated(cap, ops) > 0 <==> Repeats(cap, ops))
  {
    hide StepTrace, AllEntries, LostBy, RepeatedBy, LosesAt, RepeatsAt, FilesHoldEntries;
    if ops == [] {
      NothingYet(cap);
    } else {
      var init, op := ops[..|ops| - 1], ops[|ops| - 1];
      EntriesAreConserved(cap, init);
      FilesAlwaysHoldEntries(cap, init);
      StepEntries(TraceAfter(cap, init), op);
      LossIsNamed(TraceAfter(cap, init), op);
    }
  }

  lemma {:induction false} NothingYet(cap: nat)
    ensures AllEntries(TraceAfter(cap, [])) == []
  {
  }

  lemma {:induction false} EntriesInOrder(cap: nat, ops: seq<Op>)
    requires !Loses(cap, ops) && !Repeats(cap, ops)
    ensures AllEntries(TraceAfter(cap, ops)) == Accepted(ops)
  {
    hide StepTrace, AllEntries, LostBy, RepeatedBy, LosesAt, RepeatsAt, FilesHoldEntries;
    if ops == [] {
      NothingYet(cap);
    } else {
      var init, op := ops[..|ops| - 1], ops[|ops| - 1];
      EntriesInOrder(cap, init);
      FilesAlwaysHoldEntries(cap, init);
      StepEntries(TraceAfter(cap, init), op);
      LossIsNamed(TraceAfter(cap, init), op);
    }
  }

  /** The archived generations followed by the live file are all accepted lines, in
      order and each once: in a run that loses nothing, if and only if every archive
      could empty the live file; in a run in which every archive could, if and only
      if nothing was lost. */
  lemma {:induction false} NoLineLost(cap: nat, ops: seq<Op>)
    ensures !Loses(cap, ops) ==> (AllEntries(TraceAfter(cap, ops)) == Accepted(ops) <==> !Repeats(cap, ops))
    ensures !Repeats(cap, ops) ==> (AllEntries(TraceAfter(cap, ops)) == Accepted(ops) <==> !Loses(cap, ops))
  {
    hide TraceAfter, AllEntries, Accepted;
    EntriesAreConserved(cap, ops);
    if !Loses(cap, ops) && !Repeats(cap, ops) { EntriesInOrder(cap, ops); }
  }

  lemma {:induction false} StepMissesNothing(t: Trace, op: Op)
    requires LostBy(t, op) == 0
    ensures var added := if Accepts(op) then [Entry(op.line, op.stamp)] else [];
      multiset(AllEntries(t) + added) <= multiset(AllEntries(StepTrace(t, op)))
  {
    hide RotateTrace, RotationOutcome, Filed, RangeName, Archived, Written;
    match op {
      case AppendOp(line, _, env) => if env.folderOk { RotateMissesNothing(t, |line| + 1, env); }
      case ResizeOp(bytes, env) =>
        if |t.log.live| > bytes { RotateMissesNothing(t.(log := t.log.(maxBytes := bytes)), 0, env); }
    }
    if Accepts(op) { WriteAdds(Rotated(t, op), op.line, op.stamp); }
    assert AllEntries(t) + [] == AllEntries(t);
  }

  lemma {:induction false} WriteAdds(t: Trace, line: string, stamp: Stamp)
    ensures AllEntries(Written(t, line, stamp)) == AllEntries(t) + [Entry(line, stamp)]
  {
    hide Archived;
  }

  lemma {:induction false} RotateMissesNothing(t: Trace, incoming: nat, env: Env)
    requires var outcome := RotationOutcome(t.log, incoming, env);
      && (Breaks(outcome, env) ==> Filed(t.gens, RangeName(t.log.first, t.log.last)) == 0)
      && (outcome == Carries && env.freshOk ==> |t.current| == |Last(t.current, KEEP_LINES)|)
    ensures multiset(AllEntries(t)) <= multiset(AllEntries(RotateTrace(t, incoming, env)))
  {
    hide RangeName, Filed, Archived, Rotate;
    var outcome := RotationOutcome(t.log, incoming, env);
    if outcome == Archives && !env.freshOk {
      var range := RangeName(t.log.first, t.log.last);
      OneMoreGeneration(t.gens, Generation(range, t.current), range);
    } else {
      RotateEntries(t, incoming, env);
    }
  }

  /** In a run that loses nothing every accepted line is in the files at least as
      often as it was accepted, also when an archive could not empty the live file. */
  lemma {:induction false} NoLineMissing(cap: nat, ops: seq<Op>)
    requires !Loses(cap, ops)
    ensures multiset(Accepted(ops)) <= multiset(AllEntries(TraceAfter(cap, ops)))
  {
    hide StepTrace, AllEntries, LostBy, RepeatedBy, LosesAt, FilesHoldEntries;
    if ops != [] {
      var init, op := ops[..|ops| - 1], ops[|ops| - 1];
      NoLineMissing(cap, init);
      FilesAlwaysHoldEntries(cap, init);
      LossIsNamed(TraceAfter(cap, init), op);
      StepMissesNothing(TraceAfter(cap, init), op);
    }
  }

  const SOME_DAY := LogDate(2026, 5, 1)
  const GOOD_DAY := Env(true, true, Copied, true, true)

  function Day(line: string, env: Env): Op { AppendOp(line, Real(SOME_DAY), env) }

  /** The log of one line of one character under a cap that has no room for another. */
  lemma {:induction false} OneLineLog()
    ensures var ops := [Day("a", GOOD_DAY)];
      && TraceAfter(4, ops).log == Empty(4).(live := "a\n", lines := 1, firstSeen := true,
                                             first := SOME_DAY, last := SOME_DAY)
      && !Loses(4, ops) && !Repeats(4, ops)
  {
    var ops := [Day("a", GOOD_DAY)];
    assert ops[..0] == [];
    assert "" + ("a" + "\n") == "a\n";
  }

  /** A line that is archived and then stays in the live file, which cannot be
      rewritten: it is in both, and nothing was carried. */
  lemma {:induction false} RefusedRewriteRepeatsALine()
    ensures
      var ops := [Day("a", GOOD_DAY), Day("b", GOOD_DAY.(freshOk := false))];
      var log := TraceAfter(4, ops).log;
      && log.live == "a\nb\n" && Stored(log.archive, RangeName(SOME_DAY, SOME_DAY)) == "a\n"
      && log.carryOvers == 0 && !Loses(4, ops) && Repeats(4, ops)
      && log.lines == 1 && Miscounts(4, ops)
  {
    hide RangeName, TraceAfter, RotateTrace, Tail;
    var ops := [Day("a", GOOD_DAY), Day("b", GOOD_DAY.(freshOk := false))];
    assert ops[..1] == [ops[0]];
    OneLineLog();
    NextLog(4, ops);
    assert "a\n" + ("b" + "\n") == "a\nb\n";
    assert "" + "a\n" == "a\n";
  }

  lemma {:induction false} NextLog(cap: nat, ops: seq<Op>)
    requires ops != [] && ops[|ops| - 1].AppendOp?
    ensures var op := ops[|ops| - 1];
      TraceAfter(cap, ops).log == AppendLine(TraceAfter(cap, ops[..|ops| - 1]).log, op.line, op.stamp, op.env).0
  {
    hide StepTrace, AppendLine;
    TraceFollowsTheWriter(TraceAfter(cap, ops[..|ops| - 1]), ops[|ops| - 1]);
  }

  /** A line that was archived and is gone, because the copy of the next generation
      into the same range file broke off. */
  lemma {:induction false} BrokenCopyLosesALine()
    ensures
      var ops := [Day("a", GOOD_DAY), Day("b", GOOD_DAY), Day("c", GOOD_DAY.(copy := Broken))];
      var log := TraceAfter(4, ops).log;
      && Stored(TraceAfter(4, ops[..2]).log.archive, RangeName(SOME_DAY, SOME_DAY)) == "a\n"
      && log.live == "b\nc\n" && log.archive == map[] && log.carryOvers == 0
      && !Repeats(4, ops) && Loses(4, ops)
  {
    hide RangeName, TraceAfter, RotateTrace, Tail, Loses;
    var ops := [Day("a", GOOD_DAY), Day("b", GOOD_DAY), Day("c", GOOD_DAY.(copy := Broken))];
    assert ops[..2][..1] == [ops[0]];
    OneLineLog();
    NextLog(4, ops[..2]);
    assert "" + ("b" + "\n") == "b\n";
    assert "" + "a\n" == "a\n";
    var log := TraceAfter(4, ops[..2]).log;
    assert log.live == "b\n" && log.firstSeen && log.first == log.last == SOME_DAY && log.maxBytes == 4;
    assert log.archive == map[RangeName(SOME_DAY, SOME_DAY) := "a\n"];
    NextLog(4, ops);
    assert "b\n" + ("c" + "\n") == "b\nc\n";
    LastCallLoses(4, ops);
  }

  lemma {:induction false} LastCallLoses(cap: nat, ops: seq<Op>)
    requires ops != [] && LosesAt(TraceAfter(cap, ops[..|ops| - 1]), ops[|ops| - 1])
    ensures Loses(cap, ops)
  {
  }

  // ----- Names of archives

  /** The days of the entries whose clock was set. */
  function RealDays(es: seq<Entry>): seq<LogDate> {
    if es == [] then []
    else
      var stamp := es[|es| - 1].stamp;
      RealDays(es[..|es| - 1]) + if stamp.Real? then [stamp.date] else []
  }

  predicate NamedByDays(g: Generation) {
    var days := RealDays(g.entries);
    days != [] && g.range == RangeName(days[0], days[|days| - 1])
  }

  ghost predicate DaysKnown(t: Trace) {
    var days := RealDays(t.current);
    && t.log.firstSeen == (days != [])
    && (days != [] ==> t.log.first == days[0] && t.log.last == days[|days| - 1])
    && forall g :: g in t.gens ==> NamedByDays(g)
  }

  lemma {:induction false} WithoutIsPart(gens: seq<Generation>, range: string)
    ensures forall g :: g in Without(gens, range) ==> g in gens
  {
    if gens != [] { WithoutIsPart(gens[..|gens| - 1], range); }
  }

  lemma {:induction false} RotateKnows(t: Trace, incoming: nat, env: Env)
    requires DaysKnown(t) && !(RotationOutcome(t.log, incoming, env) == Archives && !env.freshOk)
    requires RotateTrace(t, incoming, env).log.carryOvers == t.log.carryOvers
    ensures DaysKnown(RotateTrace(t, incoming, env))
  {
    hide Tail, RangeName, Newlines, Without;
    WithoutIsPart(t.gens, RangeName(t.log.first, t.log.last));
    assert Last(t.current, 0) == [];
  }

  lemma {:induction false} WriteKnows(t: Trace, line: string, stamp: Stamp)
    requires DaysKnown(t)
    ensures DaysKnown(Written(t, line, stamp))
  {
    hide RangeName;
    assert (t.current + [Entry(line, stamp)])[..|t.current|] == t.current;
  }

  lemma {:induction false} StepKnows(t: Trace, op: Op)
    requires DaysKnown(t) && !RepeatsAt(t.log, op) && StepTrace(t, op).log.carryOvers == t.log.carryOvers
    ensures DaysKnown(StepTrace(t, op))
  {
    hide RotateTrace, RotationOutcome, NamedByDays, RealDays;
    match op {
      case AppendOp(line, _, env) => if env.folderOk { RotateKnows(t, |line| + 1, env); }
      case ResizeOp(bytes, env) =>
        if |t.log.live| > bytes { RotateKnows(t.(log := t.log.(maxBytes := bytes)), 0, env); }
    }
    if Accepts(op) { WriteKnows(Rotated(t, op), op.line, op.stamp); }
  }

  lemma {:induction false} CarriesOnlyGrow(t: Trace, op: Op)
    ensures StepTrace(t, op).log.carryOvers >= t.log.carryOvers
  {
    hide Tail, RangeName, Newlines;
    TraceFollowsTheWriter(t, op);
  }

  /** While no tail was carried and every archive could empty the live file, every
      archive is named by the days of its first and last stamped lines. */
  lemma {:induction false} ArchivesNameTheirDays(cap: nat, ops: seq<Op>)
    requires TraceAfter(cap, ops).log.carryOvers == 0 && !Repeats(cap, ops)
    ensures DaysKnown(TraceAfter(cap, ops))
  {
    hide StepTrace, RepeatsAt, NamedByDays;
    if ops != [] {
      var init, op := ops[..|ops| - 1], ops[|ops| - 1];
      CarriesOnlyGrow(TraceAfter(cap, init), op);
      ArchivesNameTheirDays(cap, init);
      StepKnows(TraceAfter(cap, init), op);
    }
  }

  /** Some entry was stamped with this day. */
  ghost predicate DayAmong(es: seq<Entry>, day: LogDate) {
    exists i :: 0 <= i < |es| && es[i].stamp == Real(day)
  }

  ghost predicate LastDay(es: seq<Entry>, day: LogDate) {
    es != [] && es[|es| - 1].stamp == Real(day)
  }

  /** The range runs from the day of one of the entries to the day of the last one. */
  ghost predicate NamesItsDays(g: Generation) {
    exists first, last :: DayAmong(g.entries, first) && LastDay(g.entries, last) && g.range == RangeName(first, last)
  }

  ghost predicate DaysInside(t: Trace) {
    && (t.log.firstSeen ==> DayAmong(t.current, t.log.first) && LastDay(t.current, t.log.last))
    && forall g :: g in t.gens ==> NamesItsDays(g)
  }

  lemma {:induction false} CarriedDays(es: seq<Entry>, day: LogDate)
    requires LastDay(es, day)
    ensures LastDay(Last(es, KEEP_LINES), day) && DayAmong(Last(es, KEEP_LINES), day) && DayAmong(es, day)
  {
    var kept := Last(es, KEEP_LINES);
    assert kept[|kept| - 1] == es[|es| - 1];
  }

  lemma {:induction false} RotateKeepsDays(t: Trace, incoming: nat, env: Env)
    requires DaysInside(t)
    ensures DaysInside(RotateTrace(t, incoming, env))
  {
    hide Tail, RangeName, Newlines, Last, DayAmong, LastDay, Without;
    WithoutIsPart(t.gens, RangeName(t.log.first, t.log.last));
    if t.log.firstSeen { CarriedDays(t.current, t.log.last); }
  }

  lemma {:induction false} WriteKeepsDays(t: Trace, line: string, stamp: Stamp)
    requires DaysInside(t) && stamp.Real?
    ensures DaysInside(Written(t, line, stamp))
  {
    hide NamesItsDays;
    var es := t.current + [Entry(line, stamp)];
    assert es[|t.current|] == Entry(line, stamp);
    assert forall i :: 0 <= i < |t.current| ==> es[i] == t.current[i];
  }

  lemma {:induction false} StepKeepsDays(t: Trace, op: Op)
    requires DaysInside(t) && (op.AppendOp? ==> op.stamp.Real?)
    ensures DaysInside(StepTrace(t, op))
  {
    hide RotateTrace, NamesItsDays, Written;
    match op {
      case AppendOp(line, _, env) => RotateKeepsDays(t, |line| + 1, env);
      case ResizeOp(bytes, env) => RotateKeepsDays(t.(log := t.log.(maxBytes := bytes)), 0, env);
    }
    if Accepts(op) { WriteKeepsDays(Rotated(t, op), op.line, op.stamp); }
  }

  /** With every line stamped, and whatever was carried or refused, an archive's range
      runs from the day of one of its lines to the day of its last line. */
  lemma {:induction false} RangesNameTheirDays(cap: nat, ops: seq<Op>)
    requires forall i :: 0 <= i < |ops| ==> (ops[i].AppendOp? ==> ops[i].stamp.Real?)
    ensures DaysInside(TraceAfter(cap, ops))
  {
    hide StepTrace;
    if ops != [] {
      RangesNameTheirDays(cap, ops[..|ops| - 1]);
      StepKeepsDays(TraceAfter(cap, ops[..|ops| - 1]), ops[|ops| - 1]);
    }
  }

  // ----- When a carry happens

  function TrailingRefusals(attempts: seq<bool>): nat {
    if attempts == [] || attempts[|attempts| - 1] then 0 else 1 + TrailingRefusals(attempts[..|attempts| - 1])
  }

  ghost predicate NoTenInARow(attempts: seq<bool>) {
    forall k :: 0 <= k <= |attempts| ==> TrailingRefusals(attempts[..k]) < MAX_ATTEMPTS
  }

  /** Every call that rotates finds a card in the slot. */
  predicate CardWhenRotating(cap: nat, ops: seq<Op>) {
    ops == [] ||
    var init, op := ops[..|ops| - 1], ops[|ops| - 1];
    CardWhenRotating(cap, init) && (OutcomeOf(TraceAfter(cap, init).log, op) != Untouched ==> op.env.card)
  }

  lemma {:induction false} AttemptsOnlyGrow(t: Trace, op: Op)
    ensures t.attempts <= StepTrace(t, op).attempts
  {
    hide Rotate, RangeName, Without;
  }

  lemma {:induction false} RefusalsCounted(t: Trace, op: Op)
    requires t.log.failed == TrailingRefusals(t.attempts) && (OutcomeOf(t.log, op) != Untouched ==> op.env.card)
    requires TrailingRefusals(StepTrace(t, op).attempts) < MAX_ATTEMPTS
    ensures var u := StepTrace(t, op);
      && u.log.failed == TrailingRefusals(u.attempts) && u.log.carryOvers == t.log.carryOvers
      && OutcomeOf(t.log, op) != Carries
  {
    hide Tail, RangeName, Newlines, Without;
    assert (t.attempts + [false])[..|t.attempts|] == t.attempts;
  }

  /** No copy broke off while its range file existed. */
  predicate KeepsArchives(cap: nat, ops: seq<Op>) {
    ops == [] ||
    var init, op := ops[..|ops| - 1], ops[|ops| - 1];
    var s := TraceAfter(cap, init).log;
    KeepsArchives(cap, init) && !(Breaks(OutcomeOf(s, op), op.env) && RangeName(s.first, s.last) in s.archive)
  }

  /** With a card whenever the log rotates and no ten refusals in a row, no tail is
      ever carried, so only a broken copy can lose a line. */
  lemma {:induction false} NeverCarries(cap: nat, ops: seq<Op>)
    requires CardWhenRotating(cap, ops) && NoTenInARow(TraceAfter(cap, ops).attempts)
    ensures var t := TraceAfter(cap, ops);
      t.log.carryOvers == 0 && t.log.failed == TrailingRefusals(t.attempts)
    ensures Loses(cap, ops) <==> !KeepsArchives(cap, ops)
  {
    hide StepTrace, OutcomeOf, RangeName;
    if ops != [] {
      var init, op := ops[..|ops| - 1], ops[|ops| - 1];
      var t, u := TraceAfter(cap, init), TraceAfter(cap, ops);
      AttemptsOnlyGrow(t, op);
      assert forall k :: 0 <= k <= |t.attempts| ==> t.attempts[..k] == u.attempts[..k];
      NeverCarries(cap, init);
      assert u.attempts[..|u.attempts|] == u.attempts;
      RefusalsCounted(t, op);
    }
  }

  /** Rotation neither loses nor repeats a line: in a run that finds a card whenever
      it rotates, with no ten refusals in a row and no copy broken off over an
      existing range file, the archived generations followed by the live file are all
      accepted lines in order, if and only if every archive could empty the live
      file; then every range names the days of the first and last stamped lines of
      its generation. In any case the live file and the range files hold exactly the
      texts of those entries. */
  lemma {:induction false} RotationKeepsEveryLine(cap: nat, ops: seq<Op>)
    requires forall i :: 0 <= i < |ops| ==> GoodOp(ops[i])
    requires CardWhenRotating(cap, ops) && NoTenInARow(TraceAfter(cap, ops).attempts) && KeepsArchives(cap, ops)
    ensures var t := TraceAfter(cap, ops);
      && t.log.live == Text(t.current)
      && (forall r: string :: Stored(t.log.archive, r) == RangeText(t.gens, r))
      && (Archived(t.gens) + t.current == Accepted(ops) <==> !Repeats(cap, ops))
      && (!Repeats(cap, ops) ==> forall g :: g in t.gens ==> NamedByDays(g))
  {
    hide TraceAfter, Text, RangeText, Stored, NamedByDays, NoTenInARow, Accepted, Archived, RealDays, Repeats,
      CardWhenRotating, KeepsArchives, Loses;
    NeverCarries(cap, ops);
    NoLineLost(cap, ops);
    if !Repeats(cap, ops) { ArchivesNameTheirDays(cap, ops); }
    LiveFileHoldsCurrent(cap, ops);
    RangeFilesHoldGenerations(cap, ops);
  }

  // ----- The size of the live file

  predicate SizedOp(op: Op, width: nat) {
    op.AppendOp? && op.stamp.Real? && '\n' !in op.line && |op.line| + 1 <= width
  }

  ghost predicate Narrow(es: seq<Entry>, width: nat) {
    forall i :: 0 <= i < |es| ==> |es[i].line| + 1 <= width
  }

  lemma {:induction false} TextSize(es: seq<Entry>, width: nat)
    requires Narrow(es, width)
    ensures |Text(es)| <= |es| * width
  {
    if es == [] {
      NothingWritten();
    } else {
      var init, e := es[..|es| - 1], es[|es| - 1];
      TextSize(init, width);
      TextAppend(init, e);
      assert es == init + [e];
      assert |es| * width == |init| * width + width;
    }
  }

  lemma {:induction false} CarriedSize(es: seq<Entry>, width: nat)
    requires Narrow(es, width)
    ensures |Text(Last(es, KEEP_LINES))| <= KEEP_LINES * width && Narrow(Last(es, KEEP_LINES), width)
  {
    hide Text;
    var kept := Last(es, KEEP_LINES);
    TextSize(kept, width);
    assert |kept| * width <= KEEP_LINES * width;
  }

  /** How many lines above the cap the log may be: one for each failed attempt, ten
      for each refused rewrite. */
  function Excess(t: Trace): nat { t.log.failed + MAX_ATTEMPTS * t.stuck }

  function Bytes(lines: nat, width: nat): nat { lines * width }

  /** `spare` bytes more would still be within the bound. */
  ghost predicate Bounded(t: Trace, cap: nat, width: nat, spare: nat) {
    && LiveIsCurrent(t) && Narrow(t.current, width) && t.log.maxBytes == cap && t.log.failed < MAX_ATTEMPTS
    && |t.log.live| + spare < cap + Bytes(Excess(t), width)
    && (t.log.live != "" && !t.log.firstSeen ==> |t.log.live| + width < cap + Bytes(Excess(t), width))
  }

  lemma {:induction false} MoreExcess(k: nat, more: nat, width: nat)
    requires k < more
    ensures Bytes(k, width) + width <= Bytes(more, width)
  {
    if more > k + 1 { MoreExcess(k, more - 1, width); }
    assert more * width == (more - 1) * width + width;
  }

  lemma {:induction false} LiveAfterRotation(t: Trace, incoming: nat, env: Env)
    requires LiveIsCurrent(t)
    ensures var u, outcome := RotateTrace(t, incoming, env), RotationOutcome(t.log, incoming, env);
      && LiveIsCurrent(u) && u.log.maxBytes == t.log.maxBytes
      && (outcome == Untouched ==> u == t)
      && (outcome == Retries ==>
            && u.current == t.current && u.log.live == t.log.live && u.log.firstSeen
            && u.stuck == t.stuck && u.log.failed == t.log.failed + 1 < MAX_ATTEMPTS)
      && (outcome == Archives || outcome == Carries ==>
            if env.freshOk then
              && u.log.live == Text(u.current) && u.log.failed <= t.log.failed
              && u.current == (if outcome == Archives then [] else Last(t.current, KEEP_LINES))
              && u.log.firstSeen == (outcome == Carries)
            else
              && u.current == t.current && u.log.live == t.log.live
              && u.stuck == t.stuck + 1 && u.log.failed <= t.log.failed)
  {
    hide RangeName, Tail, Newlines, Text, Without, Last;
    TailOfText(t.current);
    RotateKeepsLive(t, incoming, env);
    NothingLeft(t.current);
  }

  lemma {:induction false} NothingLeft(es: seq<Entry>)
    ensures Last(es, 0) == []
  {
  }

  /** After a rotation the next line still fits the bound. */
  lemma {:induction false} RotateBounded(t: Trace, incoming: nat, env: Env, cap: nat, width: nat)
    requires Bounded(t, cap, width, 0) && incoming <= width && cap >= 11 * width + 1
    ensures Bounded(RotateTrace(t, incoming, env), cap, width, incoming)
  {
    hide RotateTrace, Text, Last, Bytes;
    LiveAfterRotation(t, incoming, env);
    var u, outcome := RotateTrace(t, incoming, env), RotationOutcome(t.log, incoming, env);
    if outcome == Retries || (outcome != Untouched && !env.freshOk) {
      MoreExcess(Excess(t), Excess(u), width);
    } else if outcome != Untouched {
      CarriedSize(t.current, width);
      NothingWritten();
    }
  }

  lemma {:induction false} StepBounded(t: Trace, op: Op, cap: nat, width: nat)
    requires Bounded(t, cap, width, 0) && SizedOp(op, width) && cap >= 11 * width + 1
    ensures Bounded(StepTrace(t, op), cap, width, 0)
  {
    hide Text, RotateTrace, Bytes;
    StepKeepsLive(t, op);
    if op.env.folderOk { RotateBounded(t, |op.line| + 1, op.env, cap, width); }
  }

  lemma {:induction false} BoundHolds(cap: nat, width: nat, ops: seq<Op>)
    requires cap >= 11 * width + 1
    requires forall i :: 0 <= i < |ops| ==> SizedOp(ops[i], width)
    ensures Bounded(TraceAfter(cap, ops), cap, width, 0)
  {
    hide StepTrace, Text;
    if ops == [] {
      NothingWritten();
    } else {
      BoundHolds(cap, width, ops[..|ops| - 1]);
      StepBounded(TraceAfter(cap, ops[..|ops| - 1]), ops[|ops| - 1], cap, width);
    }
  }

  /** With a fixed cap of at least eleven lines, stamped lines of at most `width`
      bytes and an empty start, the live file stays below the cap plus nine lines,
      and ten more for every rewrite that was refused since the last one that
      succeeded, whatever mix of archives, refusals and missing cards occurs. */
  lemma {:induction false} LiveFileStaysSmall(cap: nat, width: nat, ops: seq<Op>)
    requires cap >= 11 * width + 1
    requires forall i :: 0 <= i < |ops| ==> SizedOp(ops[i], width)
    ensures var t := TraceAfter(cap, ops); |t.log.live| < cap + (9 + 10 * t.stuck) * width
    ensures (forall i :: 0 <= i < |ops| ==> ops[i].env.freshOk) ==> |TraceAfter(cap, ops).log.live| < cap + 9 * width
  {
    hide TraceAfter, LiveIsCurrent, Narrow, SizedOp;
    BoundHolds(cap, width, ops);
    var t := TraceAfter(cap, ops);
    if Excess(t) < 9 + 10 * t.stuck { MoreExcess(Excess(t), 9 + 10 * t.stuck, width); }
    if forall i :: 0 <= i < |ops| ==> ops[i].env.freshOk { NeverStuck(cap, ops); }
  }

  /** A run whose rewrites all succeed never gets stuck. */
  lemma {:induction false} NeverStuck(cap: nat, ops: seq<Op>)
    requires forall i :: 0 <= i < |ops| ==> ops[i].env.freshOk
    ensures TraceAfter(cap, ops).stuck == 0
  {
    hide Rotate, RangeName, Without, Last;
    if ops != [] { NeverStuck(cap, ops[..|ops| - 1]); }
  }
}
