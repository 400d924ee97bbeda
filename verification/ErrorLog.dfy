/** The error log between its producers and its target: what is queued, what is
    written, and how losses are counted and reported (src/core/ErrorLogCore.cpp:97-152). */
module ErrorLog {
  datatype Level = Error | Warn | Info

  datatype Entry = Entry(level: Level, text: string)

  /** What the target holds: a message, or a notice that so many were lost. The
      wording and stamp of a notice are left to the formatter. */
  datatype Written = Message(entry: Entry) | Notice(lost: nat)

  /** A `uint32_t` counter. */
  function Inc32(n: nat): nat {
    (n + 1) % TWO_32
  }

  const TWO_32: nat := 0x1_0000_0000

  datatype Core = Core(queue: seq<Entry>, capacity: nat, target: seq<Written>, dropped: nat, pending: bool)

  function Submit(s: Core, e: Entry): (Core, bool) {
    if |s.queue| < s.capacity then (s.(queue := s.queue + [e]), true)
    else (s.(dropped := Inc32(s.dropped), pending := true), false)
  }

  /** The notice that goes before the next line, if one is due. */
  function Report(s: Core, noticeOk: bool): Core {
    if !(s.pending && s.dropped > 0) then s
    else if noticeOk then s.(target := s.target + [Notice(s.dropped)], dropped := 0, pending := false)
    else s.(dropped := Inc32(s.dropped))
  }

  function Deliver(s: Core, e: Entry, lineOk: bool): Core {
    if lineOk then s.(target := s.target + [Message(e)])
    else s.(dropped := Inc32(s.dropped), pending := true)
  }

  /** One turn of the drain loop: take an entry, report, deliver. */
  function WriteOne(s: Core, noticeOk: bool, lineOk: bool): Core
    requires s.queue != []
  {
    Deliver(Report(s.(queue := s.queue[1..]), noticeOk), s.queue[0], lineOk)
  }

  /** Everything that waits, with the target's answers turn by turn. */
  function DrainAll(s: Core, noticeOk: nat -> bool, lineOk: nat -> bool, turn: nat): Core
    decreases |s.queue|
  {
    if s.queue == [] then s
    else DrainAll(WriteOne(s, noticeOk(turn), lineOk(turn)), noticeOk, lineOk, turn + 1)
  }

  class ErrorLogCore {
    var queue: seq<Entry>
    const capacity: nat
    var target: seq<Written>
    var dropped: nat
    var dropNoticePending: bool

    ghost function St(): Core
      reads this
    {
      Core(queue, capacity, target, dropped, dropNoticePending)
    }

    constructor (size: nat)
      ensures St() == Core([], size, [], 0, false)
    {
      queue, capacity, target, dropped, dropNoticePending := [], size, [], 0, false;
    }

    method SubmitLine(e: Entry) returns (ok: bool)
      modifies this
      ensures (St(), ok) == Submit(old(St()), e)
    {
      if |queue| < capacity {
        queue := queue + [e];
        return true;
      }
      dropped := Inc32(dropped);
      dropNoticePending := true;
      return false;
    }

    /** Write everything that is waiting; the result counts what reached the target. */
    method Drain(noticeOk: nat -> bool, lineOk: nat -> bool) returns (written: nat)
      modifies this
      ensures St() == DrainAll(old(St()), noticeOk, lineOk, 0)
      ensures queue == [] && written == |target| - |old(target)|
    {
      written := 0;
      var turn := 0;
      while queue != []
        invariant DrainAll(old(St()), noticeOk, lineOk, 0) == DrainAll(St(), noticeOk, lineOk, turn)
        invariant written == |target| - |old(target)|
        decreases |queue|
      {
        var entry := queue[0];
        queue := queue[1..];
        if dropNoticePending && dropped > 0 {
          if !noticeOk(turn) {
            dropped := Inc32(dropped);
          } else {
            target := target + [Notice(dropped)];
            dropNoticePending, dropped, written := false, 0, written + 1;
          }
        }
        if lineOk(turn) {
          target, written := target + [Message(entry)], written + 1;
        } else {
          dropped, dropNoticePending := Inc32(dropped), true;
        }
        turn := turn + 1;
      }
    }
  }

  // ----- Runs: submits and drain turns in any order

  datatype Event = Push(entry: Entry) | Turn(noticeOk: bool, lineOk: bool)

  /** A turn with nothing waiting does nothing. */
  function Step(s: Core, ev: Event): Core {
    match ev
    case Push(e) => Submit(s, e).0
    case Turn(noticeOk, lineOk) => if s.queue == [] then s else WriteOne(s, noticeOk, lineOk)
  }

  function Steps(s: Core, evs: seq<Event>): Core
    decreases |evs|
  {
    if evs == [] then s else Steps(Step(s, evs[0]), evs[1..])
  }

  function Turns(noticeOk: nat -> bool, lineOk: nat -> bool, from: nat, n: nat): (r: seq<Event>)
    ensures |r| == n
  {
    seq(n, i requires 0 <= i < n => Turn(noticeOk(from + i), lineOk(from + i)))
  }

  /** A drain is one turn for each waiting entry. */
  lemma {:induction false} DrainIsTurns(s: Core, noticeOk: nat -> bool, lineOk: nat -> bool, from: nat)
    ensures DrainAll(s, noticeOk, lineOk, from) == Steps(s, Turns(noticeOk, lineOk, from, |s.queue|))
    decreases |s.queue|
  {
    if s.queue != [] {
      var next := WriteOne(s, noticeOk(from), lineOk(from));
      var evs := Turns(noticeOk, lineOk, from, |s.queue|);
      DrainIsTurns(next, noticeOk, lineOk, from + 1);
      assert evs[1..] == Turns(noticeOk, lineOk, from + 1, |next.queue|);
    }
  }

  /** The core beside what happened: entries taken into the queue, entries taken out
      with the target's answer, everything that was lost, and how often the counter
      went around. */
  datatype Trace = Trace(core: Core, taken: seq<Entry>, handled: seq<(Entry, bool)>, losses: nat, wraps: nat)

  predicate RefusesNotice(s: Core, ev: Event) {
    ev.Turn? && s.queue != [] && s.pending && s.dropped > 0 && !ev.noticeOk
  }

  predicate RefusesLine(s: Core, ev: Event) {
    ev.Turn? && s.queue != [] && !ev.lineOk
  }

  predicate FailsPush(s: Core, ev: Event) {
    ev.Push? && !Submit(s, ev.entry).1
  }

  function Losses(s: Core, ev: Event): nat {
    (if RefusesNotice(s, ev) then 1 else 0) + (if RefusesLine(s, ev) then 1 else 0) +
    (if FailsPush(s, ev) then 1 else 0)
  }

  /** One more loss takes the counter back to zero. */
  function Around(s: Core): nat { if s.dropped + 1 == TWO_32 then 1 else 0 }

  function Wraps(s: Core, ev: Event): nat {
    (if FailsPush(s, ev) || RefusesNotice(s, ev) then Around(s) else 0) +
    (if RefusesLine(s, ev) then Around(Report(s, ev.noticeOk)) else 0)
  }

  function StepTrace(t: Trace, ev: Event): Trace {
    var s := t.core;
    Trace(
      Step(s, ev),
      if ev.Push? && !FailsPush(s, ev) then t.taken + [ev.entry] else t.taken,
      if ev.Turn? && s.queue != [] then t.handled + [(s.queue[0], ev.lineOk)] else t.handled,
      t.losses + Losses(s, ev),
      t.wraps + Wraps(s, ev))
  }

  function TraceAfter(capacity: nat, evs: seq<Event>): Trace {
    if evs == [] then Trace(Core([], capacity, [], 0, false), [], [], 0, 0)
    else StepTrace(TraceAfter(capacity, evs[..|evs| - 1]), evs[|evs| - 1])
  }

  /** The numbers in the written notices. */
  function Reported(target: seq<Written>): nat {
    if target == [] then 0
    else Reported(target[..|target| - 1]) + match target[|target| - 1] case Notice(n) => n case Message(_) => 0
  }

  function Messages(target: seq<Written>): seq<Entry> {
    if target == [] then []
    else Messages(target[..|target| - 1]) + match target[|target| - 1] case Message(e) => [e] case Notice(_) => []
  }

  function Delivered(handled: seq<(Entry, bool)>): seq<Entry> {
    if handled == [] then []
    else Delivered(handled[..|handled| - 1]) + if handled[|handled| - 1].1 then [handled[|handled| - 1].0] else []
  }

  function Entries(handled: seq<(Entry, bool)>): (r: seq<Entry>)
    ensures |r| == |handled| && forall i :: 0 <= i < |handled| ==> r[i] == handled[i].0
  {
    seq(|handled|, i requires 0 <= i < |handled| => handled[i].0)
  }

  /** What one turn writes: the notice, if one is due and the target takes it, and after it
      the line, if the target takes that; and what it leaves to report. */
  lemma {:induction false} TurnWrites(s: Core, noticeOk: bool, lineOk: bool)
    requires s.queue != []
    ensures var u, due := WriteOne(s, noticeOk, lineOk), s.pending && s.dropped > 0;
      var reported := if due && noticeOk then 0 else if due then (s.dropped + 1) % TWO_32 else s.dropped;
      && u.target == s.target + (if due && noticeOk then [Notice(s.dropped)] else []) +
           (if lineOk then [Message(s.queue[0])] else [])
      && u.queue == s.queue[1..] && u.capacity == s.capacity
      && u.dropped == (if lineOk then reported else (reported + 1) % TWO_32)
      && u.pending == (!lineOk || (s.pending && !(due && noticeOk)))
  {
  }

  // ----- Losses

  /** Notices, counter and full turns of the counter are all losses; a notice is due
      when the counter is positive, and without a full turn only then. */
  ghost predicate Counted(s: Core, losses: nat, wraps: nat) {
    && Reported(s.target) + s.dropped + TWO_32 * wraps == losses && s.dropped < TWO_32
    && (s.dropped > 0 ==> s.pending) && (wraps == 0 && s.pending ==> s.dropped > 0)
  }

  lemma {:induction false} ReportedAppend(target: seq<Written>, w: Written)
    ensures Reported(target + [w]) == Reported(target) + match w case Notice(n) => n case Message(_) => 0
    ensures Messages(target + [w]) == Messages(target) + match w case Message(e) => [e] case Notice(_) => []
  {
  }

  lemma {:induction false} StepCounts(t: Trace, ev: Event)
    requires Counted(t.core, t.losses, t.wraps)
    ensures var u := StepTrace(t, ev); Counted(u.core, u.losses, u.wraps)
  {
    hide Reported, Report, Deliver;
    match ev
    case Push(_) =>
    case Turn(noticeOk, lineOk) =>
      if t.core.queue != [] {
        var s := t.core.(queue := t.core.queue[1..]);
        var due := s.pending && s.dropped > 0 && !noticeOk;
        ReportIgnoresQueue(t.core, s.queue, noticeOk);
        ReportCounts(s, noticeOk, t.losses, t.wraps);
        DeliverCounts(Report(s, noticeOk), t.core.queue[0], lineOk,
          t.losses + (if due then 1 else 0), t.wraps + (if due then Around(s) else 0));
      }
  }

  lemma {:induction false} ReportIgnoresQueue(s: Core, queue: seq<Entry>, noticeOk: bool)
    ensures Report(s.(queue := queue), noticeOk) == Report(s, noticeOk).(queue := queue)
  {
  }

  lemma {:induction false} ReportCounts(s: Core, noticeOk: bool, losses: nat, wraps: nat)
    requires Counted(s, losses, wraps)
    ensures var due := s.pending && s.dropped > 0 && !noticeOk;
      Counted(Report(s, noticeOk), losses + (if due then 1 else 0), wraps + if due then Around(s) else 0)
  {
  }

  lemma {:induction false} DeliverCounts(s: Core, e: Entry, lineOk: bool, losses: nat, wraps: nat)
    requires Counted(s, losses, wraps)
    ensures Counted(Deliver(s, e, lineOk), losses + (if lineOk then 0 else 1), wraps + if lineOk then 0 else Around(s))
  {
  }

  lemma {:induction false} LossesAreCounted(capacity: nat, evs: seq<Event>)
    ensures var t := TraceAfter(capacity, evs); Counted(t.core, t.losses, t.wraps)
  {
    hide StepTrace;
    if evs != [] {
      LossesAreCounted(capacity, evs[..|evs| - 1]);
      StepCounts(TraceAfter(capacity, evs[..|evs| - 1]), evs[|evs| - 1]);
    }
  }

  /** Every loss is reported once: over any run the numbers in the written notices
      plus the counter are the failed pushes and refused appends, short of 2^32 for
      each full turn of the counter; so they are exactly the losses if and only if
      the counter never went around, which takes 2^32 losses. Then a notice is due
      exactly when the counter is positive. */
  lemma {:induction false} EveryLossIsReportedOnce(capacity: nat, evs: seq<Event>)
    ensures var t := TraceAfter(capacity, evs);
      && Reported(t.core.target) + t.core.dropped + TWO_32 * t.wraps == t.losses
      && (Reported(t.core.target) + t.core.dropped == t.losses <==> t.wraps == 0)
      && (t.losses < TWO_32 ==> t.wraps == 0)
      && (t.core.dropped > 0 ==> t.core.pending)
      && (t.wraps == 0 ==> (t.core.pending <==> t.core.dropped > 0))
  {
    hide TraceAfter;
    LossesAreCounted(capacity, evs);
  }

  function Pushes(e: Entry, n: nat): (r: seq<Event>)
    ensures |r| == n
  {
    if n == 0 then [] else Pushes(e, n - 1) + [Push(e)]
  }

  function Copies(e: Entry, n: nat): (r: seq<Entry>)
    ensures |r| == n
  {
    if n == 0 then [] else Copies(e, n - 1) + [e]
  }

  lemma {:induction false} OneMorePush(capacity: nat, e: Entry, n: nat)
    requires n > 0
    ensures TraceAfter(capacity, Pushes(e, n)) == StepTrace(TraceAfter(capacity, Pushes(e, n - 1)), Push(e))
  {
    hide StepTrace;
    assert Pushes(e, n)[..n - 1] == Pushes(e, n - 1);
  }

  lemma {:induction false} CountUp(n: nat)
    requires n > 0
    ensures Inc32((n - 1) % TWO_32) == n % TWO_32
  {
  }

  lemma {:induction false} PushesFill(capacity: nat, e: Entry, n: nat)
    requires n <= capacity
    ensures var t := TraceAfter(capacity, Pushes(e, n));
      t.losses == 0 && t.core == Core(Copies(e, n), capacity, [], 0, false)
  {
    hide StepTrace, Inc32;
    if n > 0 {
      PushesFill(capacity, e, n - 1);
      OneMorePush(capacity, e, n);
      OnePush(TraceAfter(capacity, Pushes(e, n - 1)), e);
    }
  }

  /** Losses that go around: in a log of any capacity that nobody drains, 2^32 pushes
      more than it holds leave the counter at zero, although a notice is due. */
  lemma {:induction false} CounterGoesAround(capacity: nat, e: Entry, n: nat)
    ensures var t := TraceAfter(capacity, Pushes(e, capacity + n));
      && t.losses == n && t.core == Core(Copies(e, capacity), capacity, [], n % TWO_32, n > 0)
      && (n == TWO_32 ==> t.core.dropped == 0 && t.core.pending)
  {
    hide StepTrace, TraceAfter, Pushes, Copies, Inc32;
    if n == 0 {
      PushesFill(capacity, e, capacity);
    } else {
      CounterGoesAround(capacity, e, n - 1);
      OneMorePush(capacity, e, capacity + n);
      OnePush(TraceAfter(capacity, Pushes(e, capacity + n - 1)), e);
      CountUp(n);
    }
  }

  lemma {:induction false} OnePush(t: Trace, e: Entry)
    ensures var u, s := StepTrace(t, Push(e)), t.core;
      if |s.queue| < s.capacity then u.losses == t.losses && u.core == s.(queue := s.queue + [e])
      else u.losses == t.losses + 1 && u.core == s.(dropped := Inc32(s.dropped), pending := true)
  {
    hide Report, WriteOne;
  }

  // ----- Order

  ghost predicate InOrder(t: Trace) {
    t.taken == Entries(t.handled) + t.core.queue && Messages(t.core.target) == Delivered(t.handled)
  }

  lemma {:induction false} ReportKeepsMessages(s: Core, noticeOk: bool)
    ensures Messages(Report(s, noticeOk).target) == Messages(s.target) && Report(s, noticeOk).queue == s.queue
  {
  }

  lemma {:induction false} HandledAppend(handled: seq<(Entry, bool)>, e: Entry, ok: bool)
    ensures Entries(handled + [(e, ok)]) == Entries(handled) + [e]
    ensures Delivered(handled + [(e, ok)]) == Delivered(handled) + if ok then [e] else []
  {
  }

  lemma {:induction false} TurnKeepsOrder(t: Trace, noticeOk: bool, lineOk: bool)
    requires InOrder(t) && t.core.queue != []
    ensures InOrder(StepTrace(t, Turn(noticeOk, lineOk)))
  {
    hide Report, Messages, Delivered, Entries, Losses, FailsPush;
    var e, rest := t.core.queue[0], t.core.queue[1..];
    var s := Report(t.core.(queue := rest), noticeOk);
    ReportKeepsMessages(t.core.(queue := rest), noticeOk);
    ReportedAppend(s.target, Message(e));
    HandledAppend(t.handled, e, lineOk);
    assert Entries(t.handled) + t.core.queue == Entries(t.handled) + [e] + rest;
  }

  lemma {:induction false} StepKeepsOrder(t: Trace, ev: Event)
    requires InOrder(t)
    ensures InOrder(StepTrace(t, ev))
  {
    hide WriteOne, Messages, Delivered, Entries, Losses;
    match ev
    case Push(e) => assert t.taken + [e] == Entries(t.handled) + (t.core.queue + [e]);
    case Turn(noticeOk, lineOk) => if t.core.queue != [] { TurnKeepsOrder(t, noticeOk, lineOk); }
  }

  /** Entries taken into the queue leave it in the order they came, and the messages
      at the target are those the target accepted, in that order. */
  lemma {:induction false} LinesArriveInOrder(capacity: nat, evs: seq<Event>)
    ensures var t := TraceAfter(capacity, evs);
      t.taken == Entries(t.handled) + t.core.queue && Messages(t.core.target) == Delivered(t.handled)
    ensures InOrder(TraceAfter(capacity, evs))
  {
    hide StepTrace;
    if evs != [] {
      LinesArriveInOrder(capacity, evs[..|evs| - 1]);
      StepKeepsOrder(TraceAfter(capacity, evs[..|evs| - 1]), evs[|evs| - 1]);
    }
  }
}
