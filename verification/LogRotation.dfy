/** A log file that is archived to a card when it is full (src/core/LogFileWriter.cpp). */
module LogRotation {
  import opened LogFormat

  /** What the copy to the card did: it completed, it was refused before the range
      file was opened, or it broke off half way and the cleanup removed that file. */
  datatype Copy = Copied | Refused | Broken

  /** The storage during one call: the live folder, the card, the copy, the rewrite
      of the live file and the write of the new line. */
  datatype Env = Env(folderOk: bool, card: bool, copy: Copy, freshOk: bool, writeOk: bool)

  datatype Log = Log(
    live: string, archive: map<string, string>, maxBytes: nat, failed: nat,
    firstSeen: bool, first: LogDate, last: LogDate, lines: nat, archives: nat, carryOvers: nat)

  function Newlines(s: string): nat {
    if s == "" then 0 else Newlines(s[..|s| - 1]) + if s[|s| - 1] == '\n' then 1 else 0
  }

  function StartFresh(s: Log, content: string, ok: bool): Log {
    if ok then s.(live := content, lines := Newlines(content)) else s
  }

  /** The file no longer takes `incoming` bytes, and its range has a name. */
  predicate Rotates(s: Log, incoming: nat) {
    |s.live| + incoming + 1 > s.maxBytes && s.firstSeen
  }

  function Carry(s: Log, ok: bool): Log {
    StartFresh(s.(carryOvers := s.carryOvers + 1), Tail(s.live, KEEP_LINES), ok).(first := s.last)
  }

  function Stored(archive: map<string, string>, range: string): string {
    if range in archive then archive[range] else ""
  }

  function Rotate(s: Log, incoming: nat, env: Env): Log {
    if !Rotates(s, incoming) then s
    else
      var range := RangeName(s.first, s.last);
      if !env.card then Carry(s, env.freshOk)
      else if env.copy == Copied then
        StartFresh(s.(archive := s.archive[range := Stored(s.archive, range) + s.live], failed := 0,
                      archives := s.archives + 1), "", env.freshOk).(firstSeen := false, lines := 0)
      else
        var t := s.(archive := if env.copy == Broken then s.archive - {range} else s.archive, failed := s.failed + 1);
        if t.failed >= MAX_ATTEMPTS then Carry(t.(failed := 0), env.freshOk) else t
  }

  function Remember(s: Log, stamp: Stamp): Log {
    match stamp
    case NoClock => s
    case Real(date) => s.(first := if s.firstSeen then s.first else date, firstSeen := true, last := date)
  }

  function AppendLine(s: Log, line: string, stamp: Stamp, env: Env): (Log, bool) {
    if !env.folderOk then (s, false)
    else
      var t := Rotate(s, |line| + 1, env);
      if !env.writeOk then (t, false)
      else (Remember(t.(live := t.live + (line + "\n"), lines := t.lines + 1), stamp), true)
  }

  function SetMax(s: Log, bytes: nat, env: Env): Log {
    var t := s.(maxBytes := bytes);
    if |t.live| > bytes then Rotate(t, 0, env) else t
  }

  // ----- The copy, chunk by chunk

  const CHUNK: nat := 1024

  /** The card during one copy: the levels of the folder chain that exist or can be
      made, the two files, the chunk that starts at each offset, and the close. */
  datatype Card = Card(folders: seq<bool>, liveOpens: bool, targetOpens: bool, chunkOk: nat -> bool, closes: bool)

  ghost predicate ChunksOk(card: Card, size: nat) {
    forall at :: 0 <= at < size && at % CHUNK == 0 ==> card.chunkOk(at)
  }

  /** How the copy of a file of `size` bytes ends. */
  ghost function CopyOf(card: Card, size: nat): Copy {
    if card.folders == [] || false in card.folders || !card.liveOpens || !card.targetOpens then Refused
    else if ChunksOk(card, size) && card.closes then Copied
    else Broken
  }

  /** A copy completes if and only if the whole folder chain is there, both files open,
      every chunk is written and the file closes; it is refused if and only if it never
      came to the first chunk. */
  lemma {:induction false} CopyEndsExactlyWhen(card: Card, size: nat)
    ensures var begins := card.folders != [] && (forall i :: 0 <= i < |card.folders| ==> card.folders[i]) &&
        card.liveOpens && card.targetOpens;
      && (CopyOf(card, size) == Refused <==> !begins)
      && (CopyOf(card, size) == Copied <==>
            begins && card.closes && forall k: nat :: Offset(k) < size ==> card.chunkOk(Offset(k)))
  {
    if forall k: nat :: Offset(k) < size ==> card.chunkOk(Offset(k)) {
      forall at | 0 <= at < size && at % CHUNK == 0 ensures card.chunkOk(at) {
        assert at == Offset(at / CHUNK);
      }
    }
    forall k: nat ensures Offset(k) % CHUNK == 0 { OffsetIsWhole(k); }
    assert false in card.folders <==> exists i :: 0 <= i < |card.folders| && !card.folders[i];
  }

  /** Where a chunk starts. */
  function Offset(k: nat): nat { 1024 * k }

  lemma {:induction false} OffsetIsWhole(k: nat)
    ensures Offset(k) % CHUNK == 0
  {
  }

  lemma {:induction false} NoChunkBetween(at: nat, end: nat)
    requires at % CHUNK == 0 && end <= at + CHUNK
    ensures forall k :: at < k < end ==> k % CHUNK != 0
  {
    forall k | at < k < end ensures k % CHUNK != 0 { assert (k - at) % CHUNK == k - at; }
  }

  /** The environment in which the copy ends as the card makes it end. */
  ghost function With(env: Env, card: Card, size: nat): Env { env.(copy := CopyOf(card, size)) }

  // ----- The object

  class LogFileWriter {
    var live: string
    var archive: map<string, string>
    var maxBytes: nat
    var failedAttempts: nat
    var firstRealSeen: bool
    var firstReal: LogDate
    var lastReal: LogDate
    var lines: nat
    var archives: nat
    var carryOvers: nat

    ghost function St(): Log
      reads this
    {
      Log(live, archive, maxBytes, failedAttempts, firstRealSeen, firstReal, lastReal, lines, archives, carryOvers)
    }

    constructor (cap: nat)
      ensures St() == Empty(cap)
    {
      live, archive, maxBytes := "", map[], cap;
      failedAttempts, firstRealSeen := 0, false;
      firstReal, lastReal := LogDate(1970, 1, 1), LogDate(1970, 1, 1);
      lines, archives, carryOvers := 0, 0, 0;
    }

    method RewriteLive(content: string, ok: bool)
      modifies this`live, this`lines
      ensures St() == StartFresh(old(St()), content, ok)
    {
      if !ok { return; }
      live, lines := content, 0;
      for i := 0 to |content|
        invariant live == content && lines == Newlines(content[..i])
      {
        assert content[..i + 1][..i] == content[..i];
        if content[i] == '\n' { lines := lines + 1; }
      }
      assert content[..|content|] == content;
    }

    method CarryTail(ok: bool)
      modifies this`live, this`lines, this`carryOvers, this`firstReal
      ensures St() == Carry(old(St()), ok)
    {
      carryOvers := carryOvers + 1;
      var tail := LogTail(live, KEEP_LINES);
      RewriteLive(tail, ok);
      firstReal := lastReal;
    }

    method ArchiveToCard(range: string, card: Card) returns (ok: bool)
      modifies this`archive
      ensures var copy := CopyOf(card, |live|);
        && ok == copy.Copied?
        && archive ==
           if copy == Copied then old(archive)[range := Stored(old(archive), range) + live]
           else if copy == Broken then old(archive) - {range} else old(archive)
    {
      if card.folders == [] { return false; }
      for i := 0 to |card.folders|
        invariant false !in card.folders[..i]
      {
        if !card.folders[i] { return false; }
      }
      if !card.liveOpens || !card.targetOpens { return false; }
      ghost var before := Stored(archive, range);
      archive := archive[range := Stored(archive, range)];
      assert before + live[..0] == before;
      ok := true;
      var at := 0;
      while at < |live| && ok
        invariant at <= |live| && (at < |live| ==> at % CHUNK == 0)
        invariant archive == old(archive)[range := before + live[..at]]
        invariant ok ==> forall k :: 0 <= k < at && k % CHUNK == 0 ==> card.chunkOk(k)
        invariant !ok ==> !ChunksOk(card, |live|)
        decreases |live| - at, ok
      {
        var end := if at + CHUNK < |live| then at + CHUNK else |live|;
        if card.chunkOk(at) {
          NoChunkBetween(at, end);
          assert live[..end] == live[..at] + live[at..end];
          assert before + live[..at] + live[at..end] == before + live[..end];
          archive := archive[range := archive[range] + live[at..end]];
          at := end;
        } else {
          ok := false;
        }
      }
      ok := ok && card.closes;
      if ok { assert live[..|live|] == live; } else { archive := archive - {range}; }
    }

    method RotateIfNeeded(incoming: nat, env: Env, card: Card)
      modifies this
      ensures St() == Rotate(old(St()), incoming, With(env, card, |old(live)|))
    {
      hide CopyOf, RangeName, Tail, Newlines, Stored;
      if |live| + incoming + 1 <= maxBytes { return; }
      if !firstRealSeen { return; }
      var range := RangeName(firstReal, lastReal);
      if !env.card { CarryTail(env.freshOk); return; }
      var ok := ArchiveToCard(range, card);
      if ok {
        failedAttempts, archives := 0, archives + 1;
        RewriteLive("", env.freshOk);
        firstRealSeen, lines := false, 0;
        return;
      }
      failedAttempts := failedAttempts + 1;
      if failedAttempts >= MAX_ATTEMPTS {
        failedAttempts := 0;
        CarryTail(env.freshOk);
      }
    }

    method RememberStamp(stamp: Stamp)
      modifies this`firstReal, this`firstRealSeen, this`lastReal
      ensures St() == Remember(old(St()), stamp)
    {
      if stamp.NoClock? { return; }
      if !firstRealSeen { firstReal, firstRealSeen := stamp.date, true; }
      lastReal := stamp.date;
    }

    method Append(line: string, stamp: Stamp, env: Env, card: Card) returns (ok: bool)
      modifies this
      ensures (St(), ok) == AppendLine(old(St()), line, stamp, With(env, card, |old(live)|))
    {
      if !env.folderOk { return false; }
      var text := line + "\n";
      RotateIfNeeded(|text|, env, card);
      if !env.writeOk { return false; }
      live, lines := live + text, lines + 1;
      RememberStamp(stamp);
      return true;
    }

    method SetMaxBytes(bytes: nat, env: Env, card: Card)
      modifies this
      ensures St() == SetMax(old(St()), bytes, With(env, card, |old(live)|))
    {
      maxBytes := bytes;
      if |live| > maxBytes { RotateIfNeeded(0, env, card); }
    }
  }

  function Empty(maxBytes: nat): Log {
    Log("", map[], maxBytes, 0, false, LogDate(1970, 1, 1), LogDate(1970, 1, 1), 0, 0, 0)
  }
}
