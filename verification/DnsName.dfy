/** Names in DNS messages: length-prefixed labels and compression pointers
    (src/dhcp/DnsMessage.cpp; section 4.1.4 of RFC 1035). */
module DnsName {
  import opened Net

  type Bytes = seq<Byte>

  const MAX_JUMPS: nat := 8
  const MAX_LABEL: nat := 63

  predicate IsPointer(b: Byte) { b >= 192 }

  /** The offset a pointer names: the low six bits of its first byte, then the second. */
  function Target(hi: Byte, lo: Byte): nat {
    var h: int := hi;
    h % 64 * 256 + lo
  }

  function CharOf(b: Byte): char { b as char }

  function Chars(t: Bytes): (r: string)
    ensures |r| == |t| && forall i :: 0 <= i < |t| ==> r[i] == CharOf(t[i])
  {
    seq(|t|, i requires 0 <= i < |t| => CharOf(t[i]))
  }

  // ----- What the two loops compute

  function SkipFrom(buf: Bytes, off: nat): nat
    decreases if off < |buf| then |buf| - off else 0
  {
    if off >= |buf| then |buf| + 1
    else if buf[off] == 0 then off + 1
    else if IsPointer(buf[off]) then
      if off + 1 >= |buf| || Target(buf[off], buf[off + 1]) >= off then |buf| + 1 else off + 2
    else if buf[off] > MAX_LABEL || off + 1 + buf[off] > |buf| then |buf| + 1
    else SkipFrom(buf, off + 1 + buf[off])
  }

  function Append(out: string, part: string): string {
    if out == "" then part else out + "." + part
  }

  /** Each pointer uses up one jump and each label moves forward: that is why the
      loop ends on any bytes. */
  function DecodeFrom(buf: Bytes, off: nat, jumps: nat, out: string): string
    requires jumps <= MAX_JUMPS
    decreases MAX_JUMPS - jumps, if off < |buf| then |buf| - off else 0
  {
    if off >= |buf| || buf[off] == 0 then out
    else if IsPointer(buf[off]) then
      if off + 1 >= |buf| || jumps + 1 > MAX_JUMPS || Target(buf[off], buf[off + 1]) >= off then ""
      else DecodeFrom(buf, Target(buf[off], buf[off + 1]), jumps + 1, out)
    else if buf[off] > MAX_LABEL || off + 1 + buf[off] > |buf| then ""
    else DecodeFrom(buf, off + 1 + buf[off], jumps, Append(out, Chars(buf[off + 1..off + 1 + buf[off]])))
  }

  function DecodeName(buf: Bytes, off: nat): string {
    DecodeFrom(buf, off, 0, "")
  }

  /** The first pointer ends the skip, so its jump budget is never used up. */
  method SkipName(buf: Bytes, start: nat) returns (r: nat)
    ensures r == SkipFrom(buf, start)
  {
    var off := start;
    while off < |buf|
      invariant SkipFrom(buf, start) == SkipFrom(buf, off)
      decreases |buf| - off
    {
      var n := buf[off];
      if n == 0 { return off + 1; }
      if IsPointer(n) {
        if off + 1 >= |buf| { return |buf| + 1; }
        if Target(n, buf[off + 1]) >= off { return |buf| + 1; }
        return off + 2;
      }
      if n > MAX_LABEL || off + 1 + n > |buf| { return |buf| + 1; }
      off := off + 1 + n;
    }
    return |buf| + 1;
  }

  method ReadName(buf: Bytes, start: nat) returns (out: string)
    ensures out == DecodeName(buf, start)
  {
    out := "";
    var off: nat, jumps: nat := start, 0;
    while off < |buf|
      invariant jumps <= MAX_JUMPS && DecodeName(buf, start) == DecodeFrom(buf, off, jumps, out)
      decreases MAX_JUMPS - jumps, |buf| - off
    {
      var n := buf[off];
      if n == 0 { break; }
      if IsPointer(n) {
        if off + 1 >= |buf| { return ""; }
        if jumps + 1 > MAX_JUMPS { return ""; }
        var target := Target(n, buf[off + 1]);
        if target >= off { return ""; }
        jumps := jumps + 1;
        off := target;
        continue;
      }
      if n > MAX_LABEL || off + 1 + n > |buf| { return ""; }
      var text := Chars(buf[off + 1..off + 1 + n]);
      out := if out == "" then text else out + "." + text;
      off := off + 1 + n;
    }
  }

  // ----- What a name is

  /** A name as it lies in a message: labels, then the root or a pointer to where
      the rest lies. */
  datatype Wire = End | Label(text: Bytes, rest: Wire) | Pointer(target: nat, rest: Wire)

  function Labels(w: Wire): seq<string> {
    match w
    case End => []
    case Label(text, rest) => [Chars(text)] + Labels(rest)
    case Pointer(_, rest) => Labels(rest)
  }

  function Pointers(w: Wire): nat {
    match w
    case End => 0
    case Label(_, rest) => Pointers(rest)
    case Pointer(_, rest) => 1 + Pointers(rest)
  }

  /** The bytes the name takes where it starts. */
  function InlineLength(w: Wire): nat {
    match w
    case End => 1
    case Label(text, rest) => 1 + |text| + InlineLength(rest)
    case Pointer(_, _) => 2
  }

  /** The labels joined by dots. */
  function Dotted(labels: seq<string>): string {
    if labels == [] then ""
    else if |labels| == 1 then labels[0]
    else labels[0] + "." + Dotted(labels[1..])
  }

  /** `w` lies at `off`; pointers go backwards. The end of the buffer also ends a
      name: the decoder does not insist on the root label. */
  ghost predicate Spelled(buf: Bytes, off: nat, w: Wire)
    decreases w
  {
    match w
    case End => off < |buf| ==> buf[off] == 0
    case Label(text, rest) =>
      && 1 <= |text| <= MAX_LABEL && off + 1 + |text| <= |buf|
      && buf[off] == |text| && buf[off + 1..off + 1 + |text|] == text
      && Spelled(buf, off + 1 + |text|, rest)
    case Pointer(target, rest) =>
      && off + 1 < |buf| && IsPointer(buf[off]) && Target(buf[off], buf[off + 1]) == target < off
      && Spelled(buf, target, rest)
  }

  function AppendAll(out: string, labels: seq<string>): string
    decreases |labels|
  {
    if labels == [] then out else AppendAll(Append(out, labels[0]), labels[1..])
  }

  lemma {:induction false} DecodeSpelled(buf: Bytes, off: nat, w: Wire, jumps: nat, out: string)
    requires Spelled(buf, off, w) && jumps <= MAX_JUMPS
    ensures DecodeFrom(buf, off, jumps, out) ==
      if jumps + Pointers(w) <= MAX_JUMPS then AppendAll(out, Labels(w)) else ""
    decreases w
  {
    hide Chars, Append;
    match w
    case End =>
    case Label(text, rest) =>
      DecodeSpelled(buf, off + 1 + |text|, rest, jumps, Append(out, Chars(text)));
      assert Labels(w)[1..] == Labels(rest);
    case Pointer(target, rest) =>
      if jumps < MAX_JUMPS { DecodeSpelled(buf, target, rest, jumps + 1, out); }
  }

  lemma {:induction false} LabelsNotEmpty(buf: Bytes, off: nat, w: Wire)
    requires Spelled(buf, off, w)
    ensures forall i :: 0 <= i < |Labels(w)| ==> Labels(w)[i] != ""
    decreases w
  {
    match w
    case End =>
    case Label(text, rest) => LabelsNotEmpty(buf, off + 1 + |text|, rest);
    case Pointer(target, rest) => LabelsNotEmpty(buf, target, rest);
  }

  lemma {:induction false} AppendAllIsDotted(out: string, labels: seq<string>)
    requires forall i :: 0 <= i < |labels| ==> labels[i] != ""
    ensures AppendAll(out, labels) ==
      if labels == [] then out else if out == "" then Dotted(labels) else out + "." + Dotted(labels)
    decreases |labels|
  {
    if labels != [] {
      AppendAllIsDotted(Append(out, labels[0]), labels[1..]);
      if |labels| > 1 && out != "" {
        assert out + "." + labels[0] + "." + Dotted(labels[1..]) == out + "." + (labels[0] + "." + Dotted(labels[1..]));
      }
    }
  }

  /** A name reached through at most eight backward pointers decodes to its labels
      joined by dots; one that needs more decodes to nothing. */
  lemma {:induction false} DecodesToLabels(buf: Bytes, off: nat, w: Wire)
    requires Spelled(buf, off, w)
    ensures DecodeName(buf, off) == if Pointers(w) <= MAX_JUMPS then Dotted(Labels(w)) else ""
  {
    DecodeSpelled(buf, off, w, 0, "");
    LabelsNotEmpty(buf, off, w);
    AppendAllIsDotted("", Labels(w));
  }

  /** Skipping lands just past the name where it starts, however it continues. */
  lemma {:induction false} SkipsTheName(buf: Bytes, off: nat, w: Wire)
    requires Spelled(buf, off, w) && off + InlineLength(w) <= |buf|
    ensures SkipFrom(buf, off) == off + InlineLength(w)
    decreases w
  {
    if w.Label? { SkipsTheName(buf, off + 1 + |w.text|, w.rest); }
  }

  /** Whatever is decoded was there: a decoded name is spelled by some labels. */
  lemma {:induction false} DecodedWasSpelled(buf: Bytes, off: nat, jumps: nat, out: string) returns (w: Wire)
    requires jumps <= MAX_JUMPS && DecodeFrom(buf, off, jumps, out) != ""
    ensures Spelled(buf, off, w) && jumps + Pointers(w) <= MAX_JUMPS
    decreases MAX_JUMPS - jumps, if off < |buf| then |buf| - off else 0
  {
    if off >= |buf| || buf[off] == 0 {
      w := End;
    } else if IsPointer(buf[off]) {
      var target := Target(buf[off], buf[off + 1]);
      var rest := DecodedWasSpelled(buf, target, jumps + 1, out);
      w := Pointer(target, rest);
    } else {
      var text := buf[off + 1..off + 1 + buf[off]];
      var rest := DecodedWasSpelled(buf, off + 1 + buf[off], jumps, Append(out, Chars(text)));
      w := Label(text, rest);
    }
  }

  /** On arbitrary bytes a skip either fails or moves forward inside the buffer. */
  lemma {:induction false} SkipStaysInside(buf: Bytes, off: nat)
    ensures SkipFrom(buf, off) == |buf| + 1 || off < SkipFrom(buf, off) <= |buf|
    decreases if off < |buf| then |buf| - off else 0
  {
    if off < |buf| && 0 < buf[off] <= MAX_LABEL && off + 1 + buf[off] <= |buf| {
      SkipStaysInside(buf, off + 1 + buf[off]);
    }
  }

  // ----- Names without their root label

  /** `w` lies at `off` and ends with the root label, inside the buffer. */
  ghost predicate Rooted(buf: Bytes, off: nat, w: Wire)
    decreases w
  {
    match w
    case End => off < |buf| && buf[off] == 0
    case Label(text, rest) => Spelled(buf, off, w) && Rooted(buf, off + 1 + |text|, rest)
    case Pointer(target, rest) => Spelled(buf, off, w) && Rooted(buf, target, rest)
  }

  /** Where the decoding loop stands when it stops: on a root label, or at the end of
      the buffer, which also stands for every damage it gives up on. */
  function StopsAt(buf: Bytes, off: nat, jumps: nat): (r: nat)
    requires jumps <= MAX_JUMPS
    ensures r <= |buf| && (r < |buf| ==> buf[r] == 0)
    decreases MAX_JUMPS - jumps, if off < |buf| then |buf| - off else 0
  {
    if off >= |buf| then |buf|
    else if buf[off] == 0 then off
    else if IsPointer(buf[off]) then
      if off + 1 >= |buf| || jumps + 1 > MAX_JUMPS || Target(buf[off], buf[off + 1]) >= off then |buf|
      else StopsAt(buf, Target(buf[off], buf[off + 1]), jumps + 1)
    else if buf[off] > MAX_LABEL || off + 1 + buf[off] > |buf| then |buf|
    else StopsAt(buf, off + 1 + buf[off], jumps)
  }

  /** A spelled name has its root label if and only if the loop stops inside the buffer. */
  lemma {:induction false} RootedExactlyWhen(buf: Bytes, off: nat, w: Wire, jumps: nat)
    requires Spelled(buf, off, w) && jumps + Pointers(w) <= MAX_JUMPS
    ensures Rooted(buf, off, w) <==> StopsAt(buf, off, jumps) < |buf|
    decreases w
  {
    match w
    case End =>
    case Label(text, rest) => RootedExactlyWhen(buf, off + 1 + |text|, rest, jumps);
    case Pointer(target, rest) => RootedExactlyWhen(buf, target, rest, jumps + 1);
  }

  /** Whatever bytes decode to a name: they spell its labels, and the name was
      terminated if and only if the loop stopped inside the buffer. */
  lemma {:induction false} DecodedIsRootedExactlyWhen(buf: Bytes, off: nat) returns (w: Wire)
    requires DecodeName(buf, off) != ""
    ensures Spelled(buf, off, w) && DecodeName(buf, off) == Dotted(Labels(w))
    ensures Rooted(buf, off, w) <==> StopsAt(buf, off, 0) < |buf|
  {
    hide Spelled, Rooted, StopsAt, Dotted;
    w := DecodedWasSpelled(buf, off, 0, "");
    DecodesToLabels(buf, off, w);
    RootedExactlyWhen(buf, off, w, 0);
  }

  /** A name without pointers has its root label if and only if it can be skipped. */
  lemma {:induction false} SkippedIsRootedExactlyWhen(buf: Bytes, off: nat, w: Wire)
    requires Spelled(buf, off, w) && Pointers(w) == 0
    ensures Rooted(buf, off, w) <==> SkipFrom(buf, off) <= |buf|
    decreases w
  {
    if w.Label? { SkippedIsRootedExactlyWhen(buf, off + 1 + |w.text|, w.rest); }
  }

  /** A name cut off by the end of the buffer is still decoded, but not skipped. */
  lemma {:induction false} UnterminatedNameIsAccepted()
    ensures var w := Label([97], End);
      && DecodeName([1, 97], 0) == "a" && SkipFrom([1, 97], 0) == 3
      && Spelled([1, 97], 0, w) && !Rooted([1, 97], 0, w)
  {
  }

  /** Behind a pointer it is even skipped: the label at 0 runs to the end of the
      buffer, over the two bytes that point to it. */
  lemma {:induction false} UnterminatedPointerIsAccepted()
    ensures var buf, w := [3, 97, 192, 0], Pointer(0, Label([97, 192, 0], End));
      && SkipFrom(buf, 2) == 4 && DecodeName(buf, 2) != ""
      && Spelled(buf, 2, w) && !Rooted(buf, 2, w)
  {
    var buf, text: Bytes := [3, 97, 192, 0], [97, 192, 0];
    assert buf[1..4] == text;
    assert Spelled(buf, 0, Label(text, End));
  }

  // ----- Writing names

  predicate GoodLabels(labels: seq<Bytes>) {
    forall i :: 0 <= i < |labels| ==> 1 <= |labels[i]| <= MAX_LABEL
  }

  function EncodeLabels(labels: seq<Bytes>): Bytes
    requires GoodLabels(labels)
  {
    if labels == [] then [] else [|labels[0]|] + labels[0] + EncodeLabels(labels[1..])
  }

  /** The labels, then the root or a pointer. */
  function WireOf(labels: seq<Bytes>, tail: Wire): Wire {
    if labels == [] then tail else Label(labels[0], WireOf(labels[1..], tail))
  }

  function Texts(labels: seq<Bytes>): (r: seq<string>)
    ensures |r| == |labels| && forall i :: 0 <= i < |labels| ==> r[i] == Chars(labels[i])
  {
    seq(|labels|, i requires 0 <= i < |labels| => Chars(labels[i]))
  }

  lemma {:induction false} WireOfLabels(labels: seq<Bytes>, tail: Wire)
    requires GoodLabels(labels)
    ensures Labels(WireOf(labels, tail)) == Texts(labels) + Labels(tail)
    ensures Pointers(WireOf(labels, tail)) == Pointers(tail)
    ensures InlineLength(WireOf(labels, tail)) == |EncodeLabels(labels)| + InlineLength(tail)
  {
    if labels != [] {
      WireOfLabels(labels[1..], tail);
      assert Texts(labels) == [Chars(labels[0])] + Texts(labels[1..]);
    }
  }

  lemma {:induction false} SliceOf(buf: Bytes, off: nat, e: Bytes, from: nat, to: nat)
    requires off + |e| <= |buf| && buf[off..off + |e|] == e && from <= to <= |e|
    ensures buf[off + from..off + to] == e[from..to]
  {
    forall i | 0 <= i < to - from
      ensures buf[off + from..off + to][i] == e[from..to][i]
    {
      assert buf[off + (from + i)] == buf[off..off + |e|][from + i];
    }
  }

  lemma {:induction false} LabelIsSpelled(buf: Bytes, off: nat, text: Bytes, rest: Wire)
    requires 1 <= |text| <= MAX_LABEL && off + 1 + |text| <= |buf|
    requires buf[off..off + 1] == [|text|] && buf[off + 1..off + 1 + |text|] == text
    requires Spelled(buf, off + 1 + |text|, rest)
    ensures Spelled(buf, off, Label(text, rest))
  {
  }

  /** Written labels followed by a name that lies there are a name that lies there. */
  lemma {:induction false} WrittenIsSpelled(buf: Bytes, off: nat, labels: seq<Bytes>, tail: Wire)
    requires GoodLabels(labels)
    requires off + |EncodeLabels(labels)| <= |buf| && buf[off..off + |EncodeLabels(labels)|] == EncodeLabels(labels)
    requires Spelled(buf, off + |EncodeLabels(labels)|, tail)
    ensures Spelled(buf, off, WireOf(labels, tail))
    decreases |labels|
  {
    hide Spelled;
    if labels != [] {
      var l, e, more := labels[0], EncodeLabels(labels), EncodeLabels(labels[1..]);
      assert e[0..1] == [|l|] && e[1..1 + |l|] == l && e[1 + |l|..|e|] == more;
      SliceOf(buf, off, e, 0, 1);
      SliceOf(buf, off, e, 1, 1 + |l|);
      SliceOf(buf, off, e, 1 + |l|, |e|);
      WrittenIsSpelled(buf, off + 1 + |l|, labels[1..], tail);
      LabelIsSpelled(buf, off, l, WireOf(labels[1..], tail));
    }
  }

  // ----- Written pointers

  /** A pointer names the 14 bits behind its two marker bits. */
  lemma {:induction false} TargetReads(n: nat)
    requires n < 0x4000
    ensures IsPointer(192 + n / 256) && Target(192 + n / 256, n % 256) == n
  {
  }

  /** Labels followed by a pointer spell the labels and then the name at the offset that
      its two bytes give, and decode to both, joined by a dot. */
  lemma {:induction false} WrittenPointerContinues(buf: Bytes, off: nat, labels: seq<Bytes>, t: nat, w: Wire)
    requires GoodLabels(labels) && t < 0x4000
    requires var at := off + |EncodeLabels(labels)|;
      && at + 2 <= |buf| && buf[off..at + 2] == EncodeLabels(labels) + [192 + t / 256, t % 256] && t < at
    requires Spelled(buf, t, w)
    ensures Spelled(buf, off, WireOf(labels, Pointer(t, w)))
    ensures DecodeName(buf, off) == if Pointers(w) < MAX_JUMPS then Dotted(Texts(labels) + Labels(w)) else ""
    ensures SkipFrom(buf, off) == off + |EncodeLabels(labels)| + 2
  {
    hide Spelled, DecodeName, SkipFrom, EncodeLabels, Texts, Dotted, WireOf;
    var e, at := EncodeLabels(labels), off + |EncodeLabels(labels)|;
    var both := e + [192 + t / 256, t % 256];
    assert both[..|e|] == e && both[|e|..] == [192 + t / 256, t % 256];
    SliceOf(buf, off, both, 0, |e|);
    SliceOf(buf, off, both, |e|, |e| + 2);
    PointerLies(buf, at, t, w);
    WrittenIsSpelled(buf, off, labels, Pointer(t, w));
    WireOfLabels(labels, Pointer(t, w));
    DecodesToLabels(buf, off, WireOf(labels, Pointer(t, w)));
    SkipsTheName(buf, off, WireOf(labels, Pointer(t, w)));
  }

  lemma {:induction false} PointerLies(buf: Bytes, at: nat, t: nat, w: Wire)
    requires t < 0x4000 && t < at && at + 2 <= |buf| && buf[at..at + 2] == [192 + t / 256, t % 256]
    requires Spelled(buf, t, w)
    ensures Spelled(buf, at, Pointer(t, w))
  {
    TargetReads(t);
    assert buf[at] == buf[at..at + 2][0] && buf[at + 1] == buf[at..at + 2][1];
  }

  /** Text characters are the bytes, in order. */
  lemma {:induction false} CharsAreBytes(t: Bytes, i: nat)
    requires i < |t|
    ensures |Chars(t)| == |t| && Chars(t)[i] as int == t[i]
  {
  }

  // ----- Damaged names

  lemma {:induction false} AfterLabel(buf: Bytes, off: nat, l: Bytes, jumps: nat, out: string)
    requires 1 <= |l| <= MAX_LABEL && jumps <= MAX_JUMPS && off + 1 + |l| <= |buf|
    requires buf[off..off + 1] == [|l|] && buf[off + 1..off + 1 + |l|] == l
    ensures SkipFrom(buf, off) == SkipFrom(buf, off + 1 + |l|)
    ensures DecodeFrom(buf, off, jumps, out) == DecodeFrom(buf, off + 1 + |l|, jumps, Append(out, Chars(l)))
  {
    hide Chars, Append;
    assert buf[off] == buf[off..off + 1][0];
  }

  /** What stands behind labels, seen from where they start. */
  lemma {:induction false} AfterLabels(buf: Bytes, off: nat, labels: seq<Bytes>, jumps: nat, out: string)
    requires GoodLabels(labels) && jumps <= MAX_JUMPS
    requires off + |EncodeLabels(labels)| <= |buf| && buf[off..off + |EncodeLabels(labels)|] == EncodeLabels(labels)
    ensures var at := off + |EncodeLabels(labels)|;
      && SkipFrom(buf, off) == SkipFrom(buf, at)
      && DecodeFrom(buf, off, jumps, out) == DecodeFrom(buf, at, jumps, AppendAll(out, Texts(labels)))
    decreases |labels|
  {
    hide Chars, Append, SkipFrom, DecodeFrom;
    if labels != [] {
      var l, e, more := labels[0], EncodeLabels(labels), EncodeLabels(labels[1..]);
      assert e[0..1] == [|l|] && e[1..1 + |l|] == l && e[1 + |l|..|e|] == more;
      SliceOf(buf, off, e, 0, 1);
      SliceOf(buf, off, e, 1, 1 + |l|);
      SliceOf(buf, off, e, 1 + |l|, |e|);
      AfterLabel(buf, off, l, jumps, out);
      AfterLabels(buf, off + 1 + |l|, labels[1..], jumps, Append(out, Chars(l)));
      assert Texts(labels)[0] == Chars(l) && Texts(labels)[1..] == Texts(labels[1..]);
    }
  }

  /** A pointer that does not point backwards is refused, whatever stands before it. */
  lemma {:induction false} ForwardPointerIsRefused(buf: Bytes, off: nat, labels: seq<Bytes>, t: nat)
    requires GoodLabels(labels) && t < 0x4000
    requires var at := off + |EncodeLabels(labels)|;
      at + 2 <= |buf| && buf[off..at + 2] == EncodeLabels(labels) + [192 + t / 256, t % 256] && t >= at
    ensures SkipFrom(buf, off) > |buf| && DecodeName(buf, off) == ""
  {
    hide EncodeLabels, Texts;
    var e, at := EncodeLabels(labels), off + |EncodeLabels(labels)|;
    var both := e + [192 + t / 256, t % 256];
    assert both[..|e|] == e && both[|e|..] == [192 + t / 256, t % 256];
    SliceOf(buf, off, both, 0, |e|);
    SliceOf(buf, off, both, |e|, |e| + 2);
    assert buf[at] == buf[at..at + 2][0] && buf[at + 1] == buf[at..at + 2][1];
    AfterLabels(buf, off, labels, 0, "");
    TargetReads(t);
  }

  /** So is a pointer cut off behind its first byte, a length byte from 64 to 191, and a
      label that runs past the buffer. */
  lemma {:induction false} DamagedLabelIsRefused(buf: Bytes, off: nat, labels: seq<Bytes>)
    requires GoodLabels(labels) && off + |EncodeLabels(labels)| < |buf|
    requires buf[off..off + |EncodeLabels(labels)|] == EncodeLabels(labels)
    requires var at := off + |EncodeLabels(labels)|;
      || (buf[at] >= 192 && at + 1 == |buf|) || 64 <= buf[at] < 192
      || (0 < buf[at] < 64 && at + 1 + buf[at] > |buf|)
    ensures SkipFrom(buf, off) > |buf| && DecodeName(buf, off) == ""
  {
    hide EncodeLabels, Texts;
    AfterLabels(buf, off, labels, 0, "");
  }
}
