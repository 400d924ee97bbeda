/** The reverse-lookup query and its answer (src/dhcp/PtrProbe.cpp:24-98,
    src/dhcp/DnsMessage.cpp:8-24). */
module PtrProbe {
  import opened Net
  import opened DnsName
  import opened TextLines

  const HEADER: nat := 12
  const TYPE_PTR: nat := 12
  const MAX_QUERY: nat := 64

  function U16(hi: Byte, lo: Byte): nat {
    var h: int := hi;
    h * 256 + lo
  }

  function U16At(buf: Bytes, off: nat): nat
    requires off + 1 < |buf|
  {
    U16(buf[off], buf[off + 1])
  }

  // ----- The query

  function Decimal(b: Byte): (t: Bytes)
    ensures 1 <= |t| <= 3
  {
    var v: int := b;
    if v < 10 then [48 + v]
    else if v < 100 then [48 + v / 10, 48 + v % 10]
    else [48 + v / 100, 48 + v / 10 % 10, 48 + v % 10]
  }

  const IN_ADDR: Bytes := [105, 110, 45, 97, 100, 100, 114]
  const ARPA: Bytes := [97, 114, 112, 97]

  function HeaderBytes(id: nat): (r: Bytes)
    requires id < 0x1_0000
    ensures |r| == HEADER
  {
    [id / 256, id % 256, 1, 0, 0, 1, 0, 0, 0, 0, 0, 0]
  }

  /** The labels of the reverse name: last octet first, then the two fixed ones. */
  function ReverseLabels(ip: Ip): seq<Bytes> {
    [Decimal(ip.d), Decimal(ip.c), Decimal(ip.b), Decimal(ip.a), IN_ADDR, ARPA]
  }

  function Put(q: Bytes, text: Bytes): Bytes
    requires |text| < 256
  {
    q + [|text|] + text
  }

  lemma {:induction false} EncodeOneMore(labels: seq<Bytes>, text: Bytes)
    requires GoodLabels(labels) && 1 <= |text| <= MAX_LABEL
    ensures GoodLabels(labels + [text])
    ensures EncodeLabels(labels + [text]) == Put(EncodeLabels(labels), text)
    decreases |labels|
  {
    var all := labels + [text];
    if labels == [] {
      assert all[1..] == [];
    } else {
      var head := [|labels[0]|] + labels[0];
      assert all[1..] == labels[1..] + [text];
      EncodeOneMore(labels[1..], text);
      PutAssociates(head, EncodeLabels(labels[1..]), text);
    }
  }

  lemma {:induction false} PutAssociates(head: Bytes, q: Bytes, text: Bytes)
    requires |text| < 256
    ensures head + Put(q, text) == Put(head + q, text)
  {
  }

  lemma {:induction false} PutEncodes(q: Bytes, labels: seq<Bytes>, text: Bytes)
    requires GoodLabels(labels) && 1 <= |text| <= MAX_LABEL
    ensures GoodLabels(labels + [text])
    ensures Put(q + EncodeLabels(labels), text) == q + EncodeLabels(labels + [text])
  {
    hide EncodeLabels;
    EncodeOneMore(labels, text);
    PutAssociates(q, EncodeLabels(labels), text);
  }

  lemma {:induction false} EncodedLength(labels: seq<Bytes>, n: nat)
    requires GoodLabels(labels) && n <= |labels|
    requires forall i :: 0 <= i < |labels| ==> |labels[i]| <= if i < 4 then 3 else 7
    ensures |EncodeLabels(labels[..n])| <= if n <= 4 then 4 * n else 16 + 8 * (n - 4)
  {
    if n > 0 {
      EncodedLength(labels, n - 1);
      assert labels[..n] == labels[..n - 1] + [labels[n - 1]];
      EncodeOneMore(labels[..n - 1], labels[n - 1]);
    }
  }

  /** No address, or the broadcast address, is not a question; any other one gets
      the query for its reverse name, which always fits the limit. */
  method BuildQuery(ip: Ip, id: nat) returns (q: Bytes)
    requires id < 0x1_0000
    ensures ip == NO_IP || ip == Ip(255, 255, 255, 255) ==> q == []
    ensures ip != NO_IP && ip != Ip(255, 255, 255, 255) ==>
      GoodLabels(ReverseLabels(ip)) && |q| < MAX_QUERY &&
      q == HeaderBytes(id) + EncodeLabels(ReverseLabels(ip)) + [0, 0, 12, 0, 1]
  {
    if ip == NO_IP || ip == Ip(255, 255, 255, 255) { return []; }
    hide Decimal, EncodeLabels, HeaderBytes;
    q := HeaderBytes(id);
    var octets := [ip.a, ip.b, ip.c, ip.d];
    ghost var labels := ReverseLabels(ip);
    assert GoodLabels(labels);
    NothingEncoded(q, labels);
    var i := 4;
    while i > 0
      invariant 0 <= i <= 4 && q == HeaderBytes(id) + EncodeLabels(labels[..4 - i])
    {
      i := i - 1;
      var text := Decimal(octets[i]);
      EncodedLength(labels, 3 - i);
      if |q| + 1 + |text| >= MAX_QUERY { assert false; return []; }
      assert text == labels[3 - i] && labels[..4 - i] == labels[..3 - i] + [text];
      PutEncodes(HeaderBytes(id), labels[..3 - i], text);
      q := Put(q, text);
    }
    var parts := [IN_ADDR, ARPA];
    for k := 0 to 2
      invariant q == HeaderBytes(id) + EncodeLabels(labels[..4 + k])
    {
      EncodedLength(labels, 4 + k);
      if |q| + 1 + |parts[k]| >= MAX_QUERY { assert false; return []; }
      assert parts[k] == labels[4 + k] && labels[..5 + k] == labels[..4 + k] + [parts[k]];
      PutEncodes(HeaderBytes(id), labels[..4 + k], parts[k]);
      q := Put(q, parts[k]);
    }
    assert labels[..6] == labels;
    EncodedLength(labels, 6);
    q := q + [0, 0, 12, 0, 1];
  }

  lemma {:induction false} NothingEncoded(q: Bytes, labels: seq<Bytes>)
    requires GoodLabels(labels)
    ensures q == q + EncodeLabels(labels[..0])
  {
  }

  /** The question of the query decodes to the reverse name of the address and of no
      other address, and skipping it leaves exactly its type and class. */
  lemma {:induction false} QueryNamesTheAddress(ip: Ip, id: nat, q: Bytes)
    requires id < 0x1_0000 && GoodLabels(ReverseLabels(ip))
    requires q == HeaderBytes(id) + EncodeLabels(ReverseLabels(ip)) + [0, 0, 12, 0, 1]
    ensures DecodeName(q, HEADER) == Dotted(Texts(ReverseLabels(ip)))
    ensures SkipFrom(q, HEADER) == |q| - 4
    ensures q[|q| - 4..] == [0, 12, 0, 1]
    ensures q[..HEADER] == [id / 256, id % 256, 1, 0, 0, 1, 0, 0, 0, 0, 0, 0]
    ensures forall other :: Dotted(Texts(ReverseLabels(other))) == DecodeName(q, HEADER) ==> other == ip
  {
    hide Decimal, EncodeLabels, DecodeName, SkipFrom, Texts, Dotted, WireOf;
    var labels := ReverseLabels(ip);
    var e := EncodeLabels(labels);
    var w := WireOf(labels, End);
    assert q[HEADER..HEADER + |e|] == e;
    assert q[HEADER + |e|] == 0;
    WrittenIsSpelled(q, HEADER, labels, End);
    WireOfLabels(labels, End);
    assert Texts(labels) + [] == Texts(labels);
    DecodesToLabels(q, HEADER, w);
    SkipsTheName(q, HEADER, w);
    forall other | Dotted(Texts(ReverseLabels(other))) == DecodeName(q, HEADER) ensures other == ip {
      ReverseNameInjective(other, ip);
    }
  }

  /** The text of an octet stands for the octet, and has no dot. */
  lemma {:induction false} DecimalReads(b: Byte)
    ensures Value(Chars(Decimal(b))) == b && '.' !in Chars(Decimal(b))
  {
    var t := Chars(Decimal(b));
    var v: int := b;
    if v < 10 {
      ValueOfDigits(t, 0, 0, v);
    } else if v < 100 {
      ValueOfDigits(t, 0, v / 10, v % 10);
    } else {
      ValueOfDigits(t, v / 100, v / 10 % 10, v % 10);
    }
  }

  lemma {:induction false} DottedIsJoin(ls: seq<string>)
    ensures Dotted(ls) == Join(ls, '.')
  {
    if |ls| > 1 {
      DottedIsJoin(ls[1..]);
      JoinCons(ls[0], ls[1..], '.');
      assert ls == [ls[0]] + ls[1..];
    }
  }

  lemma {:induction false} ReverseTexts(ip: Ip)
    ensures var ls := Texts(ReverseLabels(ip));
      && |ls| == 6 && (forall l :: l in ls ==> '.' !in l)
      && Value(ls[0]) == ip.d && Value(ls[1]) == ip.c && Value(ls[2]) == ip.b && Value(ls[3]) == ip.a
  {
    hide Decimal, Value;
    DecimalReads(ip.a);
    DecimalReads(ip.b);
    DecimalReads(ip.c);
    DecimalReads(ip.d);
    var ls := Texts(ReverseLabels(ip));
    assert '.' !in ls[4] && '.' !in ls[5];
  }

  /** Two addresses never share a reverse name. */
  lemma {:induction false} ReverseNameInjective(x: Ip, y: Ip)
    requires Dotted(Texts(ReverseLabels(x))) == Dotted(Texts(ReverseLabels(y)))
    ensures x == y
  {
    hide Value, ReverseLabels, Texts, Dotted;
    var xs, ys := Texts(ReverseLabels(x)), Texts(ReverseLabels(y));
    ReverseTexts(x);
    ReverseTexts(y);
    DottedIsJoin(xs);
    DottedIsJoin(ys);
    SplitOfJoin(xs, '.');
    SplitOfJoin(ys, '.');
  }

  /** The reverse name: the octets from the last to the first, and the two fixed labels. */
  lemma {:induction false} ReverseNameText(ip: Ip)
    ensures Dotted(Texts(ReverseLabels(ip))) ==
      Chars(Decimal(ip.d)) + "." + Chars(Decimal(ip.c)) + "." + Chars(Decimal(ip.b)) + "." + Chars(Decimal(ip.a)) +
      ".in-addr.arpa"
  {
    hide Decimal, Dotted, Chars;
    var ls := Texts(ReverseLabels(ip));
    FixedLabels();
    DottedSix(ls[0], ls[1], ls[2], ls[3], ls[4], ls[5]);
    assert ls == [ls[0], ls[1], ls[2], ls[3], ls[4], ls[5]];
    assert ls[4] == "in-addr" && ls[5] == "arpa" && "." + "in-addr" + "." + "arpa" == ".in-addr.arpa";
  }

  lemma {:induction false} DottedSix(a: string, b: string, c: string, d: string, e: string, f: string)
    ensures Dotted([a, b, c, d, e, f]) == a + "." + b + "." + c + "." + d + ("." + e + "." + f)
  {
    hide Dotted;
    assert [a, b, c, d, e, f][1..] == [b, c, d, e, f] && [b, c, d, e, f][1..] == [c, d, e, f];
    assert [c, d, e, f][1..] == [d, e, f] && [d, e, f][1..] == [e, f] && [e, f][1..] == [f];
    DottedStep([a, b, c, d, e, f]);
    DottedStep([b, c, d, e, f]);
    DottedStep([c, d, e, f]);
    DottedStep([d, e, f]);
    DottedStep([e, f]);
    DottedOne(f);
  }

  lemma {:induction false} DottedOne(l: string)
    ensures Dotted([l]) == l
  {
  }

  lemma {:induction false} DottedStep(ls: seq<string>)
    requires |ls| > 1
    ensures Dotted(ls) == ls[0] + "." + Dotted(ls[1..])
  {
  }

  lemma {:induction false} FixedLabels()
    ensures Chars(IN_ADDR) == "in-addr" && Chars(ARPA) == "arpa"
  {
  }

  // ----- The answer

  /** The envelope: our id, a response, no error; then the two counts. */
  function ReadHeader(buf: Bytes, id: nat): Option<(nat, nat)> {
    if |buf| < HEADER || U16At(buf, 0) != id || buf[2] < 128 || buf[3] % 16 != 0 then None
    else Some((U16At(buf, 4), U16At(buf, 6)))
  }

  function SkipQuestions(buf: Bytes, off: nat, n: nat): Option<nat>
    decreases n
  {
    if n == 0 then Some(off)
    else
      var o := SkipFrom(buf, off);
      if o + 4 > |buf| then None else SkipQuestions(buf, o + 4, n - 1)
  }

  function FirstPtr(buf: Bytes, off: nat, n: nat): string
    decreases n
  {
    if n == 0 then ""
    else
      var o := SkipFrom(buf, off);
      if o + 10 > |buf| || o + 10 + U16At(buf, o + 8) > |buf| then ""
      else if U16At(buf, o) == TYPE_PTR then DecodeName(buf, o + 10)
      else FirstPtr(buf, o + 10 + U16At(buf, o + 8), n - 1)
  }

  function Answer(buf: Bytes, id: nat): string {
    match ReadHeader(buf, id)
    case None => ""
    case Some((questions, answers)) =>
      if answers == 0 then ""
      else match SkipQuestions(buf, HEADER, questions)
        case None => ""
        case Some(off) => FirstPtr(buf, off, answers)
  }

  method ParseResponse(buf: Bytes, id: nat) returns (name: string)
    ensures name == Answer(buf, id)
  {
    hide SkipFrom, DecodeName;
    var header := ReadHeader(buf, id);
    if header.None? { return ""; }
    var questions, answers := header.value.0, header.value.1;
    if answers == 0 { return ""; }
    var off: nat := HEADER;
    for i := 0 to questions
      invariant SkipQuestions(buf, HEADER, questions) == SkipQuestions(buf, off, questions - i)
    {
      off := SkipName(buf, off);
      if off + 4 > |buf| { return ""; }
      off := off + 4;
    }
    for i := 0 to answers
      invariant Answer(buf, id) == FirstPtr(buf, off, answers - i)
    {
      off := SkipName(buf, off);
      if off + 10 > |buf| { return ""; }
      var kind, rdLength := U16At(buf, off), U16At(buf, off + 8);
      if off + 10 + rdLength > |buf| { return ""; }
      if kind == TYPE_PTR { name := ReadName(buf, off + 10); return; }
      off := off + 10 + rdLength;
    }
    return "";
  }

  /** Question names lying one after another from `off`, each with type and class. */
  ghost predicate QuestionsLie(buf: Bytes, off: nat, names: seq<Wire>)
    decreases |names|
  {
    names != [] ==>
      && Spelled(buf, off, names[0]) && off + InlineLength(names[0]) + 4 <= |buf|
      && QuestionsLie(buf, off + InlineLength(names[0]) + 4, names[1..])
  }

  function AfterQuestions(off: nat, names: seq<Wire>): nat
    decreases |names|
  {
    if names == [] then off else AfterQuestions(off + InlineLength(names[0]) + 4, names[1..])
  }

  datatype Record = Record(owner: Wire, kind: nat, rdLength: nat)

  ghost predicate RecordLies(buf: Bytes, off: nat, r: Record) {
    var o := off + InlineLength(r.owner);
    && Spelled(buf, off, r.owner) && o + 10 + r.rdLength <= |buf|
    && U16At(buf, o) == r.kind && U16At(buf, o + 8) == r.rdLength
  }

  function RecordLength(r: Record): nat {
    InlineLength(r.owner) + 10 + r.rdLength
  }

  ghost predicate RecordsLie(buf: Bytes, off: nat, rs: seq<Record>)
    decreases |rs|
  {
    rs != [] ==> RecordLies(buf, off, rs[0]) && RecordsLie(buf, off + RecordLength(rs[0]), rs[1..])
  }

  function AfterRecords(off: nat, rs: seq<Record>): nat
    decreases |rs|
  {
    if rs == [] then off else AfterRecords(off + RecordLength(rs[0]), rs[1..])
  }

  lemma {:induction false} QuestionsAreSkipped(buf: Bytes, off: nat, names: seq<Wire>)
    requires QuestionsLie(buf, off, names)
    ensures SkipQuestions(buf, off, |names|) == Some(AfterQuestions(off, names))
    decreases |names|
  {
    if names != [] {
      SkipsTheName(buf, off, names[0]);
      QuestionsAreSkipped(buf, off + InlineLength(names[0]) + 4, names[1..]);
    }
  }

  lemma {:induction false} OneRecord(buf: Bytes, off: nat, r: Record, n: nat)
    requires RecordLies(buf, off, r) && n > 0
    ensures FirstPtr(buf, off, n) ==
      if r.kind == TYPE_PTR then DecodeName(buf, off + InlineLength(r.owner) + 10)
      else FirstPtr(buf, off + RecordLength(r), n - 1)
  {
    hide SkipFrom, Spelled, InlineLength, U16, DecodeName;
    SkipsTheName(buf, off, r.owner);
  }

  lemma {:induction false} RecordsAreSkipped(buf: Bytes, off: nat, rs: seq<Record>, n: nat)
    requires RecordsLie(buf, off, rs) && |rs| <= n && forall i :: 0 <= i < |rs| ==> rs[i].kind != TYPE_PTR
    ensures FirstPtr(buf, off, n) == FirstPtr(buf, AfterRecords(off, rs), n - |rs|)
    decreases |rs|
  {
    hide FirstPtr, RecordLies, RecordLength;
    if rs != [] {
      OneRecord(buf, off, rs[0], n);
      RecordsAreSkipped(buf, off + RecordLength(rs[0]), rs[1..], n - 1);
    }
  }

  lemma {:induction false} NoRecords(buf: Bytes, off: nat)
    ensures FirstPtr(buf, off, 0) == ""
  {
  }

  /** The header of a message: with the id asked for, the response bit and no error it
      gives the two counts, with anything else nothing. */
  lemma {:induction false} HeaderReads(buf: Bytes, id: nat, asked: nat, questions: nat, answers: nat)
    requires id < 0x1_0000 && questions < 0x1_0000 && answers < 0x1_0000 && |buf| >= HEADER
    requires buf[..8] ==
      [id / 256, id % 256, buf[2], buf[3], questions / 256, questions % 256, answers / 256, answers % 256]
    ensures ReadHeader(buf, asked) ==
      if asked == id && buf[2] >= 128 && buf[3] % 16 == 0 then Some((questions, answers)) else None
  {
    U16Reads(id);
    U16Reads(questions);
    U16Reads(answers);
    assert forall i :: 0 <= i < 8 ==> buf[i] == buf[..8][i];
  }

  lemma {:induction false} U16Reads(n: nat)
    requires n < 0x1_0000
    ensures U16(n / 256, n % 256) == n
  {
  }

  /** A message too short for a header is nothing. */
  lemma {:induction false} ShortMessageIsNothing(buf: Bytes, id: nat)
    requires |buf| < 12
    ensures Answer(buf, id) == ""
  {
  }

  /** A response made of questions, any records of other types and then a PTR record
      yields the PTR target; with no PTR record it yields nothing. */
  lemma {:induction false} ResponseYieldsTarget(
    buf: Bytes, id: nat, names: seq<Wire>, rs: seq<Record>, ptr: Record, target: Wire, answers: nat)
    requires |names| < 0x1_0000 && |rs| <= answers < 0x1_0000 && id < 0x1_0000
    requires |buf| >= HEADER && buf[..2] == [id / 256, id % 256] && buf[2] >= 128 && buf[3] % 16 == 0
    requires buf[4..8] == [|names| / 256, |names| % 256, answers / 256, answers % 256]
    requires QuestionsLie(buf, HEADER, names)
    requires var off := AfterQuestions(HEADER, names);
      && RecordsLie(buf, off, rs) && (forall i :: 0 <= i < |rs| ==> rs[i].kind != TYPE_PTR)
      && (|rs| < answers ==>
           && RecordLies(buf, AfterRecords(off, rs), ptr) && ptr.kind == TYPE_PTR
           && Spelled(buf, AfterRecords(off, rs) + InlineLength(ptr.owner) + 10, target))
    ensures Answer(buf, id) ==
      if |rs| < answers && Pointers(target) <= MAX_JUMPS then Dotted(Labels(target)) else ""
  {
    hide FirstPtr, RecordLies, RecordsLie, Spelled, DecodeName, QuestionsLie, ReadHeader;
    var off := AfterQuestions(HEADER, names);
    assert buf[..8] == [id / 256, id % 256, buf[2], buf[3]] + buf[4..8];
    HeaderReads(buf, id, id, |names|, answers);
    if answers == 0 {
      NoRecords(buf, off);
    } else {
      QuestionsAreSkipped(buf, HEADER, names);
      RecordsAreSkipped(buf, off, rs, answers);
      NoRecords(buf, AfterRecords(off, rs));
      if |rs| < answers {
        var at := AfterRecords(off, rs);
        OneRecord(buf, at, ptr, answers - |rs|);
        DecodesToLabels(buf, at + InlineLength(ptr.owner) + 10, target);
      }
    }
  }

  /** A response whose next record does not fit the buffer yields nothing, be it cut off in
      its owner, its fixed part or its data. */
  lemma {:induction false} TruncatedRecordYieldsNothing(
    buf: Bytes, id: nat, names: seq<Wire>, rs: seq<Record>, owner: Wire, answers: nat)
    requires |names| < 0x1_0000 && |rs| < answers < 0x1_0000 && id < 0x1_0000
    requires |buf| >= HEADER && buf[..2] == [id / 256, id % 256] && buf[2] >= 128 && buf[3] % 16 == 0
    requires buf[4..8] == [|names| / 256, |names| % 256, answers / 256, answers % 256]
    requires QuestionsLie(buf, HEADER, names)
    requires var off := AfterQuestions(HEADER, names);
      && RecordsLie(buf, off, rs) && (forall i :: 0 <= i < |rs| ==> rs[i].kind != TYPE_PTR)
      && var at := AfterRecords(off, rs);
         && Spelled(buf, at, owner)
         && var o := at + InlineLength(owner);
            o + 10 > |buf| || o + 10 + U16At(buf, o + 8) > |buf|
    ensures Answer(buf, id) == ""
  {
    hide RecordLies, RecordsLie, Spelled, DecodeName, QuestionsLie, ReadHeader, SkipFrom, FirstPtr;
    var off := AfterQuestions(HEADER, names);
    assert buf[..8] == [id / 256, id % 256, buf[2], buf[3]] + buf[4..8];
    HeaderReads(buf, id, id, |names|, answers);
    QuestionsAreSkipped(buf, HEADER, names);
    RecordsAreSkipped(buf, off, rs, answers);
    NothingBehind(buf, AfterRecords(off, rs), owner, answers - |rs|);
  }

  lemma {:induction false} NothingBehind(buf: Bytes, at: nat, owner: Wire, n: nat)
    requires n > 0 && Spelled(buf, at, owner)
    requires var o := at + InlineLength(owner);
      o + 10 > |buf| || o + 10 + U16At(buf, o + 8) > |buf|
    ensures FirstPtr(buf, at, n) == ""
  {
    hide SkipFrom, DecodeName, Spelled;
    if at + InlineLength(owner) <= |buf| {
      SkipsTheName(buf, at, owner);
    } else {
      CutNameIsNotSkipped(buf, at, owner);
    }
  }

  lemma {:induction false} CutNameIsNotSkipped(buf: Bytes, off: nat, w: Wire)
    requires Spelled(buf, off, w) && off + InlineLength(w) > |buf|
    ensures SkipFrom(buf, off) == |buf| + 1
    decreases w
  {
    if w.Label? { CutNameIsNotSkipped(buf, off + 1 + |w.text|, w.rest); }
  }

  /** Questions that do not fit yield nothing. */
  lemma {:induction false} TruncatedQuestionYieldsNothing(
    buf: Bytes, id: nat, names: seq<Wire>, name: Wire, questions: nat, answers: nat)
    requires |names| < questions < 0x1_0000 && answers < 0x1_0000 && id < 0x1_0000
    requires |buf| >= HEADER && buf[..2] == [id / 256, id % 256]
    requires buf[4..8] == [questions / 256, questions % 256, answers / 256, answers % 256]
    requires QuestionsLie(buf, HEADER, names)
    requires var at := AfterQuestions(HEADER, names); Spelled(buf, at, name) && at + InlineLength(name) + 4 > |buf|
    ensures Answer(buf, id) == ""
  {
    hide Spelled, QuestionsLie, ReadHeader, SkipFrom, FirstPtr;
    assert buf[..8] == [id / 256, id % 256, buf[2], buf[3]] + buf[4..8];
    HeaderReads(buf, id, id, questions, answers);
    QuestionsStop(buf, HEADER, names, name, questions);
  }

  lemma {:induction false} QuestionsStop(buf: Bytes, off: nat, names: seq<Wire>, name: Wire, n: nat)
    requires |names| < n && QuestionsLie(buf, off, names)
    requires var at := AfterQuestions(off, names); Spelled(buf, at, name) && at + InlineLength(name) + 4 > |buf|
    ensures SkipQuestions(buf, off, n) == None
    decreases |names|
  {
    hide Spelled, SkipFrom;
    if names != [] {
      SkipsTheName(buf, off, names[0]);
      QuestionsStop(buf, off + InlineLength(names[0]) + 4, names[1..], name, n - 1);
    } else if off + InlineLength(name) <= |buf| {
      SkipsTheName(buf, off, name);
    } else {
      CutNameIsNotSkipped(buf, off, name);
    }
  }
}
