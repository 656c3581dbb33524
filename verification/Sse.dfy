/** Signed server-sent events (src/mcpSse.ts): the reader as a machine that takes one code unit at a time, and
    the log a writer leaves behind. `McpSse.dfy` has the objects. */
module Sse {
  import opened Prelude
  import opened Glob
  import Json

  const LF: CodeUnit := 0x0A
  const CR: CodeUnit := 0x0D
  const COLON: CodeUnit := 0x3A
  const SPACE: CodeUnit := 0x20
  const BOM: CodeUnit := 0xFEFF
  const DATA: JsString := [0x64, 0x61, 0x74, 0x61]
  const EVENT: JsString := [0x65, 0x76, 0x65, 0x6E, 0x74]

  datatype Failure =
    | VerificationFailed | WrongSender | WrongRecipient | MalformedEvent | StreamMismatch | SequenceError
    | EventAfterEnd | CountMismatch | StreamTruncated | EventTooLarge | TooManyEvents

  /** What `receiveEnvelope` accepted: the content is `None` where `JSON.parse` throws. */
  datatype Incoming = Incoming(sender: string, recipient: Option<string>, correlationId: Option<string>, content: Option<Json.Value>)

  /** The reader's options. `receive(n, data)` is the outcome of verifying the data of the n-th event. */
  datatype Options = Options(
    selfAgentId: string, peerAgentId: string, expectStreamId: Option<string>, expectCorrelationId: Option<string>,
    maxEventBytes: nat, maxEvents: nat, receive: (nat, JsString) -> Option<Incoming>)

  datatype Verified = Verified(seqNo: int, message: Json.Value)

  datatype Pending = Pending(data: seq<JsString>, eventType: JsString, size: nat)

  const NOTHING: Pending := Pending([], [], 0)

  /** The reader's fields that events change. */
  datatype Core = Core(
    current: Pending, expectedSeq: nat, streamId: Option<string>, ended: bool, failed: Option<Failure>, events: nat)

  // ---------------------------------------------------------------------------
  // One event
  // ---------------------------------------------------------------------------

  function Fail(c: Core, f: Failure): (Core, seq<Verified>) { (c.(failed := Some(f)), []) }

  function Member(v: Json.Value, key: string): Option<Json.Value> {
    if v.Obj? && key in v.members then Some(v.members[key]) else None
  }

  /** An object with a text `stream` and a numeric `seq`. */
  predicate StreamShaped(p: Json.Value) {
    var stream, seqNo := Member(p, "stream"), Member(p, "seq");
    stream.Some? && stream.value.Str? && seqNo.Some? && seqNo.value.Num?
  }

  predicate JsonRpc(m: Option<Json.Value>) {
    m.Some? && Member(m.value, "jsonrpc") == Some(Json.Str("2.0"))
  }

  function Handle(o: Options, c: Core, data: JsString): (Core, seq<Verified>) {
    if c.ended then Fail(c, EventAfterEnd)
    else
      var d := c.(events := c.events + 1);
      if d.events > o.maxEvents then Fail(d, TooManyEvents)
      else
        match o.receive(d.events, data)
        case None => Fail(d, VerificationFailed)
        case Some(env) =>
          if env.sender != o.peerAgentId then Fail(d, WrongSender)
          else if env.recipient != Some(o.selfAgentId) then Fail(d, WrongRecipient)
          else if o.expectCorrelationId.Some? && env.correlationId != o.expectCorrelationId then Fail(d, StreamMismatch)
          else if env.content.None? || !StreamShaped(env.content.value) then Fail(d, MalformedEvent)
          else HandlePayload(d, env.content.value)
  }

  function HandlePayload(c: Core, p: Json.Value): (Core, seq<Verified>)
    requires StreamShaped(p)
  {
    var stream := Member(p, "stream").value.s;
    if c.streamId.Some? && c.streamId.value != stream then Fail(c, StreamMismatch)
    else
      var d := c.(streamId := Some(stream));
      if Member(p, "seq").value.n != Json.Safe(d.expectedSeq) then Fail(d, SequenceError)
      else
        var e := d.(expectedSeq := d.expectedSeq + 1);
        if Member(p, "end") == Some(Json.Bool(true)) then
          if Member(p, "count") != Member(p, "seq") then Fail(e, CountMismatch) else (e.(ended := true), [])
        else if !JsonRpc(Member(p, "message")) then Fail(e, MalformedEvent)
        else (e, [Verified(d.expectedSeq, Member(p, "message").value)])
  }

  // ---------------------------------------------------------------------------
  // One line
  // ---------------------------------------------------------------------------

  /** Lines joined by line feeds. */
  function JoinLines(ds: seq<JsString>): JsString {
    if ds == [] then [] else if |ds| == 1 then ds[0] else ds[0] + [LF] + JoinLines(ds[1..])
  }

  lemma {:induction false} JoinedMore(ds: seq<JsString>, d: JsString)
    ensures JoinLines(ds + [d]) == if ds == [] then d else JoinLines(ds) + [LF] + d
  {
    if |ds| > 1 {
      assert (ds + [d])[1..] == ds[1..] + [d];
      JoinedMore(ds[1..], d);
      assert (ds[0] + [LF] + JoinLines(ds[1..])) + [LF] + d == ds[0] + [LF] + (JoinLines(ds[1..]) + [LF] + d);
    } else if |ds| == 1 {
      assert (ds + [d])[1..] == [d];
    }
  }

  /** The parts of a text between its line feeds. */
  function PartsOf(s: JsString): (ds: seq<JsString>)
    ensures ds != []
  {
    if s == [] then [[]]
    else
      var rest := PartsOf(s[1..]);
      if s[0] == LF then [[]] + rest else [[s[0]] + rest[0]] + rest[1..]
  }

  /** The data lines of an event are the lines of its data. */
  lemma {:induction false} JoinedLinesBack(ds: seq<JsString>)
    requires ds != [] && forall d | d in ds :: LF !in d
    ensures PartsOf(JoinLines(ds)) == ds
    decreases |ds|, |ds[0]|
  {
    if ds[0] != [] {
      var shorter := [ds[0][1..]] + ds[1..];
      forall d | d in shorter
        ensures LF !in d
      {
        if d == ds[0][1..] {
          assert ds[0] in ds && forall u | u in d :: u in ds[0];
        } else {
          assert d in ds[1..];
        }
      }
      JoinedLinesBack(shorter);
      assert shorter[1..] == ds[1..];
      assert JoinLines(ds)[0] == ds[0][0] && ds[0][0] in ds[0];
      assert JoinLines(ds)[1..] == JoinLines(shorter);
      assert [ds[0][0]] + ds[0][1..] == ds[0] && [ds[0]] + ds[1..] == ds;
    } else if |ds| > 1 {
      JoinedLinesBack(ds[1..]);
      assert JoinLines(ds)[1..] == JoinLines(ds[1..]);
      assert [[]] + ds[1..] == ds;
    }
  }

  /** Where the first colon is, or the length of the line. */
  function FirstColon(line: JsString): (i: nat)
    ensures i <= |line|
  {
    if line == [] || line[0] == COLON then 0 else 1 + FirstColon(line[1..])
  }

  function FieldValue(line: JsString): JsString {
    var i := FirstColon(line);
    var value := if i == |line| then [] else line[i + 1..];
    if value != [] && value[0] == SPACE then value[1..] else value
  }

  /** What follows the first colon, one leading space aside; nothing when there is no colon. */
  lemma {:induction false} FieldExactly(name: JsString, value: JsString)
    requires COLON !in name
    ensures FirstColon(name) == |name| && FieldValue(name) == []
    ensures FirstColon(name + [COLON] + value) == |name|
    ensures FieldValue(name + [COLON, SPACE] + value) == value
    ensures (value == [] || value[0] != SPACE) ==> FieldValue(name + [COLON] + value) == value
  {
    ColonAfter(name, value);
    ColonAfter(name, [SPACE] + value);
    NoColon(name);
    assert name + [COLON, SPACE] + value == name + [COLON] + ([SPACE] + value);
    assert (name + [COLON] + value)[|name| + 1..] == value;
    assert (name + [COLON] + ([SPACE] + value))[|name| + 1..] == [SPACE] + value;
    assert ([SPACE] + value)[1..] == value;
  }

  lemma {:induction false} NoColon(name: JsString)
    requires COLON !in name
    ensures FirstColon(name) == |name|
  {
    if name != [] {
      assert name[0] in name && forall u | u in name[1..] :: u in name;
      NoColon(name[1..]);
    }
  }

  lemma {:induction false} ColonAfter(name: JsString, tail: JsString)
    requires COLON !in name
    ensures FirstColon(name + [COLON] + tail) == |name|
  {
    var s := name + [COLON] + tail;
    if name != [] {
      assert s[0] == name[0] && s[1..] == name[1..] + [COLON] + tail;
      assert forall u | u in name[1..] :: u in name;
      ColonAfter(name[1..], tail);
    }
  }

  function TakeLine(o: Options, c: Core, line: JsString): (Core, seq<Verified>) {
    if line == [] then
      var d := c.(current := NOTHING);
      if c.current.data == [] then (d, []) else Handle(o, d, JoinLines(c.current.data))
    else if line[0] == COLON then (c, [])
    else
      var field, value := line[..FirstColon(line)], FieldValue(line);
      if field == DATA then
        var cur := c.current.(size := c.current.size + |value| + 1);
        if cur.size > o.maxEventBytes then Fail(c.(current := cur), EventTooLarge)
        else (c.(current := cur.(data := cur.data + [value])), [])
      else if field == EVENT then (c.(current := c.current.(eventType := value)), [])
      else (c, [])
  }

  // ---------------------------------------------------------------------------
  // One code unit: section 9.2 of the WHATWG HTML Standard
  // ---------------------------------------------------------------------------

  datatype Machine = Machine(started: bool, lastWasCr: bool, buffer: JsString, core: Core)

  function Initial(o: Options): Machine {
    Machine(false, false, [], Core(NOTHING, 0, o.expectStreamId, false, None, 0))
  }

  function EndLine(o: Options, m: Machine, cr: bool): (Machine, seq<Verified>) {
    var (c, out) := TakeLine(o, m.core, m.buffer);
    (Machine(true, cr, [], c), out)
  }

  function Step(o: Options, m: Machine, u: CodeUnit): (Machine, seq<Verified>) {
    if !m.started && u == BOM then (m.(started := true), [])
    else if m.started && m.lastWasCr && u == LF then (m.(lastWasCr := false), [])
    else if u == CR then EndLine(o, m, true)
    else if u == LF then EndLine(o, m, false)
    else (Machine(true, false, m.buffer + [u], m.core), [])
  }

  /** A failed reader takes nothing more. */
  function Run(o: Options, m: Machine, s: JsString): (Machine, seq<Verified>)
    decreases |s|
  {
    if s == [] || m.core.failed.Some? then (m, [])
    else
      var (m1, out1) := Step(o, m, s[0]);
      var (m2, out2) := Run(o, m1, s[1..]);
      (m2, out1 + out2)
  }

  lemma {:induction false} RunAppend(o: Options, m: Machine, s: JsString, t: JsString)
    ensures var (m1, out1) := Run(o, m, s);
            var (m2, out2) := Run(o, m1, t);
            Run(o, m, s + t) == (m2, out1 + out2)
    decreases |s|
  {
    hide Step;
    if s == [] || m.core.failed.Some? {
      assert s == [] ==> s + t == t;
      assert [] + Run(o, m, t).1 == Run(o, m, t).1;
    } else {
      assert (s + t)[0] == s[0] && (s + t)[1..] == s[1..] + t;
      var (m1, out1) := Step(o, m, s[0]);
      RunAppend(o, m1, s[1..], t);
      var (m2, out2) := Run(o, m1, s[1..]);
      var (m3, out3) := Run(o, m2, t);
      assert out1 + (out2 + out3) == (out1 + out2) + out3;
    }
  }

  // ---------------------------------------------------------------------------
  // One chunk
  // ---------------------------------------------------------------------------

  /** What `feed` returns or throws. An empty chunk counts as the first, and forgets a carriage return. */
  function Feed(o: Options, m: Machine, chunk: JsString): (Machine, Result<seq<Verified>, Failure>) {
    if m.core.failed.Some? then (m, Err(m.core.failed.value))
    else if chunk == [] then AfterChunk(o, Blank(m), [])
    else
      var (n, out) := Run(o, m, chunk);
      AfterChunk(o, n, out)
  }

  function Blank(m: Machine): Machine { m.(started := true, lastWasCr := false) }

  function AfterChunk(o: Options, m: Machine, out: seq<Verified>): (Machine, Result<seq<Verified>, Failure>) {
    if m.core.failed.Some? then (m, Err(m.core.failed.value))
    else if |m.buffer| > o.maxEventBytes then (m.(core := m.core.(failed := Some(EventTooLarge))), Err(EventTooLarge))
    else (m, Ok(out))
  }

  /** The messages that successive feeds yield, and whether one threw. */
  datatype Session = Session(machine: Machine, yielded: seq<Verified>, thrown: Option<Failure>)

  function FeedAll(o: Options, m: Machine, chunks: seq<JsString>): Session
    decreases |chunks|
  {
    if chunks == [] then Session(m, [], None)
    else
      var (n, r) := Feed(o, m, chunks[0]);
      match r
      case Err(f) => Session(n, [], Some(f))
      case Ok(out) =>
        var rest := FeedAll(o, n, chunks[1..]);
        rest.(yielded := out + rest.yielded)
  }

  function Flatten(chunks: seq<JsString>): JsString {
    if chunks == [] then [] else chunks[0] + Flatten(chunks[1..])
  }

  /** No line read so far, complete or not, is longer than the limit. */
  ghost predicate LinesFit(o: Options, m: Machine, s: JsString) {
    forall k | 0 <= k <= |s| :: |Run(o, m, s[..k]).0.buffer| <= o.maxEventBytes
  }

  lemma LinesFitPrefix(o: Options, m: Machine, s: JsString, t: JsString)
    requires LinesFit(o, m, s + t)
    ensures |Run(o, m, s).0.buffer| <= o.maxEventBytes
    ensures LinesFit(o, Run(o, m, s).0, t)
  {
    assert (s + t)[..|s|] == s;
    forall k | 0 <= k <= |t|
      ensures |Run(o, Run(o, m, s).0, t[..k]).0.buffer| <= o.maxEventBytes
    {
      assert (s + t)[..|s| + k] == s + t[..k];
      RunAppend(o, m, s, t[..k]);
    }
  }

  lemma {:induction false} FailureStays(o: Options, m: Machine, s: JsString)
    requires m.core.failed.Some?
    ensures Run(o, m, s) == (m, [])
  {
  }

  /** Parsing does not depend on chunking: if no event fails and no line is too long, any split of the body
      into non-empty chunks, between a carriage return and a line feed too, yields the same messages and
      leaves the same reader as the body fed whole. */
  lemma {:induction false} ChunkingIrrelevant(o: Options, m: Machine, chunks: seq<JsString>)
    requires forall c | c in chunks :: c != []
    requires m.core.failed.None? && Run(o, m, Flatten(chunks)).0.core.failed.None? && LinesFit(o, m, Flatten(chunks))
    ensures FeedAll(o, m, chunks) == Session(Run(o, m, Flatten(chunks)).0, Run(o, m, Flatten(chunks)).1, None)
    decreases |chunks|
  {
    if chunks != [] {
      var s, t := chunks[0], Flatten(chunks[1..]);
      assert s in chunks && forall c | c in chunks[1..] :: c in chunks;
      RunAppend(o, m, s, t);
      LinesFitPrefix(o, m, s, t);
      var n := Run(o, m, s).0;
      if n.core.failed.Some? {
        FailureStays(o, n, t);
      }
      ChunkingIrrelevant(o, n, chunks[1..]);
    }
  }

  /** The concrete failing split: "data", CR, nothing, LF. Whole, no event ends; with the empty chunk between
      CR and LF, an event with empty data is dispatched. */
  lemma EmptyChunkCounterexample(o: Options)
    requires o.maxEventBytes == 10 && o.maxEvents > 0 && forall n, d :: o.receive(n, d) == None
    ensures FeedAll(o, Initial(o), [DATA + [CR, LF]]).thrown == None
    ensures FeedAll(o, Initial(o), [DATA + [CR], [], [LF]]).thrown == Some(VerificationFailed)
  {
    var m0 := Initial(o);
    var m1 := Machine(true, false, DATA, m0.core);
    assert Run(o, m0, DATA) == (m1, []) by {
      RunFour(o, m0);
    }
    var c := m0.core.(current := Pending([[]], [], 1));
    assert FirstColon(DATA) == 4 by { FourColon(); }
    assert DATA[..4] == DATA && FieldValue(DATA) == [];
    assert NOTHING.data + [[]] == [[]];
    assert TakeLine(o, m0.core, DATA) == (c, []);
    var m2 := Machine(true, true, [], c);
    assert Step(o, m1, CR) == (m2, []);
    assert Run(o, m1, [CR]) == (m2, []) by { OneStep(o, m1, CR); }
    RunAppend(o, m0, DATA, [CR]);
    OneStep(o, m2, LF);
    RunAppend(o, m0, DATA + [CR], [LF]);
    assert DATA + [CR] + [LF] == DATA + [CR, LF];
    OneStep(o, Blank(m2), LF);
    var chunks := [DATA + [CR], [], [LF]];
    assert Feed(o, m0, chunks[0]) == (m2, Ok([]));
    assert Feed(o, m2, []) == (Blank(m2), Ok([]));
    assert Feed(o, Blank(m2), [LF]).1 == Err(VerificationFailed);
    assert chunks[1..] == [[], [LF]] && chunks[1..][1..] == [[LF]];
    hide Feed;
    assert FeedAll(o, Blank(m2), [[LF]]).thrown == Some(VerificationFailed);
    assert FeedAll(o, m2, [[], [LF]]).thrown == Some(VerificationFailed);
  }

  lemma OneStep(o: Options, m: Machine, u: CodeUnit)
    requires m.core.failed.None?
    ensures Run(o, m, [u]) == Step(o, m, u)
  {
    var (m1, out) := Step(o, m, u);
    assert [u][1..] == [] && Run(o, m1, []) == (m1, []) && out + [] == out;
  }

  lemma FourColon()
    ensures FirstColon(DATA) == 4
  {
    assert DATA[1..] == [0x61, 0x74, 0x61] && DATA[1..][1..] == [0x74, 0x61] && DATA[1..][1..][1..] == [0x61];
    assert FirstColon([0x61]) == 1 && FirstColon([0x74, 0x61]) == 2 && FirstColon([0x61, 0x74, 0x61]) == 3;
  }

  lemma RunFour(o: Options, m: Machine)
    requires m.buffer == [] && !m.started && !m.lastWasCr && m.core.failed.None?
    ensures Run(o, m, DATA) == (Machine(true, false, DATA, m.core), [])
  {
    var a := Machine(true, false, [0x64], m.core);
    var b := Machine(true, false, [0x64, 0x61], m.core);
    var c := Machine(true, false, [0x64, 0x61, 0x74], m.core);
    OneStep(o, m, 0x64);
    OneStep(o, a, 0x61);
    OneStep(o, b, 0x74);
    OneStep(o, c, 0x61);
    assert m.buffer + [0x64] == [0x64] && a.buffer + [0x61] == b.buffer && b.buffer + [0x74] == c.buffer && c.buffer + [0x61] == DATA;
    assert Step(o, m, 0x64) == (a, []) && Step(o, a, 0x61) == (b, []) && Step(o, b, 0x74) == (c, []);
    RunAppend(o, m, [0x64], [0x61]);
    RunAppend(o, m, [0x64, 0x61], [0x74]);
    RunAppend(o, m, [0x64, 0x61, 0x74], [0x61]);
    assert [0x64] + [0x61] == [0x64, 0x61] && [0x64, 0x61] + [0x74] == [0x64, 0x61, 0x74];
    assert [0x64, 0x61, 0x74] + [0x61] == DATA;
  }
}
