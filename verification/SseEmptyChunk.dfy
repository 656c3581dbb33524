/** Which readers an empty chunk can confuse: what `feed('')` does to the messages and exceptions of every later feed. */
module SseEmptyChunk {
  import opened Prelude
  import opened Glob
  import opened Sse
  import opened SseLines
  import Json

  // ---------------------------------------------------------------------------
  // States of a reader between feeds
  // ---------------------------------------------------------------------------

  /** What holds of a reader that has not thrown. */
  predicate Resting(o: Options, m: Machine) {
    && m.core.failed.None? && |m.buffer| <= o.maxEventBytes
    && Shaped(o, m)
  }

  predicate Shaped(o: Options, m: Machine) {
    && (!m.started ==> m == Initial(o))
    && (m.lastWasCr ==> m.buffer == [])
    && Sized(o, m.core)
  }

  /** The pending size is that of the data an event would carry, with one line feed more, and within the limit. */
  predicate Sized(o: Options, c: Core) {
    c.failed.None? ==>
      if c.current.data == [] then c.current.size == 0 else c.current.size == |JoinLines(c.current.data)| + 1 <= o.maxEventBytes
  }

  lemma LineKeepsSize(o: Options, c: Core, line: JsString)
    requires Sized(o, c) && c.failed.None?
    ensures Sized(o, TakeLine(o, c, line).0)
  {
    JoinedMore(c.current.data, FieldValue(line));
    hide JoinLines;
    if line == [] {
      HandleKeepsPending(o, c.(current := NOTHING), JoinLines(c.current.data));
    }
  }

  lemma HandleKeepsPending(o: Options, c: Core, data: JsString)
    ensures Handle(o, c, data).0.current == c.current
  {
  }

  lemma StepKeepsShape(o: Options, m: Machine, u: CodeUnit)
    requires Shaped(o, m) && m.core.failed.None?
    ensures Shaped(o, Step(o, m, u).0)
  {
    hide TakeLine;
    LineKeepsSize(o, m.core, m.buffer);
  }

  lemma {:induction false} RunKeepsShape(o: Options, m: Machine, s: JsString)
    requires Shaped(o, m)
    ensures Shaped(o, Run(o, m, s).0)
    decreases |s|
  {
    hide Step;
    hide Shaped;
    if s != [] && m.core.failed.None? {
      StepKeepsShape(o, m, s[0]);
      RunKeepsShape(o, Step(o, m, s[0]).0, s[1..]);
    }
  }

  /** A new reader rests, and so does one whose feed returned. */
  lemma FeedKeepsResting(o: Options, m: Machine, chunk: JsString)
    requires Resting(o, m)
    ensures Resting(o, Initial(o)) && (Feed(o, m, chunk).1.Ok? ==> Resting(o, Feed(o, m, chunk).0))
  {
    hide Run;
    RunKeepsShape(o, m, chunk);
  }

  // ---------------------------------------------------------------------------
  // The event type makes no difference
  // ---------------------------------------------------------------------------

  function Untyped(c: Core): Core { c.(current := c.current.(eventType := [])) }

  /** The same reader but for the type of the pending event. */
  predicate Alike(m: Machine, n: Machine) { m.(core := Untyped(m.core)) == n.(core := Untyped(n.core)) }

  lemma HandleAlike(o: Options, c: Core, d: Core, data: JsString)
    requires Untyped(c) == Untyped(d)
    ensures Untyped(Handle(o, c, data).0) == Untyped(Handle(o, d, data).0) && Handle(o, c, data).1 == Handle(o, d, data).1
  {
    hide HandlePayload;
    hide StreamShaped;
    var x, y := c.(events := c.events + 1), d.(events := d.events + 1);
    assert Untyped(x) == Untyped(y);
    if o.receive(x.events, data).Some? {
      var content := o.receive(x.events, data).value.content;
      if content.Some? && StreamShaped(content.value) {
        PayloadAlike(x, y, content.value);
      }
    }
  }

  lemma PayloadAlike(c: Core, d: Core, p: Json.Value)
    requires Untyped(c) == Untyped(d) && StreamShaped(p)
    ensures Untyped(HandlePayload(c, p).0) == Untyped(HandlePayload(d, p).0) && HandlePayload(c, p).1 == HandlePayload(d, p).1
  {
    hide JsonRpc;
  }

  lemma LineAlike(o: Options, c: Core, d: Core, line: JsString)
    requires Untyped(c) == Untyped(d)
    ensures Untyped(TakeLine(o, c, line).0) == Untyped(TakeLine(o, d, line).0) && TakeLine(o, c, line).1 == TakeLine(o, d, line).1
  {
    hide Handle;
    HandleAlike(o, c.(current := NOTHING), d.(current := NOTHING), JoinLines(c.current.data));
  }

  lemma StepAlike(o: Options, m: Machine, n: Machine, u: CodeUnit)
    requires Alike(m, n)
    ensures Alike(Step(o, m, u).0, Step(o, n, u).0) && Step(o, m, u).1 == Step(o, n, u).1
  {
    hide TakeLine;
    LineAlike(o, m.core, n.core, m.buffer);
  }

  lemma {:induction false} RunAlike(o: Options, m: Machine, n: Machine, s: JsString)
    requires Alike(m, n)
    ensures Alike(Run(o, m, s).0, Run(o, n, s).0) && Run(o, m, s).1 == Run(o, n, s).1
    decreases |s|
  {
    hide Step;
    if s != [] && m.core.failed.None? {
      StepAlike(o, m, n, s[0]);
      RunAlike(o, Step(o, m, s[0]).0, Step(o, n, s[0]).0, s[1..]);
    }
  }

  lemma FeedAlike(o: Options, m: Machine, n: Machine, chunk: JsString)
    requires Alike(m, n)
    ensures Alike(Feed(o, m, chunk).0, Feed(o, n, chunk).0) && Feed(o, m, chunk).1 == Feed(o, n, chunk).1
  {
    hide Run;
    RunAlike(o, m, n, chunk);
  }

  /** Two sessions an outside observer cannot tell apart. */
  predicate SameOutcome(a: Session, b: Session) { a.yielded == b.yielded && a.thrown == b.thrown }

  lemma {:induction false} FeedsAlike(o: Options, m: Machine, n: Machine, chunks: seq<JsString>)
    requires Alike(m, n)
    ensures SameOutcome(FeedAll(o, m, chunks), FeedAll(o, n, chunks))
    ensures Alike(FeedAll(o, m, chunks).machine, FeedAll(o, n, chunks).machine)
    decreases |chunks|
  {
    hide Feed;
    if chunks != [] {
      FeedAlike(o, m, n, chunks[0]);
      if Feed(o, m, chunks[0]).1.Ok? {
        FeedsAlike(o, Feed(o, m, chunks[0]).0, Feed(o, n, chunks[0]).0, chunks[1..]);
      }
    }
  }

  // ---------------------------------------------------------------------------
  // When an empty chunk is harmless
  // ---------------------------------------------------------------------------

  predicate NonEmpty(chunks: seq<JsString>) { forall c | c in chunks :: c != [] }

  /** After a carriage return with no data pending, forgetting the carriage return changes at most the event type. */
  lemma FirstFeedAlike(o: Options, m: Machine, chunk: JsString)
    requires Resting(o, m) && m.started && m.core.current.data == [] && chunk != []
    ensures Alike(Run(o, m, chunk).0, Run(o, Blank(m), chunk).0) && Run(o, m, chunk).1 == Run(o, Blank(m), chunk).1
  {
    var u := chunk[0];
    if m.lastWasCr && u == LF {
      var a, b := Step(o, m, u).0, Step(o, Blank(m), u).0;
      assert Alike(a, b) && Step(o, m, u).1 == Step(o, Blank(m), u).1 == [];
      hide Step;
      RunAlike(o, a, b, chunk[1..]);
    } else {
      assert Step(o, m, u) == Step(o, Blank(m), u);
      hide Step;
    }
  }

  lemma HarmlessFirst(o: Options, m: Machine, rest: seq<JsString>)
    requires Resting(o, m) && m.started && (m.lastWasCr ==> m.core.current.data == []) && NonEmpty(rest)
    ensures SameOutcome(FeedAll(o, Blank(m), rest), FeedAll(o, m, rest))
    ensures rest != [] ==> Alike(FeedAll(o, Blank(m), rest).machine, FeedAll(o, m, rest).machine)
  {
    if !m.lastWasCr {
      assert Blank(m) == m;
    } else if rest != [] {
      assert rest[0] in rest;
      FirstFeedAlike(o, m, rest[0]);
      hide Run;
      var a, b := Feed(o, Blank(m), rest[0]), Feed(o, m, rest[0]);
      assert Alike(a.0, b.0) && a.1 == b.1;
      hide Feed;
      if a.1.Ok? {
        FeedsAlike(o, a.0, b.0, rest[1..]);
      }
    }
  }

  lemma EmptyFirst(o: Options, m: Machine, rest: seq<JsString>)
    requires Resting(o, m)
    ensures FeedAll(o, m, [[]] + rest) == FeedAll(o, Blank(m), rest)
  {
    var chunks := [[]] + rest;
    assert chunks[0] == [] && chunks[1..] == rest;
    assert Feed(o, m, []) == (Blank(m), Ok([]));
    assert [] + FeedAll(o, Blank(m), rest).yielded == FeedAll(o, Blank(m), rest).yielded;
  }

  // ---------------------------------------------------------------------------
  // When it is not
  // ---------------------------------------------------------------------------

  /** Handling an event of a stream that has not ended shows: it fails, yields a message, or ends the stream. */
  lemma HandleShows(o: Options, c: Core, data: JsString)
    requires c.failed.None?
    ensures var (d, out) := Handle(o, c, data);
            d.failed.Some? || out != [] || (d.ended && !c.ended)
    ensures !c.ended ==> Handle(o, c, data).0.failed != Some(EventAfterEnd)
    ensures c.ended ==> Handle(o, c, data).0.failed == Some(EventAfterEnd)
  {
  }

  lemma FeedOne(o: Options, m: Machine, chunk: JsString)
    requires m.core.failed.None? && chunk != []
    ensures var (n, out) := Run(o, m, chunk);
            FeedAll(o, m, [chunk])
            == if n.core.failed.Some? then Session(n, [], Some(n.core.failed.value))
               else if |n.buffer| > o.maxEventBytes then Session(n.(core := n.core.(failed := Some(EventTooLarge))), [], Some(EventTooLarge))
               else Session(n, out, None)
  {
    hide Run;
    assert [chunk][1..] == [];
    var (n, out) := Run(o, m, chunk);
    assert out + [] == out;
  }

  /** One code unit first. */
  lemma RunStep(o: Options, m: Machine, u: CodeUnit, s: JsString)
    requires m.core.failed.None?
    ensures Run(o, m, [u] + s) == (Run(o, Step(o, m, u).0, s).0, Step(o, m, u).1 + Run(o, Step(o, m, u).0, s).1)
  {
    hide Step;
    assert ([u] + s)[0] == u && ([u] + s)[1..] == s;
  }

  lemma DataLine(o: Options, c: Core)
    ensures TakeLine(o, c, DATA)
            == var cur := c.current.(size := c.current.size + 1);
               if cur.size > o.maxEventBytes then Fail(c.(current := cur), EventTooLarge)
               else (c.(current := cur.(data := cur.data + [[]])), [])
  {
    FourColon();
    assert DATA[..4] == DATA && FieldValue(DATA) == [];
  }

  /** The line `data` and a line feed, at the start of a line. */
  lemma RunDataLine(o: Options, m: Machine, s: JsString)
    requires m.core.failed.None? && m.buffer == [] && m.started && !m.lastWasCr
    ensures var (c, out) := TakeLine(o, m.core, DATA);
            var n := Machine(true, false, [], c);
            Run(o, m, DATA + ([LF] + s)) == (Run(o, n, s).0, out + Run(o, n, s).1)
  {
    hide TakeLine;
    var d := Machine(true, false, DATA, m.core);
    PlainText(o, m, DATA);
    assert m.buffer + DATA == DATA;
    RunAppend(o, m, DATA, [LF] + s);
    RunStep(o, d, LF, s);
    assert Step(o, d, LF) == EndLine(o, d, false);
    hide Run;
    var (c, out) := TakeLine(o, m.core, DATA);
    var more := Run(o, Machine(true, false, [], c), s).1;
    assert [] + (out + more) == out + more;
  }

  /** A text without line ends joins the buffer. */
  lemma {:induction false} PlainText(o: Options, m: Machine, t: JsString)
    requires m.core.failed.None? && m.started && !m.lastWasCr && NoBreak(t)
    ensures Run(o, m, t) == (m.(buffer := m.buffer + t), [])
    decreases |t|
  {
    hide Run;
    if t == [] {
      RunEnd(o, m);
      assert m.buffer + t == m.buffer;
    } else {
      assert t[0] in t && forall u | u in t[1..] :: u in t;
      OrdinaryUnit(o, m, t);
      PlainText(o, m.(buffer := m.buffer + [t[0]]), t[1..]);
      assert m.buffer + [t[0]] + t[1..] == m.buffer + t;
    }
  }

  /** The line feed that ends a blank line. */
  lemma RunBlankLine(o: Options, m: Machine, s: JsString)
    requires m.core.failed.None? && m.buffer == [] && m.started && !m.lastWasCr
    ensures var (c, out) := TakeLine(o, m.core, []);
            var n := Machine(true, false, [], c);
            Run(o, m, [LF] + s) == (Run(o, n, s).0, out + Run(o, n, s).1)
  {
    hide TakeLine;
    RunStep(o, m, LF, s);
  }

  lemma RunEnd(o: Options, m: Machine)
    ensures Run(o, m, []) == (m, [])
  {
  }

  /** With data pending after a carriage return, an empty chunk can be told: the event is dispatched at the line feed
      of a CRLF. */
  lemma PendingTells(o: Options, m: Machine) returns (rest: seq<JsString>)
    requires Resting(o, m) && m.started && m.lastWasCr && m.core.current.data != []
    ensures NonEmpty(rest) && !SameOutcome(FeedAll(o, Blank(m), rest), FeedAll(o, m, rest))
  {
    var c, data := m.core, JoinLines(m.core.current.data);
    var idle := c.(current := NOTHING);
    var (d, out) := Handle(o, idle, data);
    assert TakeLine(o, c, []) == (d, out);
    HandleShows(o, idle, data);
    HandleKeepsPending(o, idle, data);
    var kept, sent := Machine(true, false, [], c), Machine(true, false, [], d);
    RunStep(o, m, LF, []);
    RunBlankLine(o, Blank(m), []);
    RunEnd(o, kept);
    RunEnd(o, sent);
    assert [LF] + [] == [LF] && out + [] == out;
    if d.failed.Some? || out != [] {
      rest := [[LF]];
      FeedOne(o, m, [LF]);
      FeedOne(o, Blank(m), [LF]);
    } else {
      rest := [[LF] + (DATA + ([LF] + [LF]))];
      EndedTells(o, m, d);
    }
  }

  /** The dispatched event ended the stream: one more event shows that. */
  lemma EndedTells(o: Options, m: Machine, d: Core)
    requires Resting(o, m) && m.started && m.lastWasCr && m.core.current.data != []
    requires TakeLine(o, m.core, []) == (d, []) && d.failed.None? && d.ended && !m.core.ended && d.current == NOTHING
    ensures var chunk := [LF] + (DATA + ([LF] + [LF]));
            !SameOutcome(FeedAll(o, Blank(m), [chunk]), FeedAll(o, m, [chunk]))
  {
    hide TakeLine;
    hide Handle;
    hide Run;
    var c := m.core;
    var tail := DATA + ([LF] + [LF]);
    var kept, sent := Machine(true, false, [], c), Machine(true, false, [], d);
    RunStep(o, m, LF, tail);
    RunBlankLine(o, Blank(m), tail);
    RunDataLine(o, kept, [LF]);
    RunDataLine(o, sent, [LF]);
    DataLine(o, c);
    DataLine(o, d);
    var c1, d1 := TakeLine(o, c, DATA).0, TakeLine(o, d, DATA).0;
    assert d1.failed.None? && d1.ended && d1.current.data == [[]];
    assert c1.failed.None? ==> !c1.ended && c1.current.data != [];
    LastLine(o, d1);
    LastLine(o, c1);
    FeedOne(o, m, [LF] + tail);
    FeedOne(o, Blank(m), [LF] + tail);
  }

  /** A blank line after data, read last. */
  lemma LastLine(o: Options, c: Core)
    requires c.failed.None? ==> c.current.data != []
    ensures var n := Run(o, Machine(true, false, [], c), [LF]).0;
            && n.buffer == []
            && (c.failed.Some? ==> n.core == c)
            && (c.failed.None? && c.ended ==> n.core.failed == Some(EventAfterEnd))
            && (c.failed.None? && !c.ended ==> n.core.failed != Some(EventAfterEnd))
  {
    var m := Machine(true, false, [], c);
    if c.failed.None? {
      RunBlankLine(o, m, []);
      assert [LF] + [] == [LF];
      HandleShows(o, c.(current := NOTHING), JoinLines(c.current.data));
      RunEnd(o, Machine(true, false, [], TakeLine(o, c, []).0));
    }
  }

  /** Before anything was read, an empty chunk can be told: the byte order mark is no longer dropped. */
  lemma UnstartedTells(o: Options, m: Machine) returns (rest: seq<JsString>)
    requires m == Initial(o)
    ensures NonEmpty(rest) && !SameOutcome(FeedAll(o, Blank(m), rest), FeedAll(o, m, rest))
  {
    var c := m.core;
    var event := DATA + ([LF] + [LF]);
    var (c1, none) := TakeLine(o, c, DATA);
    var (d, out) := TakeLine(o, c1, []);
    DataLine(o, c);
    assert none == [];
    MarkDropped(o, m, event);
    RunDataLine(o, Machine(true, false, [], c), [LF]);
    if c1.failed.None? {
      HandleShows(o, c1.(current := NOTHING), JoinLines(c1.current.data));
      HandleKeepsPending(o, c1.(current := NOTHING), JoinLines(c1.current.data));
    }
    if c1.failed.Some? || d.failed.Some? || out != [] {
      rest := [[BOM] + event];
      OneEventTells(o, m);
    } else {
      rest := [[BOM] + (event + event)];
      TwoEventsTell(o, m);
    }
  }

  lemma MarkDropped(o: Options, m: Machine, s: JsString)
    requires m == Initial(o)
    ensures Run(o, m, [BOM] + s) == Run(o, Machine(true, false, [], m.core), s)
  {
    RunStep(o, m, BOM, s);
    assert Step(o, m, BOM) == (Machine(true, false, [], m.core), []);
    hide Run;
    var r := Run(o, Machine(true, false, [], m.core), s);
    assert [] + r.1 == r.1;
  }

  /** A line that starts with the byte order mark is no data line. */
  lemma MarkedLine(o: Options, m: Machine, s: JsString)
    requires m == Initial(o)
    ensures Run(o, Blank(m), [BOM] + (DATA + ([LF] + s))) == Run(o, Machine(true, false, [], m.core), s)
  {
    var c := m.core;
    var line := [BOM] + DATA;
    var a := Machine(true, false, [BOM], c);
    assert m.buffer + [BOM] == [BOM];
    assert Step(o, Blank(m), BOM) == (a, []);
    RunStep(o, Blank(m), BOM, DATA + ([LF] + s));
    var d := Machine(true, false, line, c);
    PlainText(o, a, DATA);
    RunAppend(o, a, DATA, [LF] + s);
    RunStep(o, d, LF, s);
    MarkedIgnored(o, c);
    assert Step(o, d, LF) == (Machine(true, false, [], c), []);
    hide Run;
    hide Step;
    var r := Run(o, Machine(true, false, [], c), s);
    assert [] + r.1 == r.1;
  }

  lemma MarkedIgnored(o: Options, c: Core)
    ensures TakeLine(o, c, [BOM] + DATA) == (c, [])
  {
    var line := [BOM] + DATA;
    assert line[0] == BOM && line[1..] == DATA;
    FourColon();
    assert FirstColon(line) == 5 && line[..5] == line && |DATA| == 4 && |EVENT| == 5 && EVENT[0] != BOM;
  }

  lemma OneEventTells(o: Options, m: Machine)
    requires m == Initial(o)
    requires var (c1, _) := TakeLine(o, m.core, DATA);
             var (d, out) := TakeLine(o, c1, []);
             c1.failed.Some? || d.failed.Some? || out != []
    ensures var chunk := [BOM] + (DATA + ([LF] + [LF]));
            !SameOutcome(FeedAll(o, Blank(m), [chunk]), FeedAll(o, m, [chunk]))
  {
    var c := m.core;
    var start := Machine(true, false, [], c);
    var c1 := TakeLine(o, c, DATA).0;
    DataLine(o, c);
    MarkDropped(o, m, DATA + ([LF] + [LF]));
    MarkedLine(o, m, [LF]);
    RunDataLine(o, start, [LF]);
    RunBlankLine(o, start, []);
    if c1.failed.None? {
      RunBlankLine(o, Machine(true, false, [], c1), []);
      RunEnd(o, Machine(true, false, [], TakeLine(o, c1, []).0));
    }
    assert TakeLine(o, c, []) == (c, []);
    RunEnd(o, start);
    assert [LF] + [] == [LF];
    FeedOne(o, m, [BOM] + (DATA + ([LF] + [LF])));
    FeedOne(o, Blank(m), [BOM] + (DATA + ([LF] + [LF])));
  }

  lemma TwoEventsTell(o: Options, m: Machine)
    requires m == Initial(o)
    requires var (c1, _) := TakeLine(o, m.core, DATA);
             var (d, out) := TakeLine(o, c1, []);
             c1.failed.None? && d.failed.None? && out == [] && d.ended && d.current == NOTHING
    ensures var event := DATA + ([LF] + [LF]);
            var chunk := [BOM] + (event + event);
            !SameOutcome(FeedAll(o, Blank(m), [chunk]), FeedAll(o, m, [chunk]))
  {
    var c := m.core;
    var event := DATA + ([LF] + [LF]);
    var start := Machine(true, false, [], c);
    var c1 := TakeLine(o, c, DATA).0;
    var d := TakeLine(o, c1, []).0;
    DataLine(o, c);
    DataLine(o, d);
    assert TakeLine(o, c, []) == (c, []);
    hide TakeLine;
    assert event + event == DATA + ([LF] + ([LF] + event));
    MarkDropped(o, m, event + event);
    MarkedLine(o, m, [LF] + event);
    RunDataLine(o, start, [LF] + event);
    RunBlankLine(o, Machine(true, false, [], c1), event);
    RunDataLine(o, Machine(true, false, [], d), [LF]);
    LastLine(o, TakeLine(o, d, DATA).0);
    RunBlankLine(o, start, event);
    RunDataLine(o, start, [LF]);
    LastLine(o, c1);
    hide Run;
    FeedOne(o, m, [BOM] + (event + event));
    FeedOne(o, Blank(m), [BOM] + (event + event));
  }

  /** An empty chunk changes no message and no exception of any later feed exactly when something was fed before and no
      data is pending behind a carriage return. */
  lemma EmptyChunkHarmlessExactly(o: Options, m: Machine)
    requires Resting(o, m)
    ensures (forall rest | NonEmpty(rest) :: SameOutcome(FeedAll(o, m, [[]] + rest), FeedAll(o, m, rest)))
            <==> m.started && !(m.lastWasCr && m.core.current.data != [])
  {
    hide FeedAll;
    hide Resting;
    if m.started && !(m.lastWasCr && m.core.current.data != []) {
      forall rest | NonEmpty(rest)
        ensures SameOutcome(FeedAll(o, m, [[]] + rest), FeedAll(o, m, rest))
      {
        EmptyFirst(o, m, rest);
        HarmlessFirst(o, m, rest);
      }
    } else {
      var rest := EmptyTells(o, m);
      EmptyFirst(o, m, rest);
      assert NonEmpty(rest) && !SameOutcome(FeedAll(o, m, [[]] + rest), FeedAll(o, m, rest));
    }
  }

  lemma EmptyTells(o: Options, m: Machine) returns (rest: seq<JsString>)
    requires Resting(o, m) && (m.started ==> m.lastWasCr && m.core.current.data != [])
    ensures NonEmpty(rest) && !SameOutcome(FeedAll(o, Blank(m), rest), FeedAll(o, m, rest))
  {
    if m.started {
      rest := PendingTells(o, m);
    } else {
      rest := UnstartedTells(o, m);
    }
  }
}
