/** An honest stream gets through: a reader fed the text a writer produced, keep-alives included, yields every
    message, and finishes once the end event is in. */
module SseHonest {
  import opened Prelude
  import opened Glob
  import opened Sse
  import opened SseDelivery
  import opened SseLines
  import Text

  /** ASCII text as code units. */
  function Units(s: string): JsString {
    seq(|s|, i requires 0 <= i < |s| => (s[i] as int % 0x1_0000) as CodeUnit)
  }

  const ID: JsString := [0x69, 0x64]

  function Field(name: JsString, value: JsString): JsString { name + [COLON] + ([SPACE] + value) }

  function Kind(w: Written): JsString { Units(if w.WroteMessage? then "message" else "end") }

  /** The text of one event. */
  function EventText(w: Written, wire: JsString): JsString {
    Field(ID, Units(Text.NatText(w.seqNo))) + [LF] + (Field(EVENT, Kind(w)) + [LF] + (Field(DATA, wire) + [LF] + ([] + [LF] + [])))
  }

  /** The text as it goes over the wire. */
  lemma EventFormat(w: Written, wire: JsString)
    ensures EventText(w, wire)
            == Units("id: " + Text.NatText(w.seqNo) + "\nevent: " + (if w.WroteMessage? then "message" else "end") + "\ndata: ") + wire + [LF, LF]
  {
    var kind := if w.WroteMessage? then "message" else "end";
    FieldNames();
    UnitsFive("id: ", Text.NatText(w.seqNo), "\nevent: ", kind, "\ndata: ");
    hide Units;
    var id, k := Units(Text.NatText(w.seqNo)), Kind(w);
    Pieced(ID, id, k, wire);
  }

  lemma Pieced(idName: JsString, id: JsString, kind: JsString, wire: JsString)
    ensures Field(idName, id) + [LF] + (Field(EVENT, kind) + [LF] + (Field(DATA, wire) + [LF] + ([] + [LF] + [])))
            == idName + [COLON, SPACE] + id + ([LF] + EVENT + [COLON, SPACE]) + kind + ([LF] + DATA + [COLON, SPACE]) + wire + [LF, LF]
  {
  }

  lemma UnitsFive(a: string, b: string, c: string, d: string, e: string)
    ensures Units(a + b + c + d + e) == Units(a) + Units(b) + Units(c) + Units(d) + Units(e)
  {
    hide Units;
    UnitsJoin(a, b);
    UnitsJoin(a + b, c);
    UnitsJoin(a + b + c, d);
    UnitsJoin(a + b + c + d, e);
  }

  lemma UnitsJoin(s: string, t: string)
    ensures Units(s + t) == Units(s) + Units(t)
  {
  }

  lemma FieldNames()
    ensures Units("id: ") == ID + [COLON, SPACE] && Units("\nevent: ") == [LF] + EVENT + [COLON, SPACE]
    ensures Units("\ndata: ") == [LF] + DATA + [COLON, SPACE]
  {
  }

  const COMMENT: JsString := [COLON] + Units(" keep-alive")
  const KEEP_ALIVE: JsString := COMMENT + [LF] + ([] + [LF] + [])

  datatype Piece = Event(w: Written, wire: JsString) | KeepAlive

  function TextOf(ps: seq<Piece>): JsString {
    if ps == [] then []
    else (match ps[0] { case Event(w, wire) => EventText(w, wire) case KeepAlive => KEEP_ALIVE }) + TextOf(ps[1..])
  }

  /** The events among the pieces. */
  function LogOf(ps: seq<Piece>): seq<Written> {
    if ps == [] then [] else (if ps[0].Event? then [ps[0].w] else []) + LogOf(ps[1..])
  }

  lemma UnitsOneLine(s: string)
    requires forall c | c in s :: c != '\n' && c != '\r' && c < 128 as char
    ensures NoBreak(Units(s))
  {
    forall u | u in Units(s)
      ensures !IsBreak(u)
    {
      var i :| 0 <= i < |s| && Units(s)[i] == u;
      assert s[i] in s;
    }
  }

  // ---------------------------------------------------------------------------
  // One line
  // ---------------------------------------------------------------------------

  /** A line and its line feed are taken off the front of the buffer. */
  lemma TakesLine(o: Options, c: Core, line: JsString, rest: JsString)
    requires NoBreak(line)
    ensures var (d, out) := TakeLine(o, c, line);
            var (e, end, more) := Lines(o, d, rest);
            Lines(o, c, line + [LF] + rest) == if d.failed.Some? then (d, rest, out) else (e, end, out + more)
  {
    hide TakeLine;
    assert line + [LF] + rest == line + ([LF] + rest);
    assert ([LF] + rest)[0] == LF && ([LF] + rest)[1..] == rest;
    LinesStep(o, c, line, [LF] + rest, 1);
  }

  /** A field line is split at its colon, and one space after it is dropped. */
  lemma FieldSplits(name: JsString, value: JsString)
    requires COLON !in name && name != []
    ensures var line := Field(name, value);
            && line != [] && line[0] != COLON && line[..FirstColon(line)] == name && FieldValue(line) == value
  {
    var line := Field(name, value);
    ColonAfter(name, [SPACE] + value);
    assert line[0] == name[0] && name[0] in name;
    assert line[..|name|] == name && line[|name| + 1..] == [SPACE] + value;
    assert ([SPACE] + value)[1..] == value;
  }

  lemma FieldOneLine(name: JsString, value: JsString)
    requires NoBreak(name) && NoBreak(value)
    ensures NoBreak(Field(name, value))
  {
  }

  lemma DataLine(o: Options, c: Core, wire: JsString)
    requires c.current.data == [] && c.current.size + |wire| + 1 <= o.maxEventBytes
    ensures TakeLine(o, c, Field(DATA, wire))
            == (c.(current := Pending([wire], c.current.eventType, c.current.size + |wire| + 1)), [])
  {
    FieldSplits(DATA, wire);
    hide FieldValue;
    hide FirstColon;
    assert [] + [wire] == [wire];
  }

  lemma EventLine(o: Options, c: Core, kind: JsString)
    ensures TakeLine(o, c, Field(EVENT, kind)) == (c.(current := c.current.(eventType := kind)), [])
  {
    FieldSplits(EVENT, kind);
    hide FieldValue;
    hide FirstColon;
    assert EVENT[0] != DATA[0];
  }

  lemma IdLine(o: Options, c: Core, id: JsString)
    ensures TakeLine(o, c, Field(ID, id)) == (c, [])
  {
    FieldSplits(ID, id);
    hide FieldValue;
    hide FirstColon;
    assert |ID| != |DATA| && |ID| != |EVENT|;
  }

  // ---------------------------------------------------------------------------
  // One event
  // ---------------------------------------------------------------------------

  /** Between events. */
  predicate Idle(c: Core) { c.failed.None? && c.current == NOTHING }

  lemma KindOneLine(w: Written)
    ensures NoBreak(Kind(w)) && NoBreak(Units(Text.NatText(w.seqNo)))
  {
    UnitsOneLine(if w.WroteMessage? then "message" else "end");
    UnitsOneLine(Text.NatText(w.seqNo));
  }

  /** The text of one event hands its data, and nothing else, to `Handle`. */
  lemma EventHandled(o: Options, c: Core, w: Written, wire: JsString, rest: JsString)
    requires Idle(c) && NoBreak(wire) && |wire| + 1 <= o.maxEventBytes
    ensures var (d, out) := Handle(o, c, wire);
            var (e, end, more) := Lines(o, d, rest);
            d.failed.None? ==> Lines(o, c, EventText(w, wire) + rest) == (e, end, out + more)
  {
    hide TakeLine;
    hide Handle;
    hide Lines;
    var id, kind, data := Field(ID, Units(Text.NatText(w.seqNo))), Field(EVENT, Kind(w)), Field(DATA, wire);
    KindOneLine(w);
    hide Units;
    FieldOneLine(ID, Units(Text.NatText(w.seqNo)));
    FieldOneLine(EVENT, Kind(w));
    FieldOneLine(DATA, wire);
    FourLines(id, kind, data, rest);
    var c1 := c.(current := c.current.(eventType := Kind(w)));
    var c2 := c1.(current := Pending([wire], Kind(w), |wire| + 1));
    IdLine(o, c, Units(Text.NatText(w.seqNo)));
    TakesLine(o, c, id, kind + [LF] + (data + [LF] + ([] + [LF] + rest)));
    EventLine(o, c, Kind(w));
    TakesLine(o, c, kind, data + [LF] + ([] + [LF] + rest));
    DataLine(o, c1, wire);
    TakesLine(o, c1, data, [] + [LF] + rest);
    BlankLine(o, c2, wire);
    assert c2.(current := NOTHING) == c;
    TakesLine(o, c2, [], rest);
    var (d, out) := Handle(o, c, wire);
    NothingFirst(Lines(o, c2, [] + [LF] + rest).2);
    NothingFirst(Lines(o, c1, data + [LF] + ([] + [LF] + rest)).2);
    NothingFirst(Lines(o, c, kind + [LF] + (data + [LF] + ([] + [LF] + rest))).2);
  }

  lemma NothingFirst(out: seq<Verified>)
    ensures [] + out == out
  {
  }

  lemma BlankLine(o: Options, c: Core, wire: JsString)
    requires c.current.data == [wire]
    ensures TakeLine(o, c, []) == Handle(o, c.(current := NOTHING), wire)
  {
    hide Handle;
    assert JoinLines([wire]) == wire;
  }

  lemma FourLines(id: JsString, kind: JsString, data: JsString, rest: JsString)
    ensures id + [LF] + (kind + [LF] + (data + [LF] + ([] + [LF] + []))) + rest
            == id + [LF] + (kind + [LF] + (data + [LF] + ([] + [LF] + rest)))
  {
  }

  lemma KeepAliveIgnored(o: Options, c: Core, rest: JsString)
    requires Idle(c)
    ensures Lines(o, c, KEEP_ALIVE + rest) == Lines(o, c, rest)
  {
    hide TakeLine;
    hide Lines;
    var line := [COLON] + Units(" keep-alive");
    UnitsOneLine(" keep-alive");
    assert NoBreak(line);
    assert KEEP_ALIVE + rest == line + [LF] + ([] + [LF] + rest);
    assert line[0] == COLON;
    CommentLine(o, c, line);
    IdleBlank(o, c);
    TakesLine(o, c, line, [] + [LF] + rest);
    TakesLine(o, c, [], rest);
    NothingFirst(Lines(o, c, rest).2);
    NothingFirst(Lines(o, c, [] + [LF] + rest).2);
  }

  lemma CommentLine(o: Options, c: Core, line: JsString)
    requires line != [] && line[0] == COLON
    ensures TakeLine(o, c, line) == (c, [])
  {
  }

  lemma IdleBlank(o: Options, c: Core)
    requires Idle(c)
    ensures TakeLine(o, c, []) == (c, [])
  {
    assert c.(current := NOTHING) == c;
  }

  // ---------------------------------------------------------------------------
  // The whole stream
  // ---------------------------------------------------------------------------

  /** The n-th event verifies as an envelope from the peer, to this reader, about the writer's content. */
  predicate Accepts(o: Options, stream: string, n: nat, w: Written, wire: JsString) {
    && NoBreak(wire) && |wire| + 1 <= o.maxEventBytes && n <= o.maxEvents
    && (w.WroteMessage? ==> JsonRpc(Some(w.message)))
    && var r := o.receive(n, wire);
       r.Some? && r.value.sender == o.peerAgentId && r.value.recipient == Some(o.selfAgentId)
       && (o.expectCorrelationId.Some? ==> r.value.correlationId == o.expectCorrelationId)
       && r.value.content == Some(Content(stream, w))
  }

  /** From event `n` on, numbers follow on, nothing follows the end event, and every event is accepted. */
  predicate Honest(o: Options, stream: string, n: nat, ps: seq<Piece>)
    decreases |ps|
  {
    ps == []
    || (match ps[0]
        case KeepAlive => Honest(o, stream, n, ps[1..])
        case Event(w, wire) =>
          && w.seqNo == n && Accepts(o, stream, n + 1, w, wire) && (w.WroteEnd? ==> LogOf(ps[1..]) == [])
          && Honest(o, stream, n + 1, ps[1..]))
  }

  /** The reader after `n` accepted events of the stream. */
  predicate Ready(c: Core, stream: string, n: nat) {
    Idle(c) && c.expectedSeq == n && c.events == n && (c.streamId == Some(stream) || (n == 0 && c.streamId == None))
  }

  lemma HandleHonest(o: Options, stream: string, c: Core, n: nat, w: Written, wire: JsString)
    requires Ready(c, stream, n) && !c.ended && w.seqNo == n && Accepts(o, stream, n + 1, w, wire)
    ensures var (d, out) := Handle(o, c, wire);
            && Ready(d, stream, n + 1) && (d.ended <==> w.WroteEnd?)
            && out == if w.WroteMessage? then [Verified(n, w.message)] else []
  {
    ContentMembers(stream, w);
    hide Content;
  }

  lemma {:induction false} PiecesDelivered(o: Options, stream: string, c: Core, n: nat, ps: seq<Piece>)
    requires Ready(c, stream, n) && Honest(o, stream, n, ps) && (c.ended ==> LogOf(ps) == [])
    ensures var (d, rest, out) := Lines(o, c, TextOf(ps));
            && d.failed.None? && rest == [] && out == Messages(LogOf(ps))
            && (d.ended <==> c.ended || exists w | w in LogOf(ps) :: w.WroteEnd?)
    decreases |ps|
  {
    hide Lines;
    hide Handle;
    hide EventText;
    hide Accepts;
    if ps == [] {
      NothingLeft(o, c);
    } else {
      var tail := TextOf(ps[1..]);
      match ps[0]
      case KeepAlive =>
        KeepAliveIgnored(o, c, tail);
        PiecesDelivered(o, stream, c, n, ps[1..]);
        assert [] + LogOf(ps[1..]) == LogOf(ps[1..]);
      case Event(w, wire) =>
        assert !c.ended by { assert LogOf(ps) == [w] + LogOf(ps[1..]); }
        HandleHonest(o, stream, c, n, w, wire);
        EventFits(o, stream, n + 1, w, wire);
        EventHandled(o, c, w, wire, tail);
        PiecesDelivered(o, stream, Handle(o, c, wire).0, n + 1, ps[1..]);
        FirstWritten(w, LogOf(ps[1..]));
    }
  }

  lemma {:induction false} FirstMessage(w: Written, rest: seq<Written>)
    ensures Messages([w] + rest) == (if w.WroteMessage? then [Verified(w.seqNo, w.message)] else []) + Messages(rest)
    decreases |rest|
  {
    var log := [w] + rest;
    if rest == [] {
      assert log[..0] == [] && log == [w];
    } else {
      assert log[..|log| - 1] == [w] + rest[..|rest| - 1];
      FirstMessage(w, rest[..|rest| - 1]);
    }
  }

  lemma FirstWritten(w: Written, rest: seq<Written>)
    ensures Messages([w] + rest) == (if w.WroteMessage? then [Verified(w.seqNo, w.message)] else []) + Messages(rest)
    ensures (exists x | x in [w] + rest :: x.WroteEnd?) <==> w.WroteEnd? || exists x | x in rest :: x.WroteEnd?
  {
    hide Messages;
    FirstMessage(w, rest);
    assert w in [w] + rest && forall x | x in rest :: x in [w] + rest;
  }

  lemma EventFits(o: Options, stream: string, n: nat, w: Written, wire: JsString)
    requires Accepts(o, stream, n, w, wire)
    ensures NoBreak(wire) && |wire| + 1 <= o.maxEventBytes
  {
  }

  lemma NothingLeft(o: Options, c: Core)
    ensures Lines(o, c, []) == (c, [], [])
  {
  }

  /** A reader that takes the text of an honest stream unit by unit yields exactly the messages written, in order, and
      may finish exactly when the writer ended. */
  lemma HonestStreamDelivered(o: Options, stream: string, ps: seq<Piece>)
    requires o.expectStreamId.None? || o.expectStreamId == Some(stream)
    requires Honest(o, stream, 0, ps)
    ensures var (m, out) := Run(o, Initial(o), TextOf(ps));
            && m.core.failed.None? && out == Messages(LogOf(ps)) && m.buffer == []
            && (Finishes(m) <==> exists w | w in LogOf(ps) :: w.WroteEnd?)
  {
    hide Lines;
    hide Run;
    hide Honest;
    hide Messages;
    var m := Initial(o);
    var s := TextOf(ps);
    PiecesDelivered(o, stream, m.core, 0, ps);
    StartsPlain(ps);
    StripFront(o, m, s, s);
    LinesAreRun(o, m.core, [], s);
    assert [] + s == s;
    if s == [] {
      RunNothing(o, m);
      RunNothing(o, Machine(true, false, [], m.core));
    }
  }

  lemma RunNothing(o: Options, m: Machine)
    ensures Run(o, m, []) == (m, [])
  {
  }

  lemma StartsPlain(ps: seq<Piece>)
    ensures TextOf(ps) != [] ==> TextOf(ps)[0] != BOM
  {
    if ps != [] {
      hide TextOf;
      FirstUnit(ps);
    }
  }

  lemma FirstUnit(ps: seq<Piece>)
    requires ps != []
    ensures TextOf(ps) != [] && (TextOf(ps)[0] == 0x69 || TextOf(ps)[0] == COLON)
  {
    match ps[0]
    case Event(w, wire) => assert TextOf(ps)[0] == EventText(w, wire)[0] == ID[0];
    case KeepAlive => assert TextOf(ps)[0] == KEEP_ALIVE[0] == COLON;
  }

  // ---------------------------------------------------------------------------
  // Every way to cut it into chunks
  // ---------------------------------------------------------------------------

  function LinesOf(p: Piece): seq<JsString> {
    match p
    case Event(w, wire) => [Field(ID, Units(Text.NatText(w.seqNo))), Field(EVENT, Kind(w)), Field(DATA, wire)]
    case KeepAlive => [COMMENT]
  }

  /** Every line of the piece, field name included, is within the reader's limit. */
  predicate PieceFits(p: Piece, limit: nat) { forall line | line in LinesOf(p) :: |line| <= limit }

  predicate OneLiner(p: Piece) { p.Event? ==> NoBreak(p.wire) }

  function Larger(a: nat, b: nat): nat { if a > b then a else b }

  lemma KeepAliveFirst(rest: JsString, limit: nat)
    ensures Longest(0, KEEP_ALIVE + rest) <= limit <==> PieceFits(KeepAlive, limit) && Longest(0, rest) <= limit
  {
    hide Longest;
    UnitsOneLine(" keep-alive");
    LongestLine(0, [], rest);
    LongestLine(0, COMMENT, [] + [LF] + rest);
    assert KEEP_ALIVE + rest == COMMENT + [LF] + ([] + [LF] + rest);
    assert COMMENT in LinesOf(KeepAlive);
  }

  lemma EventFirst(w: Written, wire: JsString, rest: JsString, limit: nat)
    requires NoBreak(wire)
    ensures Longest(0, EventText(w, wire) + rest) <= limit <==> PieceFits(Event(w, wire), limit) && Longest(0, rest) <= limit
  {
    hide Longest;
    var id, kind, data := Field(ID, Units(Text.NatText(w.seqNo))), Field(EVENT, Kind(w)), Field(DATA, wire);
    KindOneLine(w);
    hide Units;
    hide Kind;
    FieldOneLine(ID, Units(Text.NatText(w.seqNo)));
    FieldOneLine(EVENT, Kind(w));
    FieldOneLine(DATA, wire);
    hide Field;
    hide NoBreak;
    FourLines(id, kind, data, rest);
    ThreeLines(id, kind, data, rest);
    assert LinesOf(Event(w, wire)) == [id, kind, data];
    assert id in [id, kind, data] && kind in [id, kind, data] && data in [id, kind, data];
  }

  lemma ThreeLines(id: JsString, kind: JsString, data: JsString, rest: JsString)
    requires NoBreak(id) && NoBreak(kind) && NoBreak(data)
    ensures Longest(0, id + [LF] + (kind + [LF] + (data + [LF] + ([] + [LF] + rest))))
            == Larger(|id|, Larger(|kind|, Larger(|data|, Longest(0, rest))))
  {
    hide Longest;
    LongestLine(0, [], rest);
    LongestLine(0, data, [] + [LF] + rest);
    LongestLine(0, kind, data + [LF] + ([] + [LF] + rest));
    LongestLine(0, id, kind + [LF] + (data + [LF] + ([] + [LF] + rest)));
  }

  lemma NothingLong()
    ensures Longest(0, []) == 0
  {
  }

  lemma {:induction false} TextFits(ps: seq<Piece>, limit: nat)
    requires forall p | p in ps :: OneLiner(p)
    ensures Longest(0, TextOf(ps)) <= limit <==> forall p | p in ps :: PieceFits(p, limit)
  {
    hide PieceFits;
    hide EventText;
    hide Longest;
    if ps == [] {
      NothingLong();
    } else {
      TextFits(ps[1..], limit);
      assert OneLiner(ps[0]);
      match ps[0] {
        case Event(w, wire) => EventFirst(w, wire, TextOf(ps[1..]), limit);
        case KeepAlive => KeepAliveFirst(TextOf(ps[1..]), limit);
      }
      assert forall p | p in ps[1..] :: p in ps;
    }
  }

  lemma {:induction false} HonestOneLiners(o: Options, stream: string, n: nat, ps: seq<Piece>)
    requires Honest(o, stream, n, ps)
    ensures forall p | p in ps :: OneLiner(p)
    decreases |ps|
  {
    if ps != [] {
      HonestOneLiners(o, stream, if ps[0].Event? then n + 1 else n, ps[1..]);
    }
  }

  /** The feeds do not throw, yield exactly the messages written, in order, and allow `finish` exactly when the
      writer ended. */
  predicate Delivers(o: Options, chunks: seq<JsString>, ps: seq<Piece>) {
    var r := FeedAll(o, Initial(o), chunks);
    r.thrown.None? && r.yielded == Messages(LogOf(ps)) && (Finishes(r.machine) <==> exists w | w in LogOf(ps) :: w.WroteEnd?)
  }

  /** An honest stream is delivered whatever its split into non-empty chunks exactly when every line of it, field name
      included, is within `maxEventBytes`. */
  lemma HonestSplitsExactly(o: Options, stream: string, ps: seq<Piece>)
    requires o.expectStreamId.None? || o.expectStreamId == Some(stream)
    requires Honest(o, stream, 0, ps)
    ensures (forall chunks | Splits(chunks, TextOf(ps)) :: Delivers(o, chunks, ps))
            <==> (forall p | p in ps :: PieceFits(p, o.maxEventBytes))
  {
    hide Run;
    hide FeedAll;
    hide Longest;
    hide PieceFits;
    hide LinesFit;
    var m, s := Initial(o), TextOf(ps);
    HonestStreamDelivered(o, stream, ps);
    HonestOneLiners(o, stream, 0, ps);
    TextFits(ps, o.maxEventBytes);
    StartsPlain(ps);
    hide TextOf;
    hide Honest;
    SplitsAgreeExactly(o, m, s);
    LinesFitExactly(o, m, s);
    if LinesFit(o, m, s) {
      forall chunks | Splits(chunks, s)
        ensures Delivers(o, chunks, ps)
      {
        assert FeedAll(o, m, chunks) == Session(Run(o, m, s).0, Run(o, m, s).1, None);
      }
    } else {
      var chunks := LongLineSplit(o, m, s);
      assert Splits(chunks, s) && !Delivers(o, chunks, ps);
    }
  }

  /** An event whose data is within the limit but whose data line is not: fed whole it is delivered; cut before the
      line feed of that line, it makes `feed` throw. */
  lemma LongDataLine(o: Options, stream: string, w: Written, wire: JsString)
    requires o.expectStreamId.None? || o.expectStreamId == Some(stream)
    requires Honest(o, stream, 0, [Event(w, wire)]) && |wire| + 6 > o.maxEventBytes
    ensures var ps := [Event(w, wire)];
            var s := TextOf(ps);
            var cut := [s[..|s| - 2], s[|s| - 2..]];
            && Delivers(o, [s], ps)
            && Splits(cut, s) && FeedAll(o, Initial(o), cut).thrown == Some(EventTooLarge)
  {
    var ps := [Event(w, wire)];
    var m, s := Initial(o), TextOf(ps);
    HonestStreamDelivered(o, stream, ps);
    FirstUnit(ps);
    FedWhole(o, m, s);
    HonestOneLiners(o, stream, 0, ps);
    assert OneLiner(ps[0]);
    CutEvent(w, wire);
    var head := s[..|s| - 2];
    assert s == head + [LF, LF] && s[|s| - 2..] == [LF, LF];
    CutBuffer(o, m, w, wire, head);
    hide Honest;
    hide Run;
    hide Feed;
    hide TextOf;
    SplitInTwo(head, [LF, LF]);
    assert [head, [LF, LF]][0] == head;
  }

  lemma FedWhole(o: Options, m: Machine, s: JsString)
    requires s != [] && m.core.failed.None? && Run(o, m, s).0.core.failed.None? && Run(o, m, s).0.buffer == []
    ensures FeedAll(o, m, [s]) == Session(Run(o, m, s).0, Run(o, m, s).1, None)
  {
    hide Run;
    assert [s][1..] == [] && FeedAll(o, Run(o, m, s).0, []) == Session(Run(o, m, s).0, [], None);
    assert Run(o, m, s).1 + [] == Run(o, m, s).1;
  }

  function BeforeEnd(w: Written, wire: JsString): JsString {
    Field(ID, Units(Text.NatText(w.seqNo))) + [LF] + (Field(EVENT, Kind(w)) + [LF] + Field(DATA, wire))
  }

  lemma CutEvent(w: Written, wire: JsString)
    ensures var s := TextOf([Event(w, wire)]);
            |s| >= 2 && s == BeforeEnd(w, wire) + [LF, LF] && s[..|s| - 2] == BeforeEnd(w, wire)
  {
    var ps := [Event(w, wire)];
    assert ps[1..] == [] && TextOf(ps) == EventText(w, wire) + [];
    var id, kind, data := Field(ID, Units(Text.NatText(w.seqNo))), Field(EVENT, Kind(w)), Field(DATA, wire);
    hide Field;
    hide Units;
    assert id + [LF] + (kind + [LF] + (data + [LF] + ([] + [LF] + []))) + [] == id + [LF] + (kind + [LF] + data) + [LF, LF];
  }

  /** Cut there, the whole data line is in the buffer. */
  lemma CutBuffer(o: Options, m: Machine, w: Written, wire: JsString, head: JsString)
    requires m == Initial(o) && NoBreak(wire) && head == BeforeEnd(w, wire) && |wire| + 6 > o.maxEventBytes
    ensures head != [] && Feed(o, m, head).1 == Err(EventTooLarge)
  {
    var id, kind, data := Field(ID, Units(Text.NatText(w.seqNo))), Field(EVENT, Kind(w)), Field(DATA, wire);
    assert |data| == |wire| + 6 && head[0] == ID[0];
    KindOneLine(w);
    FieldOneLine(ID, Units(Text.NatText(w.seqNo)));
    FieldOneLine(EVENT, Kind(w));
    FieldOneLine(DATA, wire);
    hide Units;
    hide Lines;
    hide TakeLine;
    hide Run;
    var c := m.core;
    IdLine(o, c, Units(Text.NatText(w.seqNo)));
    TakesLine(o, c, id, kind + [LF] + data);
    EventLine(o, c, Kind(w));
    var d := c.(current := c.current.(eventType := Kind(w)));
    TakesLine(o, c, kind, data);
    NoMoreUnits(o, Machine(true, false, data, d));
    hide Field;
    assert Lines(o, c, head).1 == data && Lines(o, c, head).0 == d;
    StripFront(o, m, head, head);
    LinesAreRun(o, c, [], head);
    assert [] + head == head;
    FeedTooLong(o, m, head);
  }
}
