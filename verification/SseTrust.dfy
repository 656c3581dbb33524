/** Who vouches for what a reader of a signed event stream yields (src/mcpSse.ts), said of the events received and
    without the reader's own checks. */
module SseTrust {
  import opened Prelude
  import opened Glob
  import opened Sse
  import SseDelivery
  import Json

  /** The n-th event came from the peer to this reader, answers what it should, and carries the object `p` with
      number `k` on the stream. */
  predicate Vouched(o: Options, n: nat, data: JsString, stream: string, k: nat, p: Json.Value) {
    match o.receive(n, data)
    case None => false
    case Some(env) =>
      && n <= o.maxEvents
      && env.sender == o.peerAgentId
      && env.recipient == Some(o.selfAgentId)
      && (o.expectCorrelationId.Some? ==> env.correlationId == o.expectCorrelationId)
      && env.content == Some(p)
      && Has(p, "stream", Json.Str(stream)) && Has(p, "seq", Json.Num(Json.Safe(k)))
  }

  predicate Has(p: Json.Value, key: string, v: Json.Value) { p.Obj? && key in p.members && p.members[key] == v }

  predicate CarriesMessage(p: Json.Value, m: Json.Value) {
    !Has(p, "end", Json.Bool(true)) && Has(p, "message", m) && Has(m, "jsonrpc", Json.Str("2.0"))
  }

  predicate CarriesEnd(p: Json.Value, k: nat) {
    Has(p, "end", Json.Bool(true)) && Has(p, "count", Json.Num(Json.Safe(k)))
  }

  predicate InPlace(o: Options, k: nat, data: JsString, stream: string, p: Json.Value) { Vouched(o, k + 1, data, stream, k, p) }

  /** Some event number k + 1 that the peer signed carries the message as number k. */
  ghost predicate MessageBacked(o: Options, stream: string, k: nat, m: Json.Value) {
    exists data, p :: InPlace(o, k, data, stream, p) && CarriesMessage(p, m)
  }

  ghost predicate EndBacked(o: Options, stream: string, k: nat) {
    exists data, p :: InPlace(o, k, data, stream, p) && CarriesEnd(p, k)
  }

  // ---------------------------------------------------------------------------
  // One event
  // ---------------------------------------------------------------------------

  /** The event is vouched for as the one the reader waits for. */
  predicate Awaited(o: Options, c: Core, data: JsString, stream: string, p: Json.Value) {
    (c.streamId.Some? ==> stream == c.streamId.value) && Vouched(o, c.events + 1, data, stream, c.expectedSeq, p)
  }

  /** A reader accepts an event exactly when the stream has not ended and the event is vouched for as the next one. */
  lemma AcceptsExactly(o: Options, c: Core, data: JsString)
    requires c.failed.None?
    ensures Handle(o, c, data).0.failed.None? <==>
              !c.ended && exists stream, p :: Awaited(o, c, data, stream, p) && (CarriesEnd(p, c.expectedSeq) || CarriesMessage(p, MessageIn(p)))
  {
    var d := Handle(o, c, data).0;
    if !c.ended && exists stream, p :: Awaited(o, c, data, stream, p) && (CarriesEnd(p, c.expectedSeq) || CarriesMessage(p, MessageIn(p))) {
      var stream, p :| Awaited(o, c, data, stream, p) && (CarriesEnd(p, c.expectedSeq) || CarriesMessage(p, MessageIn(p)));
      assert StreamShaped(p);
      assert d.failed.None?;
    }
    if d.failed.None? {
      AcceptedEffect(o, c, data);
      var stream, p :| Awaited(o, c, data, stream, p) && (CarriesEnd(p, c.expectedSeq) || CarriesMessage(p, MessageIn(p)));
    }
  }

  function MessageIn(p: Json.Value): Json.Value { if p.Obj? && "message" in p.members then p.members["message"] else Json.Null }

  /** What accepting an event does. */
  lemma AcceptedEffect(o: Options, c: Core, data: JsString)
    requires c.failed.None? && Handle(o, c, data).0.failed.None?
    ensures var (d, out) := Handle(o, c, data);
            !c.ended && exists stream, p ::
              && Awaited(o, c, data, stream, p)
              && d == Core(c.current, c.expectedSeq + 1, Some(stream), Has(p, "end", Json.Bool(true)), None, c.events + 1)
              && (if d.ended then CarriesEnd(p, c.expectedSeq) && out == []
                  else CarriesMessage(p, MessageIn(p)) && out == [Verified(c.expectedSeq, MessageIn(p))])
  {
    var p := o.receive(c.events + 1, data).value.content.value;
    var stream := p.members["stream"].s;
    assert Awaited(o, c, data, stream, p);
  }

  /** An object that names a stream and a number. */
  predicate Placed(p: Json.Value) { Has(p, "stream", Json.Str(TextIn(p, "stream"))) && Has(p, "seq", Json.Num(NumberIn(p, "seq"))) }

  /** ... with an end or a message. */
  predicate Carries(p: Json.Value) {
    Placed(p) && (Has(p, "end", Json.Bool(true)) || CarriesMessage(p, MessageIn(p)))
  }

  /** What each reason says of the event refused. */
  predicate Violates(o: Options, c: Core, data: JsString, f: Failure) {
    var n, r := c.events + 1, o.receive(c.events + 1, data);
    match f
    case EventAfterEnd => c.ended
    case TooManyEvents => n > o.maxEvents
    case VerificationFailed => r == None
    case WrongSender => r.Some? && r.value.sender != o.peerAgentId
    case WrongRecipient => r.Some? && r.value.recipient != Some(o.selfAgentId)
    case MalformedEvent =>
      r.Some? && (r.value.content.Some? ==> !Carries(r.value.content.value))
    case StreamMismatch =>
      r.Some? && ((o.expectCorrelationId.Some? && r.value.correlationId != o.expectCorrelationId)
                  || (c.streamId.Some? && r.value.content.Some? && !Has(r.value.content.value, "stream", Json.Str(c.streamId.value))))
    case SequenceError => r.Some? && r.value.content.Some? && !Has(r.value.content.value, "seq", Json.Num(Json.Safe(c.expectedSeq)))
    case CountMismatch =>
      r.Some? && r.value.content.Some? && Has(r.value.content.value, "end", Json.Bool(true))
      && !Has(r.value.content.value, "count", Json.Num(Json.Safe(c.expectedSeq)))
    case _ => false
  }

  function TextIn(p: Json.Value, key: string): string {
    if p.Obj? && key in p.members && p.members[key].Str? then p.members[key].s else ""
  }

  function NumberIn(p: Json.Value, key: string): Json.Number {
    if p.Obj? && key in p.members && p.members[key].Num? then p.members[key].n else Json.Safe(0)
  }

  /** Where in the order of checks a reason comes up: the request answered before the content, the stream after its shape,
      the message last. */
  function Rank(o: Options, c: Core, data: JsString, f: Failure): nat {
    var r := o.receive(c.events + 1, data);
    match f
    case EventAfterEnd => 0
    case TooManyEvents => 1
    case VerificationFailed => 2
    case WrongSender => 3
    case WrongRecipient => 4
    case StreamMismatch => if o.expectCorrelationId.Some? && r.Some? && r.value.correlationId != o.expectCorrelationId then 5 else 7
    case MalformedEvent => if r.Some? && r.value.content.Some? && Placed(r.value.content.value) then 10 else 6
    case SequenceError => 8
    case CountMismatch => 9
    case _ => 11
  }

  /** An event is refused for the first thing that is wrong with it. */
  lemma RefusalIsFirst(o: Options, c: Core, data: JsString)
    requires c.failed.None?
    ensures var (d, out) := Handle(o, c, data);
            d.failed.Some? ==>
              && out == [] && Violates(o, c, data, d.failed.value)
              && forall g | Rank(o, c, data, g) < Rank(o, c, data, d.failed.value) :: !Violates(o, c, data, g)
  {
    RefusalIsTrue(o, c, data);
    hide Handle;
    hide Violates;
    hide Rank;
    forall g
      ensures Handle(o, c, data).0.failed.Some? && Rank(o, c, data, g) < Rank(o, c, data, Handle(o, c, data).0.failed.value)
              ==> !Violates(o, c, data, g)
    {
      NothingEarlier(o, c, data, g);
    }
  }

  lemma RefusalIsTrue(o: Options, c: Core, data: JsString)
    requires c.failed.None?
    ensures var (d, out) := Handle(o, c, data);
            d.failed.Some? ==> out == [] && Violates(o, c, data, d.failed.value)
  {
  }

  lemma NothingEarlier(o: Options, c: Core, data: JsString, g: Failure)
    requires c.failed.None?
    ensures var d := Handle(o, c, data).0;
            d.failed.Some? && Rank(o, c, data, g) < Rank(o, c, data, d.failed.value) ==> !Violates(o, c, data, g)
  {
  }

  // ---------------------------------------------------------------------------
  // Every run
  // ---------------------------------------------------------------------------

  /** Messages 0, 1, 2, ... of one stream, each carried by the event of its number. */
  ghost predicate Backed(o: Options, streamId: Option<string>, out: seq<Verified>) {
    && (out != [] ==> streamId.Some?)
    && (o.expectStreamId.Some? ==> streamId == o.expectStreamId)
    && forall i | 0 <= i < |out| :: out[i].seqNo == i && MessageBacked(o, streamId.value, i, out[i].message)
  }

  ghost predicate Sound(o: Options, c: Core, out: seq<Verified>) {
    && Backed(o, c.streamId, out)
    && c.events == c.expectedSeq == |out| + (if c.ended then 1 else 0)
    && (c.expectedSeq > 0 ==> c.streamId.Some?)
    && (c.ended ==> EndBacked(o, c.streamId.value, |out|))
  }

  lemma HandleKeepsSound(o: Options, c: Core, data: JsString, out: seq<Verified>)
    requires Sound(o, c, out) && c.failed.None?
    ensures var (d, added) := Handle(o, c, data);
            d.failed.None? ==> Sound(o, d, out + added)
  {
    var (d, added) := Handle(o, c, data);
    if d.failed.None? {
      AcceptedEffect(o, c, data);
      hide Handle;
      hide Vouched;
      hide CarriesMessage;
      hide CarriesEnd;
      var k := c.expectedSeq;
      var stream, p :|
        && Awaited(o, c, data, stream, p)
        && d == Core(c.current, k + 1, Some(stream), Has(p, "end", Json.Bool(true)), None, k + 1)
        && (if d.ended then CarriesEnd(p, k) && added == [] else CarriesMessage(p, MessageIn(p)) && added == [Verified(k, MessageIn(p))]);
      assert InPlace(o, k, data, stream, p);
      if d.ended {
        assert out + added == out;
      } else {
        assert MessageBacked(o, stream, k, MessageIn(p));
      }
    }
  }

  lemma LineKeepsSound(o: Options, c: Core, line: JsString, out: seq<Verified>)
    requires Sound(o, c, out) && c.failed.None?
    ensures var (d, added) := TakeLine(o, c, line);
            d.failed.None? ==> Sound(o, d, out + added)
  {
    hide Backed;
    hide Handle;
    hide EndBacked;
    var (d, added) := TakeLine(o, c, line);
    if line == [] && c.current.data != [] {
      HandleKeepsSound(o, c.(current := NOTHING), JoinLines(c.current.data), out);
    } else {
      assert out + added == out;
    }
  }

  lemma {:induction false} RunKeepsSound(o: Options, m: Machine, s: JsString, out: seq<Verified>)
    requires Sound(o, m.core, out) && m.core.failed.None?
    ensures var (n, more) := Run(o, m, s);
            n.core.failed.None? ==> Sound(o, n.core, out + more)
    decreases |s|
  {
    hide Sound;
    hide TakeLine;
    if s == [] {
      assert out + [] == out;
    } else {
      var (m1, out1) := Step(o, m, s[0]);
      LineKeepsSound(o, m.core, m.buffer, out);
      assert out + [] == out;
      if m1.core.failed.None? {
        RunKeepsSound(o, m1, s[1..], out + out1);
        assert (out + out1) + Run(o, m1, s[1..]).1 == out + (out1 + Run(o, m1, s[1..]).1);
      } else {
        FailureStays(o, m1, s[1..]);
      }
    }
  }

  lemma FeedKeepsSound(o: Options, m: Machine, chunk: JsString, out: seq<Verified>)
    requires Sound(o, m.core, out) && m.core.failed.None?
    ensures var (n, r) := Feed(o, m, chunk);
            if r.Ok? then n.core.failed.None? && Sound(o, n.core, out + r.value)
            else n.core.failed.Some? && Backed(o, n.core.streamId, out)
  {
    hide Backed;
    hide EndBacked;
    RunKeepsSound(o, m, chunk, out);
    assert out + [] == out;
    FailedKeepsBacked(o, m, chunk, out);
  }

  lemma {:induction false} FailedKeepsBacked(o: Options, m: Machine, s: JsString, out: seq<Verified>)
    requires Backed(o, m.core.streamId, out)
    ensures Backed(o, Run(o, m, s).0.core.streamId, out)
    decreases |s|
  {
    if m.core.streamId.Some? {
      SseDelivery.RunKeepsStream(o, m, s);
    }
    hide Run;
    hide MessageBacked;
  }

  lemma {:induction false} SessionIsSound(o: Options, m: Machine, chunks: seq<JsString>, out: seq<Verified>)
    requires Sound(o, m.core, out) && m.core.failed.None?
    ensures var s := FeedAll(o, m, chunks);
            && Backed(o, s.machine.core.streamId, out + s.yielded)
            && (s.thrown.None? ==> s.machine.core.failed.None? && Sound(o, s.machine.core, out + s.yielded))
            && (s.thrown.Some? ==> s.machine.core.failed.Some?)
    decreases |chunks|
  {
    hide Backed;
    hide EndBacked;
    if chunks == [] {
      assert out + [] == out;
    } else {
      FeedKeepsSound(o, m, chunks[0], out);
      var (n, r) := Feed(o, m, chunks[0]);
      hide Feed;
      match r
      case Err(f) =>
        assert out + [] == out;
      case Ok(added) =>
        SessionIsSound(o, n, chunks[1..], out + added);
        var rest := FeedAll(o, n, chunks[1..]).yielded;
        assert (out + added) + rest == out + (added + rest);
    }
  }

  /** Whatever text is fed, in whatever chunks: the messages yielded are numbered from 0 and lie on one stream, the
      expected one if there is one, and message k is carried by an event number k + 1, at most `maxEvents`, that the
      peer signed for this reader in answer to the expected request. If `finish` returns, the peer also signed an
      end that counts them all. */
  lemma YieldedIsVouched(o: Options, chunks: seq<JsString>)
    ensures var s := FeedAll(o, Initial(o), chunks);
            && Backed(o, s.machine.core.streamId, s.yielded)
            && (SseDelivery.Finishes(s.machine) ==>
                  s.machine.core.streamId.Some? && EndBacked(o, s.machine.core.streamId.value, |s.yielded|))
  {
    hide MessageBacked;
    hide EndBacked;
    SessionIsSound(o, Initial(o), chunks, []);
    assert [] + FeedAll(o, Initial(o), chunks).yielded == FeedAll(o, Initial(o), chunks).yielded;
    hide FeedAll;
  }
}
