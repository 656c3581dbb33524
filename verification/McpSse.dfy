/** The writer and reader objects of src/mcpSse.ts, proved against the machine of `Sse` and the logs of
    `SseDelivery`. */
module McpSse {
  import opened Prelude
  import opened Glob
  import opened Sse
  import SseDelivery
  import SseHonest
  import opened SseLines
  import Json

  // ---------------------------------------------------------------------------
  // The reader
  // ---------------------------------------------------------------------------

  class SignedSseReader {
    const options: Options
    var buffer: JsString
    var started: bool
    var lastWasCr: bool
    var current: Pending
    var expectedSeq: nat
    var streamId: Option<string>
    var ended: bool
    var failed: Option<Failure>
    var events: nat

    constructor (options: Options)
      ensures this.options == options && State() == Initial(options) && Valid()
    {
      this.options := options;
      buffer, started, lastWasCr, current := [], false, false, NOTHING;
      expectedSeq, streamId, ended, failed, events := 0, options.expectStreamId, false, None, 0;
    }

    function Inner(): Core reads this { Core(current, expectedSeq, streamId, ended, failed, events) }

    function State(): Machine reads this { Machine(started, lastWasCr, buffer, Inner()) }

    /** Between feeds the buffer holds one partial line. */
    ghost predicate Valid() reads this {
      failed.None? ==> NoBreak(buffer) && (lastWasCr ==> buffer == []) && (!started ==> buffer == [] && !lastWasCr)
    }

    /** `feed`. */
    method Feed(chunk: JsString) returns (r: Result<seq<Verified>, Failure>)
      requires Valid()
      modifies this
      ensures Valid()
      ensures r == Sse.Feed(options, old(State()), chunk).1
      ensures Inner() == Sse.Feed(options, old(State()), chunk).0.core
      ensures r.Ok? ==> State() == Sse.Feed(options, old(State()), chunk).0
    {
      hide Run;
      hide Lines;
      hide NoBreak;
      hide After;
      if failed.Some? {
        return Err(failed.value);
      }
      hide Sse.Feed;
      ghost var m := State();
      var text := Strip(chunk);
      FeedByLines(options, m, chunk, text);
      buffer := buffer + text;
      var out := TakeLines();
      if failed.Some? {
        return Err(failed.value);
      }
      if |buffer| > options.maxEventBytes {
        failed := Some(EventTooLarge);
        return Err(EventTooLarge);
      }
      return Ok(out);
    }

    /** The start of `feed`: drops the byte order mark of the body and the line feed of a split CRLF. */
    method Strip(chunk: JsString) returns (text: JsString)
      requires Valid() && failed.None?
      modifies `started, `lastWasCr
      ensures text == if chunk != [] && ((!old(started) && chunk[0] == BOM) || (old(lastWasCr) && chunk[0] == LF)) then chunk[1..] else chunk
      ensures started && lastWasCr == After(text)
    {
      text := chunk;
      if !started {
        started := true;
        if text != [] && text[0] == BOM {
          text := text[1..];
        }
      }
      if lastWasCr && text != [] && text[0] == LF {
        text := text[1..];
      }
      lastWasCr := text != [] && text[|text| - 1] == CR;
    }

    /** The loop of `feed`: takes every complete line off the buffer, up to the first failure. */
    method TakeLines() returns (out: seq<Verified>)
      requires failed.None?
      modifies `buffer, `current, `expectedSeq, `streamId, `ended, `failed, `events
      ensures var (d, rest, more) := Lines(options, old(Inner()), old(buffer));
              Inner() == d && out == more && (failed.None? ==> buffer == rest)
    {
      hide TakeLine;
      ghost var start, whole := Inner(), buffer;
      out := [];
      assert [] + Lines(options, start, whole).2 == Lines(options, start, whole).2;
      while true
        invariant failed.None?
        invariant var (d, rest, more) := Lines(options, Inner(), buffer);
                  Lines(options, start, whole) == (d, rest, out + more)
        decreases |buffer|
      {
        var br := FirstBreak(buffer);
        if br.None? {
          assert out + [] == out;
          return;
        }
        var line := buffer[..br.value.0];
        ghost var c := Inner();
        buffer := buffer[br.value.0 + br.value.1..];
        var verified := TakeOne(line);
        if failed.Some? {
          out := out + verified;
          return;
        }
        ghost var more := Lines(options, Inner(), buffer).2;
        assert out + (verified + more) == (out + verified) + more;
        out := out + verified;
      }
    }

    method TakeOne(line: JsString) returns (verified: seq<Verified>)
      requires failed.None?
      modifies `current, `expectedSeq, `streamId, `ended, `failed, `events
      ensures TakeLine(options, old(Inner()), line) == (Inner(), verified)
    {
      hide TakeLine;
      hide Handle;
      var event := Line(line);
      if event.Err? || event.value.None? {
        return [];
      }
      var handled := HandleEvent(event.value.value);
      return if handled.Ok? then handled.value else [];
    }

    /** `line`: the data of the event a blank line completes, if any. */
    method Line(line: JsString) returns (r: Result<Option<JsString>, Failure>)
      requires failed.None?
      modifies `current, `failed
      ensures r.Err? ==> failed == Some(r.error) && TakeLine(options, old(Inner()), line) == (Inner(), [])
      ensures r.Ok? ==> failed.None?
      ensures r.Ok? && r.value.None? ==> TakeLine(options, old(Inner()), line) == (Inner(), [])
      ensures r.Ok? && r.value.Some? ==> TakeLine(options, old(Inner()), line) == Handle(options, Inner(), r.value.value)
    {
      hide Handle;
      if line == [] {
        var cur := current;
        current := NOTHING;
        return if cur.data == [] then Ok(None) else Ok(Some(JoinLines(cur.data)));
      }
      if line[0] == COLON {
        return Ok(None);
      }
      var field, value := line[..FirstColon(line)], FieldValue(line);
      if field == DATA {
        current := current.(size := current.size + |value| + 1);
        if current.size > options.maxEventBytes {
          failed := Some(EventTooLarge);
          return Err(EventTooLarge);
        }
        current := current.(data := current.data + [value]);
      } else if field == EVENT {
        current := current.(eventType := value);
      }
      return Ok(None);
    }

    method FailWith(f: Failure) returns (r: Result<seq<Verified>, Failure>)
      modifies `failed
      ensures failed == Some(f) && r == Err(f)
    {
      failed := Some(f);
      r := Err(f);
    }

    /** `handle`. */
    method HandleEvent(data: JsString) returns (r: Result<seq<Verified>, Failure>)
      requires failed.None?
      modifies `expectedSeq, `streamId, `ended, `failed, `events
      ensures Handle(options, old(Inner()), data) == (Inner(), if r.Ok? then r.value else [])
      ensures r.Err? ==> failed == Some(r.error)
      ensures r.Ok? ==> failed.None?
    {
      if ended {
        r := FailWith(EventAfterEnd);
        return;
      }
      events := events + 1;
      if events > options.maxEvents {
        r := FailWith(TooManyEvents);
        return;
      }
      var received := options.receive(events, data);
      if received.None? {
        r := FailWith(VerificationFailed);
        return;
      }
      var env := received.value;
      if env.sender != options.peerAgentId {
        r := FailWith(WrongSender);
        return;
      }
      if env.recipient != Some(options.selfAgentId) {
        r := FailWith(WrongRecipient);
        return;
      }
      if options.expectCorrelationId.Some? && env.correlationId != options.expectCorrelationId {
        r := FailWith(StreamMismatch);
        return;
      }
      if env.content.None? || !StreamShaped(env.content.value) {
        r := FailWith(MalformedEvent);
        return;
      }
      var payload := env.content.value;
      var stream, seqNo := Member(payload, "stream").value.s, Member(payload, "seq").value.n;
      if streamId.None? {
        streamId := Some(stream);
      } else if stream != streamId.value {
        r := FailWith(StreamMismatch);
        return;
      }
      if seqNo != Json.Safe(expectedSeq) {
        r := FailWith(SequenceError);
        return;
      }
      expectedSeq := expectedSeq + 1;
      if Member(payload, "end") == Some(Json.Bool(true)) {
        if Member(payload, "count") != Member(payload, "seq") {
          r := FailWith(CountMismatch);
          return;
        }
        ended := true;
        return Ok([]);
      }
      var msg := Member(payload, "message");
      if !JsonRpc(msg) {
        r := FailWith(MalformedEvent);
        return;
      }
      return Ok([Verified(expectedSeq - 1, msg.value)]);
    }

    /** `finish`: returns normally only after the signed end event. */
    method Finish() returns (thrown: Option<Failure>)
      ensures thrown.None? <==> SseDelivery.Finishes(State())
      ensures failed.Some? ==> thrown == failed
      ensures failed.None? && !ended ==> thrown == Some(StreamTruncated)
    {
      if failed.Some? {
        return failed;
      }
      return if ended then None else Some(StreamTruncated);
    }
  }

  // ---------------------------------------------------------------------------
  // The writer
  // ---------------------------------------------------------------------------

  /** `/^[A-Za-z0-9._:-]{1,128}$/` */
  predicate StreamIdOk(s: string) {
    1 <= |s| <= 128 && forall c | c in s ::
      'A' <= c <= 'Z' || 'a' <= c <= 'z' || '0' <= c <= '9' || c == '.' || c == '_' || c == ':' || c == '-'
  }

  lemma StreamIdExactly(s: string)
    ensures StreamIdOk(s) <==>
              0 < |s| < 129 && forall i | 0 <= i < |s| ::
                'A' <= s[i] <= 'Z' || 'a' <= s[i] <= 'z' || '0' <= s[i] <= '9' || s[i] in {'.', '_', ':', '-'}
  {
    assert forall i | 0 <= i < |s| :: s[i] in s;
  }

  /** `new SignedSseWriter`, or `None` where it throws. */
  method NewWriter(streamId: string) returns (writer: Option<SignedSseWriter>)
    ensures writer.Some? <==> StreamIdOk(streamId)
    ensures writer.Some? ==>
              fresh(writer.value) && writer.value.Valid() && writer.value.streamId == streamId && writer.value.log == []
  {
    if !StreamIdOk(streamId) {
      return None;
    }
    var created := new SignedSseWriter(streamId);
    return Some(created);
  }

  /** `log` is the history of events this writer has signed. */
  class SignedSseWriter {
    const streamId: string
    var seqNo: nat
    var ended: bool
    ghost var log: seq<SseDelivery.Written>

    constructor (streamId: string)
      ensures this.streamId == streamId && log == [] && Valid()
    {
      this.streamId := streamId;
      seqNo, ended, log := 0, false, [];
    }

    ghost predicate Valid() reads this {
      && SseDelivery.Sequential(log)
      && (forall i | 0 <= i < |log| :: log[i].seqNo < seqNo)
      && (ended <==> log != [] && log[|log| - 1].WroteEnd?)
    }

    /** `event`: the number is used up even when signing fails. `wire` is the signed envelope around
        `Content(streamId, w)`, or `None` where signing throws. */
    method Event(w: SseDelivery.Written, wire: Option<JsString>) returns (text: Option<JsString>)
      requires Valid() && !ended && w.seqNo == seqNo
      modifies `seqNo, `log
      ensures seqNo == old(seqNo) + 1
      ensures log == if wire.Some? then old(log) + [w] else old(log)
      ensures text == if wire.Some? then Some(SseHonest.EventText(w, wire.value)) else None
    {
      seqNo := seqNo + 1;
      if wire.None? {
        return None;
      }
      log := log + [w];
      return Some(SseHonest.EventText(w, wire.value));
    }

    /** `message`: the event's text, or `None` where it throws. */
    method Message(message: Json.Value, wire: Option<JsString>) returns (text: Option<JsString>)
      requires Valid()
      modifies this
      ensures Valid() && ended == old(ended)
      ensures var w := SseDelivery.WroteMessage(old(seqNo), message);
              if wire.Some? && !old(ended) then text == Some(SseHonest.EventText(w, wire.value)) && log == old(log) + [w]
              else text == None && log == old(log)
      ensures seqNo == if old(ended) then old(seqNo) else old(seqNo) + 1
    {
      if ended {
        return None;
      }
      text := Event(SseDelivery.WroteMessage(seqNo, message), wire);
    }

    /** `end`: nothing can be written after it succeeds. */
    method End(wire: Option<JsString>) returns (text: Option<JsString>)
      requires Valid()
      modifies this
      ensures Valid() && ended == (old(ended) || wire.Some?)
      ensures var w := SseDelivery.WroteEnd(old(seqNo));
              if wire.Some? && !old(ended) then text == Some(SseHonest.EventText(w, wire.value)) && log == old(log) + [w]
              else text == None && log == old(log)
      ensures seqNo == if old(ended) then old(seqNo) else old(seqNo) + 1
    {
      if ended {
        return None;
      }
      text := Event(SseDelivery.WroteEnd(seqNo), wire);
      if text.Some? {
        ended := true;
      }
    }
  }
}
