/** What a reader of a signed event stream may believe: under an adversary who drops, reorders, replays and
    splices events as it likes, the reader yields a prefix of what its peer wrote on the stream it is bound to. */
module SseDelivery {
  import opened Prelude
  import opened Glob
  import opened Sse
  import Json

  /** An event a writer signed. Sequence numbers of failed signings are missing from its log. */
  datatype Written = WroteMessage(seqNo: nat, message: Json.Value) | WroteEnd(seqNo: nat)

  function Content(stream: string, w: Written): Json.Value {
    var head: map<string, Json.Value> := map["stream" := Json.Str(stream), "seq" := Json.Num(Json.Safe(w.seqNo))];
    match w
    case WroteMessage(_, m) => Json.Obj(head["message" := m])
    case WroteEnd(n) => Json.Obj(head["end" := Json.Bool(true)]["count" := Json.Num(Json.Safe(n))])
  }

  /** Driven sequentially, a writer numbers its events upwards and writes nothing after its end event. */
  predicate Sequential(log: seq<Written>) {
    && (forall i, j | 0 <= i < j < |log| :: log[i].seqNo < log[j].seqNo)
    && (forall i | 0 <= i < |log| - 1 :: log[i].WroteMessage?)
  }

  lemma {:induction false} SeqAtLeast(log: seq<Written>, i: nat)
    requires Sequential(log) && i < |log|
    ensures log[i].seqNo >= i
  {
    if i > 0 {
      SeqAtLeast(log, i - 1);
    }
  }

  predicate Contains(log: seq<Written>, stream: string, p: Json.Value) {
    exists w | w in log :: p == Content(stream, w)
  }

  /** Signatures are unforgeable and each stream id has one writer: whatever the peer signed for this reader
      and that names a stream was written on that stream. */
  ghost predicate Genuine(o: Options, logs: map<string, seq<Written>>) {
    forall n, data ::
      var r := o.receive(n, data);
      r.Some? && r.value.sender == o.peerAgentId && r.value.recipient == Some(o.selfAgentId)
      && r.value.content.Some? && StreamShaped(r.value.content.value)
      ==> var s := Member(r.value.content.value, "stream").value.s;
          s in logs && Contains(logs[s], s, r.value.content.value)
  }

  predicate AllSequential(logs: map<string, seq<Written>>) { forall s | s in logs :: Sequential(logs[s]) }

  function Messages(log: seq<Written>): seq<Verified> {
    if log == [] then []
    else
      var w := log[|log| - 1];
      Messages(log[..|log| - 1]) + (if w.WroteMessage? then [Verified(w.seqNo, w.message)] else [])
  }

  lemma {:induction false} MessagesPrefix(log: seq<Written>, k: nat)
    requires k <= |log|
    ensures Messages(log[..k]) <= Messages(log)
  {
    if k < |log| {
      var init := log[..|log| - 1];
      assert init[..k] == log[..k];
      MessagesPrefix(init, k);
    } else {
      assert log[..k] == log;
    }
  }

  /** The first `k` events of the log were numbered 0 to k - 1. */
  predicate NumberedTo(log: seq<Written>, k: nat) {
    k <= |log| && forall i | 0 <= i < k :: log[i].seqNo == i
  }

  /** What a sound reader has handed out: exactly the messages of the first `expectedSeq` events of its stream. */
  predicate Delivered(logs: map<string, seq<Written>>, c: Core, out: seq<Verified>) {
    if c.expectedSeq == 0 then out == [] && !c.ended
    else
      && c.streamId.Some? && c.streamId.value in logs
      && var log := logs[c.streamId.value];
         && NumberedTo(log, c.expectedSeq)
         && out == Messages(log[..c.expectedSeq])
         && (c.ended <==> log[c.expectedSeq - 1].WroteEnd?)
  }

  /** The event accepted with number `k` is the k-th the writer wrote. */
  lemma EventIsNext(log: seq<Written>, stream: string, p: Json.Value, k: nat)
    requires Sequential(log) && NumberedTo(log, k) && Contains(log, stream, p)
    requires Member(p, "seq") == Some(Json.Num(Json.Safe(k)))
    ensures k < |log| && p == Content(stream, log[k]) && log[k].seqNo == k
  {
    var w :| w in log && p == Content(stream, w);
    var i :| 0 <= i < |log| && log[i] == w;
    assert w.seqNo == k;
    SeqAtLeast(log, i);
  }

  lemma ContentMembers(stream: string, w: Written)
    ensures var p := Content(stream, w);
            && StreamShaped(p) && Member(p, "stream") == Some(Json.Str(stream)) && Member(p, "seq") == Some(Json.Num(Json.Safe(w.seqNo)))
            && (Member(p, "end") == Some(Json.Bool(true)) <==> w.WroteEnd?)
            && (w.WroteEnd? ==> Member(p, "count") == Member(p, "seq"))
            && (w.WroteMessage? ==> Member(p, "message") == Some(w.message))
  {
  }

  lemma PayloadKeepsDelivered(logs: map<string, seq<Written>>, c: Core, p: Json.Value, out: seq<Verified>)
    requires AllSequential(logs) && Delivered(logs, c, out) && !c.ended && c.failed.None? && StreamShaped(p)
    requires var s := Member(p, "stream").value.s; s in logs && Contains(logs[s], s, p)
    ensures var (d, added) := HandlePayload(c, p);
            d.failed.None? ==> Delivered(logs, d, out + added)
  {
    var (d, added) := HandlePayload(c, p);
    var s, k := Member(p, "stream").value.s, c.expectedSeq;
    if d.failed.None? {
      var log := logs[s];
      assert d.streamId == Some(s) && d.expectedSeq == k + 1 && NumberedTo(log, k);
      EventIsNext(log, s, p, k);
      ContentMembers(s, log[k]);
      hide Content;
      hide Contains;
      assert out == Messages(log[..k]) by {
        assert k == 0 ==> log[..k] == [] && Messages(log[..k]) == [];
      }
      MessagesStep(log, k);
    }
  }

  lemma MessagesStep(log: seq<Written>, k: nat)
    requires k < |log|
    ensures Messages(log[..k + 1]) == Messages(log[..k]) + if log[k].WroteMessage? then [Verified(log[k].seqNo, log[k].message)] else []
  {
    assert log[..k + 1][..k] == log[..k];
  }

  lemma HandleKeepsDelivered(o: Options, logs: map<string, seq<Written>>, c: Core, data: JsString, out: seq<Verified>)
    requires AllSequential(logs) && Genuine(o, logs) && Delivered(logs, c, out) && c.failed.None?
    ensures var (d, added) := Handle(o, c, data);
            d.failed.None? ==> Delivered(logs, d, out + added)
  {
    var d := c.(events := c.events + 1);
    var r := o.receive(d.events, data);
    hide Delivered;
    hide HandlePayload;
    if !c.ended && r.Some? && r.value.content.Some? && StreamShaped(r.value.content.value) {
      if r.value.sender == o.peerAgentId && r.value.recipient == Some(o.selfAgentId) {
        assert Delivered(logs, d, out) by { SameDelivery(logs, c, d, out); }
        PayloadKeepsDelivered(logs, d, r.value.content.value, out);
      }
    }
  }

  lemma SameDelivery(logs: map<string, seq<Written>>, c: Core, d: Core, out: seq<Verified>)
    requires Delivered(logs, c, out) && d.expectedSeq == c.expectedSeq && d.streamId == c.streamId && d.ended == c.ended
    ensures Delivered(logs, d, out)
  {
  }

  lemma LineKeepsDelivered(o: Options, logs: map<string, seq<Written>>, c: Core, line: JsString, out: seq<Verified>)
    requires AllSequential(logs) && Genuine(o, logs) && Delivered(logs, c, out) && c.failed.None?
    ensures var (d, added) := TakeLine(o, c, line);
            d.failed.None? ==> Delivered(logs, d, out + added)
  {
    var (d, added) := TakeLine(o, c, line);
    if line == [] && c.current.data != [] {
      var e := c.(current := NOTHING);
      SameDelivery(logs, c, e, out);
      HandleKeepsDelivered(o, logs, e, JoinLines(c.current.data), out);
    } else {
      assert out + added == out;
      SameDelivery(logs, c, d, out);
    }
  }

  lemma {:induction false} RunKeepsDelivered(o: Options, logs: map<string, seq<Written>>, m: Machine, s: JsString, out: seq<Verified>)
    requires AllSequential(logs) && Genuine(o, logs) && Delivered(logs, m.core, out) && m.core.failed.None?
    ensures var (n, more) := Run(o, m, s);
            n.core.failed.None? ==> Delivered(logs, n.core, out + more)
    decreases |s|
  {
    hide Delivered;
    hide Genuine;
    hide TakeLine;
    if s == [] {
      assert out + [] == out;
    } else {
      var (m1, out1) := Step(o, m, s[0]);
      LineKeepsDelivered(o, logs, m.core, m.buffer, out);
      assert out + [] == out;
      if m1.core.failed.None? {
        RunKeepsDelivered(o, logs, m1, s[1..], out + out1);
        assert (out + out1) + Run(o, m1, s[1..]).1 == out + (out1 + Run(o, m1, s[1..]).1);
      } else {
        FailureStays(o, m1, s[1..]);
      }
    }
  }

  lemma FeedKeepsDelivered(o: Options, logs: map<string, seq<Written>>, m: Machine, chunk: JsString, out: seq<Verified>)
    requires AllSequential(logs) && Genuine(o, logs) && Delivered(logs, m.core, out) && m.core.failed.None?
    ensures var (n, r) := Feed(o, m, chunk);
            r.Ok? ==> n.core.failed.None? && Delivered(logs, n.core, out + r.value)
    ensures Feed(o, m, chunk).0.core.streamId == m.core.streamId || m.core.streamId.None?
  {
    hide Delivered;
    hide Genuine;
    RunKeepsDelivered(o, logs, m, chunk, out);
    assert out + [] == out;
    if m.core.streamId.Some? {
      RunKeepsStream(o, m, chunk);
    }
  }

  lemma {:induction false} RunKeepsStream(o: Options, m: Machine, s: JsString)
    requires m.core.streamId.Some?
    ensures Run(o, m, s).0.core.streamId == m.core.streamId
    decreases |s|
  {
    if s != [] && m.core.failed.None? {
      StepKeepsStream(o, m, s[0]);
      RunKeepsStream(o, Step(o, m, s[0]).0, s[1..]);
    }
  }

  lemma StepKeepsStream(o: Options, m: Machine, u: CodeUnit)
    requires m.core.streamId.Some?
    ensures Step(o, m, u).0.core.streamId == m.core.streamId
  {
  }

  /** A bound reader has yielded a prefix of its writer's messages. */
  predicate Prefix(logs: map<string, seq<Written>>, m: Machine, yielded: seq<Verified>) {
    yielded != [] ==>
      && m.core.streamId.Some? && m.core.streamId.value in logs
      && yielded <= Messages(logs[m.core.streamId.value])
  }

  lemma DeliveredIsPrefix(logs: map<string, seq<Written>>, m: Machine, out: seq<Verified>)
    requires Delivered(logs, m.core, out)
    ensures Prefix(logs, m, out)
  {
    if m.core.expectedSeq > 0 {
      MessagesPrefix(logs[m.core.streamId.value], m.core.expectedSeq);
    }
  }

  /** `finish` returns normally. */
  predicate Finishes(m: Machine) { m.core.failed.None? && m.core.ended }

  lemma {:induction false} SessionDelivers(o: Options, logs: map<string, seq<Written>>, m: Machine, chunks: seq<JsString>, out: seq<Verified>)
    requires AllSequential(logs) && Genuine(o, logs) && Delivered(logs, m.core, out) && m.core.failed.None?
    ensures var s := FeedAll(o, m, chunks);
            && Prefix(logs, s.machine, out + s.yielded)
            && (s.thrown.None? ==> s.machine.core.failed.None? && Delivered(logs, s.machine.core, out + s.yielded))
            && (s.thrown.Some? ==> s.machine.core.failed.Some?)
    decreases |chunks|
  {
    hide Delivered;
    hide Genuine;
    if chunks == [] {
      assert out + [] == out;
      DeliveredIsPrefix(logs, m, out);
    } else {
      FeedKeepsDelivered(o, logs, m, chunks[0], out);
      var (n, r) := Feed(o, m, chunks[0]);
      hide Feed;
      match r
      case Err(f) =>
        assert out + [] == out;
        DeliveredIsPrefix(logs, m, out);
        FeedThrows(o, m, chunks[0]);
      case Ok(added) =>
        SessionDelivers(o, logs, n, chunks[1..], out + added);
        var rest := FeedAll(o, n, chunks[1..]).yielded;
        assert (out + added) + rest == out + (added + rest);
    }
  }

  lemma FeedThrows(o: Options, m: Machine, chunk: JsString)
    ensures Feed(o, m, chunk).1.Err? ==> Feed(o, m, chunk).0.core.failed == Some(Feed(o, m, chunk).1.error)
  {
  }

  /** Whatever text the adversary feeds, in whatever chunks, the messages yielded are a prefix of what the
      writer of the bound stream wrote; if `finish` then returns, they are all of them and the writer ended. */
  lemma YieldsPrefixOfStream(o: Options, logs: map<string, seq<Written>>, chunks: seq<JsString>)
    requires AllSequential(logs) && Genuine(o, logs)
    ensures var s := FeedAll(o, Initial(o), chunks);
            && Prefix(logs, s.machine, s.yielded)
            && (Finishes(s.machine) ==>
                  && s.machine.core.streamId.Some? && s.machine.core.streamId.value in logs
                  && var log := logs[s.machine.core.streamId.value];
                     && log != [] && log[|log| - 1].WroteEnd? && s.yielded == Messages(log))
    ensures o.expectStreamId.Some? ==> FeedAll(o, Initial(o), chunks).machine.core.streamId == o.expectStreamId
  {
    SessionDelivers(o, logs, Initial(o), chunks, []);
    var s := FeedAll(o, Initial(o), chunks);
    assert [] + s.yielded == s.yielded;
    if Finishes(s.machine) {
      var log, k := logs[s.machine.core.streamId.value], s.machine.core.expectedSeq;
      assert k == |log| && log[..k] == log;
    }
    if o.expectStreamId.Some? {
      SessionKeepsStream(o, Initial(o), chunks);
    }
  }

  lemma {:induction false} SessionKeepsStream(o: Options, m: Machine, chunks: seq<JsString>)
    requires m.core.streamId.Some?
    ensures FeedAll(o, m, chunks).machine.core.streamId == m.core.streamId
    decreases |chunks|
  {
    if chunks != [] {
      RunKeepsStream(o, m, chunks[0]);
      var n := Feed(o, m, chunks[0]).0;
      assert n.core.streamId == m.core.streamId;
      hide Feed;
      SessionKeepsStream(o, n, chunks[1..]);
    }
  }
}
