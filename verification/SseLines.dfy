/** The reader's buffer: taking complete lines off it does what taking its code units one at a time does. */
module SseLines {
  import opened Prelude
  import opened Glob
  import opened Sse

  // ---------------------------------------------------------------------------
  // Lines of a buffer
  // ---------------------------------------------------------------------------

  predicate IsBreak(u: CodeUnit) { u == LF || u == CR }

  predicate NoBreak(s: JsString) { forall u | u in s :: !IsBreak(u) }

  /** The first match of the source's line-end expression: where it is and how long it is. */
  function FirstBreak(s: JsString): (r: Option<(nat, nat)>)
    ensures r.Some? ==> r.value.0 + r.value.1 <= |s| && r.value.1 > 0
  {
    if s == [] then None
    else if s[0] == CR then Some((0, if |s| > 1 && s[1] == LF then 2 else 1))
    else if s[0] == LF then Some((0, 1))
    else
      match FirstBreak(s[1..])
      case None => None
      case Some((i, n)) => Some((i + 1, n))
  }

  lemma {:induction false} FirstBreakAfter(b: JsString, s: JsString)
    requires NoBreak(b)
    ensures FirstBreak(b + s) == match FirstBreak(s) { case None => None case Some((i, n)) => Some((|b| + i, n)) }
  {
    if b == [] {
      assert b + s == s;
    } else {
      assert b[0] in b && forall u | u in b[1..] :: u in b;
      assert (b + s)[1..] == b[1..] + s;
      FirstBreakAfter(b[1..], s);
    }
  }

  /** All complete lines of a buffer, taken in order: the core they leave, the partial line, the messages. */
  function Lines(o: Options, c: Core, buf: JsString): (Core, JsString, seq<Verified>)
    decreases |buf|
  {
    match FirstBreak(buf)
    case None => (c, buf, [])
    case Some((i, n)) =>
      var (d, out) := TakeLine(o, c, buf[..i]);
      if d.failed.Some? then (d, buf[i + n..], out)
      else
        var (e, rest, more) := Lines(o, d, buf[i + n..]);
        (e, rest, out + more)
  }

  function After(s: JsString): bool { s != [] && s[|s| - 1] == CR }

  /** Splitting a buffer into lines does what taking its units one at a time does. */
  lemma {:induction false} LinesAreRun(o: Options, c: Core, b: JsString, s: JsString)
    requires NoBreak(b) && c.failed.None?
    ensures var (n, out) := Run(o, Machine(true, false, b, c), s);
            var (d, rest, more) := Lines(o, c, b + s);
            && n.core == d && out == more
            && (d.failed.None? ==> n == Machine(true, After(s), rest, d) && NoBreak(rest) && (After(s) ==> rest == []))
    decreases |s|
  {
    hide TakeLine;
    hide Run;
    hide Lines;
    hide Step;
    var m := Machine(true, false, b, c);
    if s == [] {
      NoMoreUnits(o, m);
    } else if !IsBreak(s[0]) {
      OrdinaryUnit(o, m, s);
      assert (b + [s[0]]) + s[1..] == b + s;
      LinesAreRun(o, c, b + [s[0]], s[1..]);
    } else {
      var k := FirstBreak(s).value.1;
      LinesStep(o, c, b, s, k);
      var (d, out) := TakeLine(o, c, b);
      if d.failed.Some? {
        FailsAtBreak(o, m, s);
      } else {
        LinesAreRun(o, d, [], s[k..]);
        assert [] + s[k..] == s[k..];
        AfterBreak(o, m, s, k);
        if s[k..] == [] {
          NoMoreUnits(o, Machine(true, false, [], d));
          assert out + [] == out;
        }
      }
    }
  }

  lemma NoMoreUnits(o: Options, m: Machine)
    requires NoBreak(m.buffer)
    ensures Run(o, m, []) == (m, []) && Lines(o, m.core, m.buffer + []) == (m.core, m.buffer, [])
    ensures Lines(o, m.core, m.buffer) == (m.core, m.buffer, [])
  {
    FirstBreakAfter(m.buffer, []);
    assert m.buffer + [] == m.buffer;
  }

  lemma OrdinaryUnit(o: Options, m: Machine, s: JsString)
    requires m.started && !m.lastWasCr && m.core.failed.None? && s != [] && !IsBreak(s[0])
    ensures Run(o, m, s) == Run(o, m.(buffer := m.buffer + [s[0]]), s[1..])
  {
    hide TakeLine;
    var n := m.(buffer := m.buffer + [s[0]]);
    assert Step(o, m, s[0]) == (n, []);
    assert [] + Run(o, n, s[1..]).1 == Run(o, n, s[1..]).1;
  }

  lemma LinesStep(o: Options, c: Core, b: JsString, s: JsString, k: nat)
    requires NoBreak(b) && FirstBreak(s) == Some((0, k))
    ensures var (d, out) := TakeLine(o, c, b);
            var (e, rest, more) := Lines(o, d, s[k..]);
            Lines(o, c, b + s) == if d.failed.Some? then (d, s[k..], out) else (e, rest, out + more)
  {
    hide TakeLine;
    hide FirstBreak;
    FirstBreakAfter(b, s);
    assert (b + s)[..|b|] == b && (b + s)[|b| + k..] == s[k..];
  }

  lemma FailsAtBreak(o: Options, m: Machine, s: JsString)
    requires m.started && !m.lastWasCr && m.core.failed.None? && s != [] && IsBreak(s[0])
    requires TakeLine(o, m.core, m.buffer).0.failed.Some?
    ensures var (d, out) := TakeLine(o, m.core, m.buffer);
            Run(o, m, s).0.core == d && Run(o, m, s).1 == out
  {
    hide TakeLine;
    var (m1, out) := Step(o, m, s[0]);
    FailureStays(o, m1, s[1..]);
    assert out + [] == out;
  }

  lemma AfterBreak(o: Options, m: Machine, s: JsString, k: nat)
    requires m.started && !m.lastWasCr && m.core.failed.None? && s != [] && IsBreak(s[0]) && FirstBreak(s) == Some((0, k))
    requires TakeLine(o, m.core, m.buffer).0.failed.None?
    ensures var (d, out) := TakeLine(o, m.core, m.buffer);
            var (n, more) := Run(o, Machine(true, false, [], d), s[k..]);
            Run(o, m, s) == if s[k..] == [] then (Machine(true, After(s), [], d), out) else (n, out + more)
  {
    hide TakeLine;
    var (d, out) := TakeLine(o, m.core, m.buffer);
    var m1 := Machine(true, s[0] == CR, [], d);
    assert Step(o, m, s[0]) == (m1, out);
    var blank := Machine(true, false, [], d);
    if k == 2 {
      assert Step(o, m1, s[1]) == (blank, []);
      assert s[1..][1..] == s[2..] && s[1..][0] == s[1];
      assert Run(o, m1, s[1..]) == (Run(o, blank, s[2..]).0, [] + Run(o, blank, s[2..]).1);
      assert [] + Run(o, blank, s[2..]).1 == Run(o, blank, s[2..]).1;
    } else if s[1..] != [] {
      assert Step(o, m1, s[1..][0]) == Step(o, blank, s[1..][0]);
    } else {
      assert Run(o, m1, s[1..]) == (m1, []) && out + [] == out;
    }
  }

  /** Dropping a leading byte order mark or the second half of a CRLF first changes nothing. */
  lemma StripFront(o: Options, m: Machine, chunk: JsString, text: JsString)
    requires m.core.failed.None? && (m.lastWasCr ==> m.buffer == []) && (!m.started ==> m.buffer == [] && !m.lastWasCr)
    requires text == if chunk != [] && ((!m.started && chunk[0] == BOM) || (m.lastWasCr && chunk[0] == LF)) then chunk[1..] else chunk
    ensures chunk != [] ==> Run(o, m, chunk) == Run(o, Machine(true, false, m.buffer, m.core), text)
    ensures chunk == [] ==> text == [] && Blank(m) == Run(o, Machine(true, false, m.buffer, m.core), text).0
  {
    hide TakeLine;
    if chunk != [] {
      var n := Machine(true, false, m.buffer, m.core);
      if text == chunk {
        assert Step(o, m, chunk[0]) == Step(o, n, chunk[0]);
      } else {
        assert Step(o, m, chunk[0]) == (n, []);
        assert [] + Run(o, n, text).1 == Run(o, n, text).1;
      }
    }
  }

  /** A feed in terms of lines: what is kept of the chunk joins the buffer, and its complete lines are taken. */
  lemma FeedByLines(o: Options, m: Machine, chunk: JsString, text: JsString)
    requires NoBreak(m.buffer)
    requires m.core.failed.None? && (m.lastWasCr ==> m.buffer == []) && (!m.started ==> m.buffer == [] && !m.lastWasCr)
    requires text == if chunk != [] && ((!m.started && chunk[0] == BOM) || (m.lastWasCr && chunk[0] == LF)) then chunk[1..] else chunk
    ensures var (d, rest, out) := Lines(o, m.core, m.buffer + text);
            if d.failed.Some? then Feed(o, m, chunk).0.core == d && Feed(o, m, chunk).1 == Err(d.failed.value)
            else
              && Feed(o, m, chunk) == AfterChunk(o, Machine(true, After(text), rest, d), out)
              && NoBreak(rest) && (After(text) ==> rest == [])
  {
    hide TakeLine;
    hide Run;
    hide Lines;
    StripFront(o, m, chunk, text);
    LinesAreRun(o, m.core, m.buffer, text);
    if chunk == [] {
      NoMoreUnits(o, m);
    }
  }

  // ---------------------------------------------------------------------------
  // How long lines get
  // ---------------------------------------------------------------------------

  /** The length of the longest line of `s`, the last one without a line end included, when `b` units of the first
      line have been read before. */
  function Longest(b: nat, s: JsString): nat
    decreases |s|
  {
    if s == [] then b
    else if IsBreak(s[0]) then
      var rest := Longest(0, s[1..]);
      if b > rest then b else rest
    else Longest(b + 1, s[1..])
  }

  lemma {:induction false} LongestAtLeast(b: nat, s: JsString)
    ensures Longest(b, s) >= b
    decreases |s|
  {
    if s != [] && !IsBreak(s[0]) {
      LongestAtLeast(b + 1, s[1..]);
    }
  }

  /** A line and its end first. */
  lemma {:induction false} LongestLine(b: nat, line: JsString, rest: JsString)
    requires NoBreak(line)
    ensures Longest(b, line + [LF] + rest) == if b + |line| > Longest(0, rest) then b + |line| else Longest(0, rest)
    decreases |line|
  {
    var s := line + [LF] + rest;
    if line == [] {
      assert s[0] == LF && s[1..] == rest;
    } else {
      assert line[0] in line && forall u | u in line[1..] :: u in line;
      assert s[0] == line[0] && s[1..] == line[1..] + [LF] + rest;
      LongestLine(b + 1, line[1..], rest);
    }
  }

  lemma LinesFitStep(o: Options, m: Machine, s: JsString)
    requires m.core.failed.None? && s != []
    ensures LinesFit(o, m, s) <==> |m.buffer| <= o.maxEventBytes && LinesFit(o, Step(o, m, s[0]).0, s[1..])
  {
    hide Step;
    var n := Step(o, m, s[0]).0;
    forall k | 0 <= k < |s|
      ensures Run(o, m, s[..k + 1]).0 == Run(o, n, s[1..][..k]).0
    {
      assert s[..k + 1][0] == s[0] && s[..k + 1][1..] == s[1..][..k];
    }
    assert s[..0] == [] && Run(o, m, s[..0]).0 == m;
    if LinesFit(o, m, s) {
      forall k | 0 <= k <= |s[1..]|
        ensures |Run(o, n, s[1..][..k]).0.buffer| <= o.maxEventBytes
      {
        assert |Run(o, m, s[..k + 1]).0.buffer| <= o.maxEventBytes;
      }
      assert |Run(o, m, s[..0]).0.buffer| <= o.maxEventBytes;
    }
    if |m.buffer| <= o.maxEventBytes && LinesFit(o, n, s[1..]) {
      forall k | 0 <= k <= |s|
        ensures |Run(o, m, s[..k]).0.buffer| <= o.maxEventBytes
      {
        if k > 0 {
          assert |Run(o, n, s[1..][..k - 1]).0.buffer| <= o.maxEventBytes;
          assert Run(o, m, s[..(k - 1) + 1]).0 == Run(o, n, s[1..][..k - 1]).0;
        }
      }
    }
  }

  /** When no event fails, no line read is too long exactly when no line of the text is. */
  lemma {:induction false} LinesFitExactly(o: Options, m: Machine, s: JsString)
    requires m.core.failed.None? && Run(o, m, s).0.core.failed.None? && (m.lastWasCr ==> m.buffer == [])
    requires !m.started ==> !m.lastWasCr && (s == [] || s[0] != BOM)
    ensures LinesFit(o, m, s) <==> Longest(|m.buffer|, s) <= o.maxEventBytes
    decreases |s|
  {
    hide TakeLine;
    if s == [] {
      assert s[..0] == [];
      assert Run(o, m, s[..0]).0 == m;
    } else {
      var n := Step(o, m, s[0]).0;
      if n.core.failed.Some? {
        FailureStays(o, n, s[1..]);
      }
      LinesFitStep(o, m, s);
      hide LinesFit;
      LinesFitExactly(o, n, s[1..]);
      LongestAtLeast(|m.buffer|, s);
    }
  }

  // ---------------------------------------------------------------------------
  // Which splits agree
  // ---------------------------------------------------------------------------

  /** A split of `s` into non-empty chunks. */
  predicate Splits(chunks: seq<JsString>, s: JsString) { Flatten(chunks) == s && forall c | c in chunks :: c != [] }

  /** When no event fails, all splits into non-empty chunks yield the same messages and leave the same reader as the
      body taken unit by unit exactly when no line, with its share of the buffer, is longer than the limit. */
  lemma SplitsAgreeExactly(o: Options, m: Machine, s: JsString)
    requires m.core.failed.None? && Run(o, m, s).0.core.failed.None? && |m.buffer| <= o.maxEventBytes
    requires (m.lastWasCr ==> m.buffer == []) && (!m.started ==> !m.lastWasCr && (s == [] || s[0] != BOM))
    ensures (forall chunks | Splits(chunks, s) :: FeedAll(o, m, chunks) == Session(Run(o, m, s).0, Run(o, m, s).1, None))
            <==> Longest(|m.buffer|, s) <= o.maxEventBytes
  {
    hide Run;
    hide FeedAll;
    hide LinesFit;
    hide Longest;
    LinesFitExactly(o, m, s);
    if LinesFit(o, m, s) {
      forall chunks | Splits(chunks, s)
        ensures FeedAll(o, m, chunks) == Session(Run(o, m, s).0, Run(o, m, s).1, None)
      {
        ChunkingIrrelevant(o, m, chunks);
      }
    } else {
      var chunks := LongLineSplit(o, m, s);
      assert Splits(chunks, s) && FeedAll(o, m, chunks).thrown == Some(EventTooLarge);
    }
  }

  /** A split inside a line that is too long makes `feed` throw. */
  lemma LongLineSplit(o: Options, m: Machine, s: JsString) returns (chunks: seq<JsString>)
    requires m.core.failed.None? && Run(o, m, s).0.core.failed.None? && |m.buffer| <= o.maxEventBytes && !LinesFit(o, m, s)
    ensures Splits(chunks, s) && FeedAll(o, m, chunks).thrown == Some(EventTooLarge)
  {
    var k :| 0 <= k <= |s| && |Run(o, m, s[..k]).0.buffer| > o.maxEventBytes;
    assert s[..0] == [] && Run(o, m, s[..0]).0 == m;
    hide LinesFit;
    var head, tail := s[..k], s[k..];
    assert s == head + tail;
    RunAppend(o, m, head, tail);
    if Run(o, m, head).0.core.failed.Some? {
      FailureStays(o, Run(o, m, head).0, tail);
    }
    FeedTooLong(o, m, head);
    hide Run;
    hide Feed;
    chunks := if tail == [] then [head] else [head, tail];
    assert chunks[0] == head && chunks != [];
    assert FeedAll(o, m, chunks).thrown == Some(EventTooLarge);
    SplitInTwo(head, tail);
  }

  lemma FeedTooLong(o: Options, m: Machine, chunk: JsString)
    requires m.core.failed.None? && chunk != []
    requires Run(o, m, chunk).0.core.failed.None? && |Run(o, m, chunk).0.buffer| > o.maxEventBytes
    ensures Feed(o, m, chunk).1 == Err(EventTooLarge)
  {
    hide Run;
  }

  lemma SplitInTwo(head: JsString, tail: JsString)
    requires head != []
    ensures Splits(if tail == [] then [head] else [head, tail], head + tail)
  {
    assert [head][1..] == [] && [head, tail][1..] == [tail] && [tail][1..] == [];
    assert Flatten([tail]) == tail + [] == tail;
    assert head + [] == head;
  }
}
