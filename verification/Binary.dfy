/** The binary envelope format (src/protocolBinary.ts) as functions: the frame of an envelope, how a frame is
    read, and exactly which envelopes come back. `ProtocolBinary.dfy` has the writer and reader objects. */
module Binary {
  import opened Prelude
  import opened Bytes
  import E = Envelope
  import Utf8

  const MAGIC: seq<byte> := [0x41, 0x49, 0x50, 0x42]
  const FORMAT_VERSION: byte := 1
  const MAX_FRAME_BYTES: nat := 1_048_576

  // ---------------------------------------------------------------------------
  // Writing
  // ---------------------------------------------------------------------------

  /** `undefined` and the empty string are both left out. */
  predicate Truthy(o: Option<string>) { o.Some? && o.value != "" }

  function Flags(e: E.Envelope): (f: nat)
    ensures f < 16
    ensures f % 2 == 1 <==> Truthy(e.header.recipient)
    ensures f / 2 % 2 == 1 <==> Truthy(e.body.capability)
    ensures f / 4 % 2 == 1 <==> Truthy(e.body.correlationId)
    ensures f / 8 % 2 == 1 <==> e.signature.Some?
  {
    (if Truthy(e.header.recipient) then 1 else 0) + (if Truthy(e.body.capability) then 2 else 0)
    + (if Truthy(e.body.correlationId) then 4 else 0) + (if e.signature.Some? then 8 else 0)
  }

  /** `setUint32` and `setBigUint64` keep a value modulo the width of the field. */
  function Field(value: int, width: nat): (bs: seq<byte>)
    ensures |bs| == width
  {
    BigEndian(value % Pow256(width), width)
  }

  function Str(s: string): seq<byte> { Field(|Utf8.Encode(s)|, 4) + Utf8.Encode(s) }

  function OptionalStr(o: Option<string>): seq<byte> { if Truthy(o) then Str(o.value) else [] }

  function AlgCode(alg: string): byte { if alg == "ED25519" then 2 else 1 }

  function Preamble(e: E.Envelope): seq<byte> {
    MAGIC + [FORMAT_VERSION, Flags(e) as byte] + Field(e.header.timestampMs, 8) + Field(e.header.ttlMs, 4)
  }

  function Strings(ss: seq<string>): seq<byte> {
    if ss == [] then [] else Str(ss[0]) + Strings(ss[1..])
  }

  /** The six strings every frame has. */
  function Required(e: E.Envelope): seq<string> {
    [e.header.version, e.header.messageId, e.header.sender, e.header.nonce, e.body.intent, e.body.content]
  }

  function SignatureBytes(s: Option<E.Signature>): seq<byte> {
    if s.Some? then [AlgCode(s.value.alg)] + Strings([s.value.keyId, s.value.value]) else []
  }

  function Optionals(e: E.Envelope): seq<byte> {
    OptionalStr(e.header.recipient) + (OptionalStr(e.body.capability) + (OptionalStr(e.body.correlationId) + SignatureBytes(e.signature)))
  }

  function Frame(e: E.Envelope): seq<byte> { Preamble(e) + (Strings(Required(e)) + Optionals(e)) }

  // ---------------------------------------------------------------------------
  // Reading
  // ---------------------------------------------------------------------------

  datatype Fault =
    | FrameTooLarge | UnexpectedEnd | BadMagic | BadFormatVersion | BadProtocolVersion | BadIntent | BadAlgorithm | TrailingBytes

  /** A value and what is left of the frame. */
  datatype Read<+T> = Read(value: T, rest: seq<byte>)

  function ReadBytes(bs: seq<byte>, n: nat): Result<Read<seq<byte>>, Fault> {
    if |bs| < n then Err(UnexpectedEnd) else Ok(Read(bs[..n], bs[n..]))
  }

  /** `readU8`, `readU32` and `readU64`, the last through `Number`. */
  function ReadNumber(bs: seq<byte>, width: nat): Result<Read<nat>, Fault> {
    var r :- ReadBytes(bs, width);
    Ok(Read(ToDouble(FromBigEndian(r.value)), r.rest))
  }

  function ReadString(bs: seq<byte>): Result<Read<string>, Fault> {
    var n :- ReadNumber(bs, 4);
    var r :- ReadBytes(n.rest, n.value);
    Ok(Read(Utf8.Decode(r.value), r.rest))
  }

  function ReadStrings(bs: seq<byte>, count: nat): (r: Result<Read<seq<string>>, Fault>)
    ensures r.Ok? ==> |r.value.value| == count
  {
    if count == 0 then Ok(Read([], bs))
    else
      var first :- ReadString(bs);
      var others :- ReadStrings(first.rest, count - 1);
      Ok(Read([first.value] + others.value, others.rest))
  }

  function ReadOptional(bs: seq<byte>, flag: bool): Result<Read<Option<string>>, Fault> {
    if !flag then Ok(Read(None, bs))
    else
      var s :- ReadString(bs);
      Ok(Read(Some(s.value), s.rest))
  }

  function ReadSignature(bs: seq<byte>, flag: bool): Result<Read<Option<E.Signature>>, Fault> {
    if !flag then Ok(Read(None, bs))
    else
      var code :- ReadNumber(bs, 1);
      if code.value != 1 && code.value != 2 then Err(BadAlgorithm)
      else
        var ss :- ReadStrings(code.rest, 2);
        Ok(Read(Some(E.Signature(if code.value == 2 then "ED25519" else "HS256", ss.value[0], ss.value[1])), ss.rest))
  }

  datatype Start = Start(flags: nat, timestampMs: nat, ttlMs: nat)

  function ReadPreamble(bs: seq<byte>): Result<Read<Start>, Fault> {
    var magic :- ReadBytes(bs, 4);
    if magic.value != MAGIC then Err(BadMagic)
    else
      var version :- ReadNumber(magic.rest, 1);
      if version.value != FORMAT_VERSION as nat then Err(BadFormatVersion)
      else
        var flags :- ReadNumber(version.rest, 1);
        var timestampMs :- ReadNumber(flags.rest, 8);
        var ttlMs :- ReadNumber(timestampMs.rest, 4);
        Ok(Read(Start(flags.value, timestampMs.value, ttlMs.value), ttlMs.rest))
  }

  predicate IntentKind(s: string) {
    s == "PING" || s == "PONG" || s == "CAPS" || s == "TASK" || s == "RESULT" || s == "ERROR"
  }

  function Decode(payload: seq<byte>, maxFrameBytes: nat): Result<E.Envelope, Fault> {
    if |payload| > maxFrameBytes then Err(FrameTooLarge)
    else
      var start :- ReadPreamble(payload);
      var ss :- ReadStrings(start.rest, 6);
      if ss.value[0] != E.PROTOCOL_VERSION then Err(BadProtocolVersion)
      else if !IntentKind(ss.value[4]) then Err(BadIntent)
      else DecodeRest(start.value, ss.value, ss.rest)
  }

  /** The optional fields the flags announce, and nothing after them. */
  function DecodeRest(start: Start, ss: seq<string>, bs: seq<byte>): Result<E.Envelope, Fault>
    requires |ss| == 6
  {
    var recipient :- ReadOptional(bs, start.flags % 2 == 1);
    var capability :- ReadOptional(recipient.rest, start.flags / 2 % 2 == 1);
    var correlationId :- ReadOptional(capability.rest, start.flags / 4 % 2 == 1);
    var signature :- ReadSignature(correlationId.rest, start.flags / 8 % 2 == 1);
    if signature.rest != [] then Err(TrailingBytes)
    else
      Ok(E.Envelope(
        E.Header(ss[0], ss[1], start.timestampMs, start.ttlMs, ss[2], recipient.value, ss[3]),
        E.Body(ss[4], ss[5], capability.value, correlationId.value),
        signature.value))
  }

  // ---------------------------------------------------------------------------
  // Reading what was written
  // ---------------------------------------------------------------------------

  lemma NumberBack(value: int, width: nat, rest: seq<byte>)
    ensures ReadNumber(Field(value, width) + rest, width) == Ok(Read(ToDouble(value % Pow256(width)), rest))
  {
    var n := value % Pow256(width);
    Take(Field(value, width), rest);
    BigEndianRoundTrip(n, width);
    ModUnique(n, Pow256(width), 0, n);
  }

  predicate ShortEnough(s: string) { |Utf8.Encode(s)| < 0x1_0000_0000 }

  lemma StringBack(s: string, rest: seq<byte>)
    requires ShortEnough(s)
    ensures ReadString(Str(s) + rest) == Ok(Read(Utf8.Kept(s), rest))
  {
    var bytes := Utf8.Encode(s);
    Pow256Values();
    ToDoubleExact(|bytes|);
    ModUnique(|bytes|, Pow256(4), 0, |bytes|);
    Utf8.RoundTrip(s);
    hide Utf8.Decode;
    hide Utf8.Encode;
    hide Field;
    hide Pow256;
    hide ReadNumber;
    Associate(Field(|bytes|, 4), bytes, rest);
    NumberBack(|bytes|, 4, bytes + rest);
    Take(bytes, rest);
  }

  function KeptAll(ss: seq<string>): seq<string> {
    seq(|ss|, i requires 0 <= i < |ss| => Utf8.Kept(ss[i]))
  }

  lemma {:induction false} StringsBack(ss: seq<string>, rest: seq<byte>)
    requires forall s | s in ss :: ShortEnough(s)
    ensures ReadStrings(Strings(ss) + rest, |ss|) == Ok(Read(KeptAll(ss), rest))
  {
    hide ReadString;
    hide Str;
    if ss == [] {
      assert Strings(ss) + rest == rest;
    } else {
      assert ss[0] in ss && forall s | s in ss[1..] :: s in ss;
      Associate(Str(ss[0]), Strings(ss[1..]), rest);
      StringBack(ss[0], Strings(ss[1..]) + rest);
      StringsBack(ss[1..], rest);
      assert KeptAll(ss) == [Utf8.Kept(ss[0])] + KeptAll(ss[1..]);
    }
  }

  function LossyOption(o: Option<string>): Option<string> { if Truthy(o) then Some(Utf8.Kept(o.value)) else None }

  lemma OptionalBack(o: Option<string>, rest: seq<byte>)
    requires o.Some? ==> ShortEnough(o.value)
    ensures ReadOptional(OptionalStr(o) + rest, Truthy(o)) == Ok(Read(LossyOption(o), rest))
  {
    hide ReadString;
    hide Str;
    if Truthy(o) {
      StringBack(o.value, rest);
    } else {
      assert [] + rest == rest;
    }
  }

  function LossySignature(s: Option<E.Signature>): Option<E.Signature> {
    if s.Some? then
      Some(E.Signature(if s.value.alg == "ED25519" then "ED25519" else "HS256", Utf8.Kept(s.value.keyId), Utf8.Kept(s.value.value)))
    else None
  }

  lemma OneByteBack(b: byte, rest: seq<byte>)
    ensures ReadNumber([b] + rest, 1) == Ok(Read(b as nat, rest))
  {
    Take([b], rest);
    assert [b][..0] == [] && FromBigEndian([b]) == b as nat;
    ToDoubleExact(b as nat);
  }

  lemma SignatureBack(s: Option<E.Signature>)
    requires s.Some? ==> ShortEnough(s.value.keyId) && ShortEnough(s.value.value)
    ensures ReadSignature(SignatureBytes(s), s.Some?) == Ok(Read(LossySignature(s), []))
  {
    hide ReadNumber;
    hide ReadStrings;
    hide Strings;
    if s.Some? {
      var ss := [s.value.keyId, s.value.value];
      OneByteBack(AlgCode(s.value.alg), Strings(ss));
      StringsBack(ss, []);
      assert Strings(ss) + [] == Strings(ss);
      assert KeptAll(ss) == [Utf8.Kept(s.value.keyId), Utf8.Kept(s.value.value)];
    }
  }

  lemma PreambleBack(e: E.Envelope, rest: seq<byte>)
    ensures ReadPreamble(Preamble(e) + rest)
            == Ok(Read(Start(Flags(e), ToDouble(e.header.timestampMs % Pow256(8)), ToDouble(e.header.ttlMs % Pow256(4))), rest))
  {
    hide ReadNumber;
    hide Field;
    hide Flags;
    var t, l, f := Field(e.header.timestampMs, 8), Field(e.header.ttlMs, 4), Flags(e) as byte;
    assert Preamble(e) + rest == MAGIC + ([FORMAT_VERSION] + ([f] + (t + (l + rest))));
    Take(MAGIC, [FORMAT_VERSION] + ([f] + (t + (l + rest))));
    OneByteBack(FORMAT_VERSION, [f] + (t + (l + rest)));
    OneByteBack(f, t + (l + rest));
    NumberBack(e.header.timestampMs, 8, l + rest);
    NumberBack(e.header.ttlMs, 4, rest);
  }

  /** What an envelope becomes: strings lose a leading byte order mark, empty optional strings are absent,
      numbers are kept modulo the width of their field, unknown algorithms read as HS256. */
  function Lossy(e: E.Envelope): E.Envelope {
    var h, b := e.header, e.body;
    E.Envelope(
      E.Header(Utf8.Kept(h.version), Utf8.Kept(h.messageId), ToDouble(h.timestampMs % Pow256(8)), ToDouble(h.ttlMs % Pow256(4)),
               Utf8.Kept(h.sender), LossyOption(h.recipient), Utf8.Kept(h.nonce)),
      E.Body(Utf8.Kept(b.intent), Utf8.Kept(b.content), LossyOption(b.capability), LossyOption(b.correlationId)),
      LossySignature(e.signature))
  }

  predicate AllShort(e: E.Envelope) {
    && (forall s | s in Required(e) :: ShortEnough(s))
    && (e.header.recipient.Some? ==> ShortEnough(e.header.recipient.value))
    && (e.body.capability.Some? ==> ShortEnough(e.body.capability.value))
    && (e.body.correlationId.Some? ==> ShortEnough(e.body.correlationId.value))
    && (e.signature.Some? ==> ShortEnough(e.signature.value.keyId) && ShortEnough(e.signature.value.value))
  }

  lemma {:induction false} StringsLength(ss: seq<string>, s: string)
    requires s in ss
    ensures |Utf8.Encode(s)| <= |Strings(ss)|
  {
    if s != ss[0] {
      StringsLength(ss[1..], s);
    }
  }

  /** A frame within the limit has no string too long for its length field. */
  lemma FrameIsShort(e: E.Envelope)
    requires |Frame(e)| <= MAX_FRAME_BYTES
    ensures AllShort(e)
  {
    hide Strings;
    forall s | s in Required(e)
      ensures ShortEnough(s)
    {
      StringsLength(Required(e), s);
    }
    if e.signature.Some? {
      var ss := [e.signature.value.keyId, e.signature.value.value];
      StringsLength(ss, ss[0]);
      StringsLength(ss, ss[1]);
    }
  }

  lemma RequiredBack(e: E.Envelope, rest: seq<byte>)
    requires AllShort(e)
    ensures ReadStrings(Strings(Required(e)) + rest, 6)
            == Ok(Read([Utf8.Kept(e.header.version), Utf8.Kept(e.header.messageId), Utf8.Kept(e.header.sender), Utf8.Kept(e.header.nonce),
                        Utf8.Kept(e.body.intent), Utf8.Kept(e.body.content)], rest))
  {
    hide ReadStrings;
    hide Strings;
    hide Utf8.Kept;
    StringsBack(Required(e), rest);
    assert KeptAll(Required(e))
        == [Utf8.Kept(e.header.version), Utf8.Kept(e.header.messageId), Utf8.Kept(e.header.sender), Utf8.Kept(e.header.nonce),
            Utf8.Kept(e.body.intent), Utf8.Kept(e.body.content)];
  }

  /** The three optional strings and the signature, one after the other. */
  lemma OptionalsBack(e: E.Envelope)
    requires AllShort(e)
    ensures var r := ReadOptional(Optionals(e), Truthy(e.header.recipient));
            && r.Ok? && r.value.value == LossyOption(e.header.recipient)
            && var c := ReadOptional(r.value.rest, Truthy(e.body.capability));
               && c.Ok? && c.value.value == LossyOption(e.body.capability)
               && var i := ReadOptional(c.value.rest, Truthy(e.body.correlationId));
                  && i.Ok? && i.value.value == LossyOption(e.body.correlationId)
                  && ReadSignature(i.value.rest, e.signature.Some?) == Ok(Read(LossySignature(e.signature), []))
  {
    hide ReadOptional;
    hide ReadSignature;
    hide OptionalStr;
    hide SignatureBytes;
    var s := SignatureBytes(e.signature);
    var i := OptionalStr(e.body.correlationId) + s;
    OptionalBack(e.header.recipient, OptionalStr(e.body.capability) + i);
    OptionalBack(e.body.capability, i);
    OptionalBack(e.body.correlationId, s);
    SignatureBack(e.signature);
  }

  /** What decoding the frame of any envelope gives. */
  lemma DecodeFrame(e: E.Envelope)
    ensures Decode(Frame(e), MAX_FRAME_BYTES)
            == if |Frame(e)| > MAX_FRAME_BYTES then Err(FrameTooLarge)
               else if Utf8.Kept(e.header.version) != E.PROTOCOL_VERSION then Err(BadProtocolVersion)
               else if !IntentKind(Utf8.Kept(e.body.intent)) then Err(BadIntent)
               else Ok(Lossy(e))
  {
    if |Frame(e)| <= MAX_FRAME_BYTES {
      FrameIsShort(e);
      hide AllShort;
      hide ReadPreamble;
      hide ReadStrings;
      hide ReadOptional;
      hide ReadSignature;
      hide Preamble;
      hide Strings;
      hide Optionals;
      hide IntentKind;
      hide LossyOption;
      hide LossySignature;
      PreambleBack(e, Strings(Required(e)) + Optionals(e));
      RequiredBack(e, Optionals(e));
      OptionalsBack(e);
    }
  }

  predicate NoBom(s: string) { !Utf8.LeadingBom(s) }

  predicate OptionSurvives(o: Option<string>) { o.Some? ==> o.value != "" && NoBom(o.value) }

  /** Which envelopes the binary format carries. */
  predicate Survives(e: E.Envelope) {
    && |Frame(e)| <= MAX_FRAME_BYTES
    && e.header.version == E.PROTOCOL_VERSION && IntentKind(e.body.intent)
    && 0 <= e.header.timestampMs < Pow256(8) && 0 <= e.header.ttlMs < Pow256(4)
    && NoBom(e.header.messageId) && NoBom(e.header.sender) && NoBom(e.header.nonce) && NoBom(e.body.content)
    && OptionSurvives(e.header.recipient) && OptionSurvives(e.body.capability) && OptionSurvives(e.body.correlationId)
    && (e.signature.Some? ==>
          && (e.signature.value.alg == "HS256" || e.signature.value.alg == "ED25519")
          && NoBom(e.signature.value.keyId) && NoBom(e.signature.value.value))
  }

  /** Every number of the source is a double. */
  predicate Doubles(e: E.Envelope) {
    e.header.timestampMs >= 0 ==> ToDouble(e.header.timestampMs) == e.header.timestampMs
  }

  lemma KeptExactly(s: string)
    ensures Utf8.Kept(s) == s <==> NoBom(s)
  {
    assert Utf8.LeadingBom(s) ==> |Utf8.Kept(s)| == |s| - 1;
  }

  lemma ModExactly(n: int, m: nat)
    requires m > 0
    ensures n % m == n <==> 0 <= n < m
  {
    if 0 <= n < m {
      ModUnique(n, m, 0, n);
    }
  }

  lemma OptionExactly(o: Option<string>)
    ensures LossyOption(o) == o <==> OptionSurvives(o)
  {
    if o.Some? {
      KeptExactly(o.value);
    }
  }

  lemma TimesExactly(e: E.Envelope)
    requires Doubles(e)
    ensures ToDouble(e.header.timestampMs % Pow256(8)) == e.header.timestampMs && ToDouble(e.header.ttlMs % Pow256(4)) == e.header.ttlMs
            <==> 0 <= e.header.timestampMs < Pow256(8) && 0 <= e.header.ttlMs < Pow256(4)
  {
    var t, l := e.header.timestampMs, e.header.ttlMs;
    Pow256Values();
    ModExactly(t, Pow256(8));
    ModExactly(l, Pow256(4));
    ToDoubleExact(l % Pow256(4));
    ToDoubleBelow2To64(t % Pow256(8));
    ToDoubleExact(0);
    if t == Pow256(8) {
      ModUnique(t, Pow256(8), 1, 0);
    }
  }

  lemma HeaderExactly(h: E.Header)
    ensures Utf8.Kept(h.messageId) == h.messageId && Utf8.Kept(h.sender) == h.sender && Utf8.Kept(h.nonce) == h.nonce
            && LossyOption(h.recipient) == h.recipient
            <==> NoBom(h.messageId) && NoBom(h.sender) && NoBom(h.nonce) && OptionSurvives(h.recipient)
  {
    KeptExactly(h.messageId);
    KeptExactly(h.sender);
    KeptExactly(h.nonce);
    OptionExactly(h.recipient);
  }

  lemma BodyExactly(b: E.Body)
    ensures Utf8.Kept(b.content) == b.content && LossyOption(b.capability) == b.capability && LossyOption(b.correlationId) == b.correlationId
            <==> NoBom(b.content) && OptionSurvives(b.capability) && OptionSurvives(b.correlationId)
  {
    KeptExactly(b.content);
    OptionExactly(b.capability);
    OptionExactly(b.correlationId);
  }

  lemma KindsHaveNoBom(version: string, intent: string)
    ensures version == E.PROTOCOL_VERSION ==> Utf8.Kept(version) == version
    ensures IntentKind(intent) ==> Utf8.Kept(intent) == intent
  {
  }

  /** The binary format gives an envelope back exactly when it `Survives`. */
  lemma RoundTripExactly(e: E.Envelope)
    requires Doubles(e)
    ensures Decode(Frame(e), MAX_FRAME_BYTES) == Ok(e) <==> Survives(e)
  {
    DecodeFrame(e);
    TimesExactly(e);
    hide Decode;
    hide Frame;
    hide IntentKind;
    hide LossyOption;
    hide OptionSurvives;
    hide Utf8.Kept;
    hide NoBom;
    hide LossySignature;
    KindsHaveNoBom(e.header.version, e.body.intent);
    HeaderExactly(e.header);
    BodyExactly(e.body);
    SignatureExactly(e.signature);
  }

  lemma SignatureExactly(s: Option<E.Signature>)
    ensures LossySignature(s) == s <==>
            (s.Some? ==> (s.value.alg == "HS256" || s.value.alg == "ED25519") && NoBom(s.value.keyId) && NoBom(s.value.value))
  {
    if s.Some? {
      KeptExactly(s.value.keyId);
      KeptExactly(s.value.value);
    }
  }
}
