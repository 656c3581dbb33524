/** The writer and reader objects of src/protocolBinary.ts: the writer fills the buffer whose size was computed
    beforehand exactly, and the reader never passes the end of its bytes. */
module ProtocolBinary {
  import opened Prelude
  import opened Bytes
  import opened Binary
  import E = Envelope
  import Utf8

  class BinaryWriter {
    const bytes: array<byte>
    var offset: nat

    constructor (size: nat)
      ensures Valid() && fresh(bytes) && bytes.Length == size && offset == 0
    {
      bytes := new byte[size];
      offset := 0;
    }

    ghost predicate Valid() reads this { offset <= bytes.Length }

    /** What has been written. */
    function Written(): seq<byte>
      requires Valid()
      reads this, bytes
    {
      bytes[..offset]
    }

    /** `writeBytes`. */
    method WriteBytes(value: seq<byte>)
      requires Valid() && offset + |value| <= bytes.Length
      modifies this, bytes
      ensures Valid() && offset == old(offset) + |value| && Written() == old(Written()) + value
    {
      for j := 0 to |value|
        modifies bytes
        invariant bytes[..offset + j] == old(bytes[..offset]) + value[..j]
      {
        bytes[offset + j] := value[j];
        assert bytes[..offset + j + 1] == bytes[..offset + j] + [value[j]];
      }
      offset := offset + |value|;
    }

    /** `writeU8`: the value is masked to a byte. */
    method WriteU8(value: nat)
      requires Valid() && offset + 1 <= bytes.Length
      modifies this, bytes
      ensures Valid() && offset == old(offset) + 1 && Written() == old(Written()) + [(value % 256) as byte]
    {
      WriteBytes([(value % 256) as byte]);
    }

    /** `writeU32` and `writeU64`: the value wraps to the width of the field. */
    method WriteNumber(value: int, width: nat)
      requires Valid() && offset + width <= bytes.Length
      modifies this, bytes
      ensures Valid() && offset == old(offset) + width && Written() == old(Written()) + Field(value, width)
    {
      WriteBytes(Field(value, width));
    }

    /** `writeString`. */
    method WriteString(encoded: seq<byte>)
      requires Valid() && offset + 4 + |encoded| <= bytes.Length
      modifies this, bytes
      ensures Valid() && offset == old(offset) + 4 + |encoded| && Written() == old(Written()) + (Field(|encoded|, 4) + encoded)
    {
      WriteNumber(|encoded|, 4);
      WriteBytes(encoded);
    }

    /** Strings one after the other. */
    method WriteStrings(ss: seq<string>)
      requires Valid() && offset + |Strings(ss)| <= bytes.Length
      modifies this, bytes
      ensures Valid() && Written() == old(Written()) + Strings(ss)
      decreases |ss|
    {
      ghost var before := Written();
      if ss != [] {
        WriteString(Utf8.Encode(ss[0]));
        Associate(before, Str(ss[0]), Strings(ss[1..]));
        assert |Strings(ss)| == |Str(ss[0])| + |Strings(ss[1..])|;
        WriteStrings(ss[1..]);
      } else {
        assert before + [] == before;
      }
    }

    method WriteOptional(o: Option<string>)
      requires Valid() && offset + |OptionalStr(o)| <= bytes.Length
      modifies this, bytes
      ensures Valid() && Written() == old(Written()) + OptionalStr(o)
    {
      if Truthy(o) {
        WriteString(Utf8.Encode(o.value));
      } else {
        assert Written() + [] == Written();
      }
    }

    method WriteSignature(s: Option<E.Signature>)
      requires Valid() && offset + |SignatureBytes(s)| <= bytes.Length
      modifies this, bytes
      ensures Valid() && Written() == old(Written()) + SignatureBytes(s)
    {
      ghost var before := Written();
      if s.Some? {
        var code := AlgCode(s.value.alg);
        WriteU8(code as nat);
        assert Written() == before + [code];
        WriteStrings([s.value.keyId, s.value.value]);
        Associate(before, [code], Strings([s.value.keyId, s.value.value]));
      } else {
        assert before + [] == before;
      }
    }

    method WritePreamble(e: E.Envelope)
      requires Valid() && offset + 18 <= bytes.Length
      modifies this, bytes
      ensures Valid() && Written() == old(Written()) + Preamble(e)
    {
      hide Flags;
      hide Field;
      ghost var before := Written();
      WriteBytes(MAGIC);
      WriteU8(FORMAT_VERSION as nat);
      WriteU8(Flags(e));
      WriteNumber(e.header.timestampMs, 8);
      WriteNumber(e.header.ttlMs, 4);
      PreambleParts(before, Flags(e) as byte, Field(e.header.timestampMs, 8), Field(e.header.ttlMs, 4));
    }
  }

  lemma PreambleParts(before: seq<byte>, flags: byte, t: seq<byte>, l: seq<byte>)
    ensures before + MAGIC + [FORMAT_VERSION] + [flags] + t + l == before + (MAGIC + [FORMAT_VERSION, flags] + t + l)
  {
  }

  /** `encodedStringSize`, of a string and of one that is only written when it is not empty. */
  function StringSize(s: string): nat { 4 + |Utf8.Encode(s)| }

  function OptionalSize(o: Option<string>): nat { if Truthy(o) then StringSize(o.value) else 0 }

  /** The size computed before anything is written. */
  function Size(e: E.Envelope): nat {
    |MAGIC| + 1 + 1 + 8 + 4
    + StringSize(e.header.version) + StringSize(e.header.messageId) + StringSize(e.header.sender) + StringSize(e.header.nonce)
    + StringSize(e.body.intent) + StringSize(e.body.content)
    + OptionalSize(e.header.recipient) + OptionalSize(e.body.capability) + OptionalSize(e.body.correlationId)
    + (match e.signature case None => 0 case Some(s) => 1 + StringSize(s.keyId) + StringSize(s.value))
  }

  function Sizes(ss: seq<string>): nat { if ss == [] then 0 else StringSize(ss[0]) + Sizes(ss[1..]) }

  lemma {:induction false} StringsSize(ss: seq<string>)
    ensures |Strings(ss)| == Sizes(ss)
  {
    if ss != [] {
      StringsSize(ss[1..]);
    }
  }

  lemma RequiredSize(e: E.Envelope)
    ensures |Strings(Required(e))|
            == StringSize(e.header.version) + StringSize(e.header.messageId) + StringSize(e.header.sender)
               + StringSize(e.header.nonce) + StringSize(e.body.intent) + StringSize(e.body.content)
  {
    var h, b := e.header, e.body;
    StringsSize(Required(e));
    hide StringSize;
    hide Strings;
    SizesStep(h.version, [h.messageId, h.sender, h.nonce, b.intent, b.content]);
    SizesStep(h.messageId, [h.sender, h.nonce, b.intent, b.content]);
    SizesStep(h.sender, [h.nonce, b.intent, b.content]);
    SizesStep(h.nonce, [b.intent, b.content]);
    SizesStep(b.intent, [b.content]);
    SizesStep(b.content, []);
    hide Sizes;
    assert Required(e) == [h.version] + [h.messageId, h.sender, h.nonce, b.intent, b.content];
    assert [h.messageId, h.sender, h.nonce, b.intent, b.content] == [h.messageId] + [h.sender, h.nonce, b.intent, b.content];
    assert [h.sender, h.nonce, b.intent, b.content] == [h.sender] + [h.nonce, b.intent, b.content];
    assert [h.nonce, b.intent, b.content] == [h.nonce] + [b.intent, b.content];
    assert [b.intent, b.content] == [b.intent] + [b.content] && [b.content] == [b.content] + [];
  }

  lemma SizesStep(s: string, rest: seq<string>)
    ensures Sizes([s] + rest) == StringSize(s) + Sizes(rest) && Sizes([]) == 0
  {
    assert ([s] + rest)[1..] == rest;
  }

  lemma SignatureSize(s: Option<E.Signature>)
    ensures |SignatureBytes(s)| == match s case None => 0 case Some(x) => 1 + StringSize(x.keyId) + StringSize(x.value)
  {
    if s.Some? {
      var x := s.value;
      StringsSize([x.keyId, x.value]);
      hide StringSize;
      hide Strings;
      SizesStep(x.keyId, [x.value]);
      SizesStep(x.value, []);
      assert [x.keyId, x.value] == [x.keyId] + [x.value] && [x.value] == [x.value] + [];
    }
  }

  /** The precomputed size is the length of the frame. */
  lemma SizeIsExact(e: E.Envelope)
    ensures Size(e) == |Frame(e)|
  {
    RequiredSize(e);
    SignatureSize(e.signature);
    PreambleLength(e);
    hide StringSize;
    hide Preamble;
    hide Strings;
    hide SignatureBytes;
    OptionalSizes(e.header.recipient);
    OptionalSizes(e.body.capability);
    OptionalSizes(e.body.correlationId);
    hide OptionalStr;
    hide OptionalSize;
  }

  lemma OptionalSizes(o: Option<string>)
    ensures |OptionalStr(o)| == OptionalSize(o)
  {
  }

  /** `encodeEnvelopeBinary`: the buffer ends up full, with no byte left or overrun. */
  method EncodeEnvelopeBinary(e: E.Envelope) returns (frame: seq<byte>)
    ensures frame == Frame(e) && |frame| == Size(e)
  {
    SizeIsExact(e);
    PreambleLength(e);
    hide Size;
    hide Strings;
    hide OptionalStr;
    hide SignatureBytes;
    hide Preamble;
    var writer := new BinaryWriter(Size(e));
    writer.WritePreamble(e);
    assert writer.Written() == Preamble(e);
    writer.WriteStrings(Required(e));
    ghost var head := writer.Written();
    assert head == Preamble(e) + Strings(Required(e));
    writer.WriteOptional(e.header.recipient);
    writer.WriteOptional(e.body.capability);
    writer.WriteOptional(e.body.correlationId);
    writer.WriteSignature(e.signature);
    ghost var r, c, i, s :=
      OptionalStr(e.header.recipient), OptionalStr(e.body.capability), OptionalStr(e.body.correlationId), SignatureBytes(e.signature);
    FourParts(head, r, c, i, s);
    Associate(Preamble(e), Strings(Required(e)), Optionals(e));
    assert writer.offset == writer.bytes.Length;
    assert writer.bytes[..] == writer.Written();
    frame := writer.bytes[..];
  }

  lemma PreambleLength(e: E.Envelope)
    ensures |Preamble(e)| == 18
  {
  }

  lemma FourParts(h: seq<byte>, a: seq<byte>, b: seq<byte>, c: seq<byte>, d: seq<byte>)
    ensures h + a + b + c + d == h + (a + (b + (c + d)))
  {
  }

  class BinaryReader {
    const bytes: seq<byte>
    var offset: nat

    constructor (bytes: seq<byte>)
      ensures this.bytes == bytes && Valid() && Rest() == bytes
    {
      this.bytes := bytes;
      offset := 0;
    }

    ghost predicate Valid() reads this { offset <= |bytes| }

    function Rest(): seq<byte>
      requires offset <= |bytes|
      reads this
    {
      bytes[offset..]
    }

    /** `remaining`. */
    function Remaining(): (n: nat)
      requires offset <= |bytes|
      reads this
      ensures n == |Rest()|
    {
      |bytes| - offset
    }

    /** `readBytes`. */
    method Take(length: nat) returns (r: Result<seq<byte>, Fault>)
      requires Valid()
      modifies this
      ensures Valid() && Follows(r, Binary.ReadBytes(old(Rest()), length), Rest())
    {
      if Remaining() < length {
        return Err(UnexpectedEnd);
      }
      r := Ok(bytes[offset..offset + length]);
      assert bytes[offset..offset + length] == bytes[offset..][..length];
      offset := offset + length;
    }

    /** `readU8`, `readU32`, `readU64`. */
    method Number(width: nat) returns (r: Result<nat, Fault>)
      requires Valid()
      modifies this
      ensures Valid() && Follows(r, ReadNumber(old(Rest()), width), Rest())
    {
      var raw := Take(width);
      if raw.Err? {
        return Err(raw.error);
      }
      return Ok(ToDouble(FromBigEndian(raw.value)));
    }

    /** `readString`. */
    method String() returns (r: Result<string, Fault>)
      requires Valid()
      modifies this
      ensures Valid() && Follows(r, Binary.ReadString(old(Rest())), Rest())
    {
      var length := Number(4);
      if length.Err? {
        return Err(length.error);
      }
      var raw := Take(length.value);
      if raw.Err? {
        return Err(raw.error);
      }
      return Ok(Utf8.Decode(raw.value));
    }

    method StringList(count: nat) returns (r: Result<seq<string>, Fault>)
      requires Valid()
      modifies this
      ensures Valid() && Follows(r, ReadStrings(old(Rest()), count), Rest())
      decreases count
    {
      hide Binary.ReadString;
      if count == 0 {
        return Ok([]);
      }
      var first := String();
      if first.Err? {
        return Err(first.error);
      }
      var others := StringList(count - 1);
      if others.Err? {
        return Err(others.error);
      }
      return Ok([first.value] + others.value);
    }

    method Optional(flag: bool) returns (r: Result<Option<string>, Fault>)
      requires Valid()
      modifies this
      ensures Valid() && Follows(r, ReadOptional(old(Rest()), flag), Rest())
    {
      if !flag {
        return Ok(None);
      }
      var s := String();
      if s.Err? {
        return Err(s.error);
      }
      return Ok(Some(s.value));
    }

    method Signature(flag: bool) returns (r: Result<Option<E.Signature>, Fault>)
      requires Valid()
      modifies this
      ensures Valid() && Follows(r, ReadSignature(old(Rest()), flag), Rest())
    {
      hide ReadNumber;
      hide ReadStrings;
      if !flag {
        return Ok(None);
      }
      var code := Number(1);
      if code.Err? {
        return Err(code.error);
      }
      if code.value != 1 && code.value != 2 {
        return Err(BadAlgorithm);
      }
      var ss := StringList(2);
      if ss.Err? {
        return Err(ss.error);
      }
      return Ok(Some(E.Signature(if code.value == 2 then "ED25519" else "HS256", ss.value[0], ss.value[1])));
    }

    method Preamble() returns (r: Result<Start, Fault>)
      requires Valid()
      modifies this
      ensures Valid() && Follows(r, ReadPreamble(old(Rest())), Rest())
    {
      hide ReadNumber;
      var magic := Take(4);
      if magic.Err? {
        return Err(magic.error);
      }
      if magic.value != MAGIC {
        return Err(BadMagic);
      }
      var version := Number(1);
      if version.Err? {
        return Err(version.error);
      }
      if version.value != FORMAT_VERSION as nat {
        return Err(BadFormatVersion);
      }
      var flags := Number(1);
      if flags.Err? {
        return Err(flags.error);
      }
      var timestampMs := Number(8);
      if timestampMs.Err? {
        return Err(timestampMs.error);
      }
      var ttlMs := Number(4);
      if ttlMs.Err? {
        return Err(ttlMs.error);
      }
      return Ok(Start(flags.value, timestampMs.value, ttlMs.value));
    }
  }

  /** A read that agrees with its specification, and leaves the reader at the rest. */
  predicate Follows<T(==)>(r: Result<T, Fault>, spec: Result<Read<T>, Fault>, rest: seq<byte>) {
    match spec
    case Err(f) => r == Err(f)
    case Ok(Read(x, tail)) => r == Ok(x) && rest == tail
  }

  /** `decodeEnvelopeBinary`. */
  method DecodeEnvelopeBinary(payload: seq<byte>, maxFrameBytes: nat) returns (r: Result<E.Envelope, Fault>)
    ensures r == Decode(payload, maxFrameBytes)
  {
    hide ReadPreamble;
    hide ReadStrings;
    hide IntentKind;
    hide DecodeRest;
    if |payload| > maxFrameBytes {
      return Err(FrameTooLarge);
    }
    var reader := new BinaryReader(payload);
    var start := reader.Preamble();
    if start.Err? {
      return Err(start.error);
    }
    var ss := reader.StringList(6);
    if ss.Err? {
      return Err(ss.error);
    }
    if ss.value[0] != E.PROTOCOL_VERSION {
      return Err(BadProtocolVersion);
    }
    if !IntentKind(ss.value[4]) {
      return Err(BadIntent);
    }
    r := ReadRest(reader, start.value, ss.value);
  }

  /** The part of `decodeEnvelopeBinary` after the intent check. */
  method ReadRest(reader: BinaryReader, start: Start, ss: seq<string>) returns (r: Result<E.Envelope, Fault>)
    requires reader.Valid() && |ss| == 6
    modifies reader
    ensures r == DecodeRest(start, ss, old(reader.Rest()))
  {
    hide ReadOptional;
    hide ReadSignature;
    var flags := start.flags;
    var recipient := reader.Optional(flags % 2 == 1);
    if recipient.Err? {
      return Err(recipient.error);
    }
    var capability := reader.Optional(flags / 2 % 2 == 1);
    if capability.Err? {
      return Err(capability.error);
    }
    var correlationId := reader.Optional(flags / 4 % 2 == 1);
    if correlationId.Err? {
      return Err(correlationId.error);
    }
    var signature := reader.Signature(flags / 8 % 2 == 1);
    if signature.Err? {
      return Err(signature.error);
    }
    if reader.Remaining() != 0 {
      return Err(TrailingBytes);
    }
    return Ok(E.Envelope(
      E.Header(ss[0], ss[1], start.timestampMs, start.ttlMs, ss[2], recipient.value, ss[3]),
      E.Body(ss[4], ss[5], capability.value, correlationId.value),
      signature.value));
  }
}
