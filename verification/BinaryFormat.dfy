/** Binary frames byte by byte (src/protocolBinary.ts): where each field of an envelope is, and which frames are read as
    which envelopes. */
module BinaryFormat {
  import opened Prelude
  import opened Bytes
  import opened Binary
  import E = Envelope
  import Utf8

  // ---------------------------------------------------------------------------
  // What is written
  // ---------------------------------------------------------------------------

  predicate Present(o: Option<string>) { o.Some? && o.value != "" }

  function Bit(b: bool, weight: byte): nat { if b then weight as nat else 0 }

  /** The 18 bytes in front: "AIPB", format 1, flags, time and lifetime. */
  predicate IsPreamble(bs: seq<byte>, e: E.Envelope) {
    && |bs| == 18
    && bs[0] == 0x41 && bs[1] == 0x49 && bs[2] == 0x50 && bs[3] == 0x42 && bs[4] == 1
    && bs[5] as nat == Bit(Present(e.header.recipient), 1) + Bit(Present(e.body.capability), 2)
                       + Bit(Present(e.body.correlationId), 4) + Bit(e.signature.Some?, 8)
    && Word(bs, 6) * 0x1_0000_0000 + Word(bs, 10) == e.header.timestampMs % 0x1_0000_0000_0000_0000
    && Word(bs, 14) == e.header.ttlMs % 0x1_0000_0000
  }

  datatype Piece = TextPiece(s: string) | BytePiece(b: byte)

  /** A text has its length in four bytes before it. */
  predicate IsPiece(bs: seq<byte>, p: Piece) {
    match p
    case TextPiece(s) => |bs| >= 4 && Word(bs, 0) == |Utf8.Encode(s)| % 0x1_0000_0000 && bs[4..] == Utf8.Encode(s)
    case BytePiece(b) => bs == [b]
  }

  function IfPresent(o: Option<string>): seq<Piece> { if o.Some? && o.value != "" then [TextPiece(o.value)] else [] }

  /** The fields in the order they are written. */
  function Pieces(e: E.Envelope): seq<Piece> {
    var h, b := e.header, e.body;
    [TextPiece(h.version), TextPiece(h.messageId), TextPiece(h.sender), TextPiece(h.nonce), TextPiece(b.intent), TextPiece(b.content)]
    + IfPresent(h.recipient) + IfPresent(b.capability) + IfPresent(b.correlationId)
    + SignaturePieces(e.signature)
  }

  function SignaturePieces(o: Option<E.Signature>): seq<Piece> {
    match o
    case None => []
    case Some(s) => [BytePiece(if s.alg == "ED25519" then 2 else 1), TextPiece(s.keyId), TextPiece(s.value)]
  }

  predicate ArePieces(parts: seq<seq<byte>>, ps: seq<Piece>) { |parts| == |ps| && forall i | 0 <= i < |ps| :: IsPiece(parts[i], ps[i]) }

  ghost predicate IsFrame(bs: seq<byte>, e: E.Envelope) {
    exists front, parts :: bs == front + ConcatAll(parts) && IsPreamble(front, e) && ArePieces(parts, Pieces(e))
  }

  lemma FieldWord(value: int, bs: seq<byte>)
    ensures bs == Field(value, 4) <==> |bs| == 4 && Word(bs, 0) == value % 0x1_0000_0000
  {
    var n := value % Pow256(4);
    Pow256Values();
    BigEndianRoundTrip(n, 4);
    ModUnique(n, Pow256(4), 0, n);
    FromWord(Field(value, 4));
    hide BigEndian;
    hide Pow256;
    if |bs| == 4 && Word(bs, 0) == n {
      WordFixes(bs, Field(value, 4), 0);
      assert bs[0..4] == bs;
      assert Field(value, 4)[0..4] == Field(value, 4);
    }
  }

  lemma FieldTwoWords(value: int, bs: seq<byte>)
    ensures bs == Field(value, 8) <==> |bs| == 8 && Word(bs, 0) * 0x1_0000_0000 + Word(bs, 4) == value % 0x1_0000_0000_0000_0000
  {
    var n := value % Pow256(8);
    var f := Field(value, 8);
    Pow256Values();
    BigEndianRoundTrip(n, 8);
    ModUnique(n, Pow256(8), 0, n);
    FromTwoWords(f);
    hide BigEndian;
    hide Pow256;
    if |bs| == 8 {
      WordBound(bs, 4);
      WordBound(f, 4);
      hide Word;
      if Word(bs, 0) * 0x1_0000_0000 + Word(bs, 4) == n {
        WordFixes(bs, f, 0);
        WordFixes(bs, f, 4);
        assert bs == bs[0..4] + bs[4..8] && f == f[0..4] + f[4..8];
      }
    }
  }

  lemma PreambleExactly(bs: seq<byte>, e: E.Envelope)
    ensures IsPreamble(bs, e) <==> bs == Preamble(e)
  {
    var p := Preamble(e);
    var time, ttl := Field(e.header.timestampMs, 8), Field(e.header.ttlMs, 4);
    var six := MAGIC + [FORMAT_VERSION, Flags(e) as byte];
    hide Field;
    assert p == six + time + ttl && |p| == 18;
    if |bs| == 18 {
      FieldTwoWords(e.header.timestampMs, bs[6..14]);
      FieldWord(e.header.ttlMs, bs[14..18]);
      assert bs == bs[..6] + bs[6..14] + bs[14..18];
      assert bs[..6] == six <==> bs[0] == 0x41 && bs[1] == 0x49 && bs[2] == 0x50 && bs[3] == 0x42 && bs[4] == 1 && bs[5] == Flags(e) as byte;
      assert p[..6] == six && p[6..14] == time && p[14..18] == ttl;
    }
  }

  lemma PieceExactly(bs: seq<byte>, s: string)
    ensures IsPiece(bs, TextPiece(s)) <==> bs == Str(s)
  {
    var text := Utf8.Encode(s);
    hide Utf8.Encode;
    hide Field;
    Take(Field(|text|, 4), text);
    if |bs| >= 4 {
      FieldWord(|text|, bs[..4]);
      assert Word(bs[..4], 0) == Word(bs, 0);
      assert bs == bs[..4] + bs[4..];
    }
  }

  function Written(p: Piece): seq<byte> {
    match p
    case TextPiece(s) => Str(s)
    case BytePiece(b) => [b]
  }

  function WrittenAll(ps: seq<Piece>): seq<byte> { if ps == [] then [] else Written(ps[0]) + WrittenAll(ps[1..]) }

  lemma {:induction false} PiecesExactly(parts: seq<seq<byte>>, ps: seq<Piece>)
    ensures ArePieces(parts, ps) ==> ConcatAll(parts) == WrittenAll(ps)
    ensures exists qs :: ArePieces(qs, ps)
    decreases |ps|
  {
    hide IsPiece;
    hide Written;
    if ps != [] {
      var tail := if parts == [] then [] else parts[1..];
      PiecesExactly(tail, ps[1..]);
      WrittenIsPiece(ps[0]);
      if ArePieces(parts, ps) {
        PieceIsWritten(parts[0], ps[0]);
        assert ArePieces(tail, ps[1..]) by {
          assert forall i | 0 <= i < |tail| :: tail[i] == parts[i + 1] && ps[1..][i] == ps[i + 1];
        }
      }
      var qs :| ArePieces(qs, ps[1..]);
      var rs := [Written(ps[0])] + qs;
      assert ArePieces(rs, ps);
    } else {
      assert ArePieces([], ps);
    }
  }

  lemma PieceIsWritten(bs: seq<byte>, p: Piece)
    requires IsPiece(bs, p)
    ensures bs == Written(p)
  {
    if p.TextPiece? {
      PieceExactly(bs, p.s);
    }
  }

  lemma WrittenIsPiece(p: Piece)
    ensures IsPiece(Written(p), p)
  {
    if p.TextPiece? {
      PieceExactly(Str(p.s), p.s);
    }
  }

  lemma {:induction false} WrittenBoth(ps: seq<Piece>, qs: seq<Piece>)
    ensures WrittenAll(ps + qs) == WrittenAll(ps) + WrittenAll(qs)
    decreases |ps|
  {
    hide Written;
    if ps == [] {
      assert ps + qs == qs;
    } else {
      assert (ps + qs)[0] == ps[0] && (ps + qs)[1..] == ps[1..] + qs;
      WrittenBoth(ps[1..], qs);
      Associate(Written(ps[0]), WrittenAll(ps[1..]), WrittenAll(qs));
    }
  }

  lemma WrittenOne(p: Piece)
    ensures WrittenAll([p]) == Written(p) && WrittenAll([]) == []
  {
    assert [p][1..] == [] && Written(p) + [] == Written(p);
  }

  lemma OptionalWritten(o: Option<string>)
    ensures WrittenAll(IfPresent(o)) == OptionalStr(o)
  {
    hide Str;
    WrittenOne(TextPiece(if o.Some? then o.value else ""));
  }

  lemma {:induction false} TextsWritten(ss: seq<string>, ps: seq<Piece>)
    requires |ps| == |ss| && forall i | 0 <= i < |ss| :: ps[i] == TextPiece(ss[i])
    ensures WrittenAll(ps) == Strings(ss)
    decreases |ss|
  {
    hide Str;
    if ss != [] {
      TextsWritten(ss[1..], ps[1..]);
    }
  }

  lemma SignatureWritten(o: Option<E.Signature>)
    ensures WrittenAll(SignaturePieces(o)) == SignatureBytes(o)
  {
    hide Str;
    if o.Some? {
      var s := o.value;
      var texts := [TextPiece(s.keyId), TextPiece(s.value)];
      TextsWritten([s.keyId, s.value], texts);
      assert SignaturePieces(o) == [BytePiece(AlgCode(s.alg))] + texts;
      WrittenOne(BytePiece(AlgCode(s.alg)));
      WrittenBoth([BytePiece(AlgCode(s.alg))], texts);
    }
  }

  lemma PiecesWritten(e: E.Envelope)
    ensures WrittenAll(Pieces(e)) == Strings(Required(e)) + Optionals(e)
  {
    var h, b := e.header, e.body;
    var texts :=
      [TextPiece(h.version), TextPiece(h.messageId), TextPiece(h.sender), TextPiece(h.nonce), TextPiece(b.intent), TextPiece(b.content)];
    TextsWritten(Required(e), texts);
    OptionalWritten(h.recipient);
    OptionalWritten(b.capability);
    OptionalWritten(b.correlationId);
    SignatureWritten(e.signature);
    WrittenFive(texts, IfPresent(h.recipient), IfPresent(b.capability), IfPresent(b.correlationId), SignaturePieces(e.signature));
    hide WrittenAll;
    hide Strings;
    hide IfPresent;
    hide OptionalStr;
    hide SignaturePieces;
    hide SignatureBytes;
  }

  lemma WrittenFive(texts: seq<Piece>, r: seq<Piece>, c: seq<Piece>, d: seq<Piece>, s: seq<Piece>)
    ensures WrittenAll(texts + r + c + d + s)
            == WrittenAll(texts) + (WrittenAll(r) + (WrittenAll(c) + (WrittenAll(d) + WrittenAll(s))))
  {
    hide WrittenAll;
    assert texts + r + c + d + s == texts + (r + (c + (d + s)));
    WrittenBoth(texts, r + (c + (d + s)));
    WrittenBoth(r, c + (d + s));
    WrittenBoth(c, d + s);
    WrittenBoth(d, s);
  }

  /** The frame of an envelope is the one sequence of bytes with that layout. */
  lemma FrameExactly(bs: seq<byte>, e: E.Envelope)
    ensures IsFrame(bs, e) <==> bs == Frame(e)
  {
    hide IsPreamble;
    hide ArePieces;
    hide Pieces;
    hide Preamble;
    hide Strings;
    hide Optionals;
    PreambleExactly(Preamble(e), e);
    PiecesWritten(e);
    PiecesExactly([], Pieces(e));
    var qs :| ArePieces(qs, Pieces(e));
    PiecesExactly(qs, Pieces(e));
    assert IsFrame(Preamble(e) + ConcatAll(qs), e);
    if IsFrame(bs, e) {
      var front, parts :| bs == front + ConcatAll(parts) && IsPreamble(front, e) && ArePieces(parts, Pieces(e));
      PreambleExactly(front, e);
      PiecesExactly(parts, Pieces(e));
    }
  }

  // ---------------------------------------------------------------------------
  // What is read
  // ---------------------------------------------------------------------------

  /** A text with its length before it, then `rest`. */
  predicate StartsWithText(bs: seq<byte>, s: string, rest: seq<byte>) {
    && |bs| >= 4 && |bs| >= 4 + Word(bs, 0)
    && s == Utf8.Decode(bs[4..4 + Word(bs, 0)]) && rest == bs[4 + Word(bs, 0)..]
  }

  ghost predicate StartsWithTexts(bs: seq<byte>, ss: seq<string>, rest: seq<byte>)
    decreases |ss|
  {
    if ss == [] then rest == bs else exists mid :: StartsWithText(bs, ss[0], mid) && StartsWithTexts(mid, ss[1..], rest)
  }

  predicate StartsWithOptional(bs: seq<byte>, there: bool, o: Option<string>, rest: seq<byte>) {
    if there then o.Some? && StartsWithText(bs, o.value, rest) else o == None && rest == bs
  }

  ghost predicate StartsWithSignature(bs: seq<byte>, there: bool, o: Option<E.Signature>, rest: seq<byte>) {
    if there then
      && o.Some? && bs != []
      && ((bs[0] == 1 && o.value.alg == "HS256") || (bs[0] == 2 && o.value.alg == "ED25519"))
      && StartsWithTexts(bs[1..], [o.value.keyId, o.value.value], rest)
    else o == None && rest == bs
  }

  lemma NumberRead(bs: seq<byte>)
    ensures |bs| >= 1 ==> ReadNumber(bs, 1) == Ok(Read(bs[0] as nat, bs[1..]))
    ensures |bs| >= 4 ==> ReadNumber(bs, 4) == Ok(Read(Word(bs, 0), bs[4..]))
    ensures |bs| >= 8 ==> ReadNumber(bs, 8) == Ok(Read(ToDouble(Word(bs, 0) * 0x1_0000_0000 + Word(bs, 4)), bs[8..]))
  {
    hide ToDouble;
    if |bs| >= 1 {
      FromOne(bs[..1]);
      ToDoubleExact(bs[0] as nat);
    }
    if |bs| >= 4 {
      FromWord(bs[..4]);
      WordBound(bs, 0);
      ToDoubleExact(Word(bs, 0));
    }
    if |bs| >= 8 {
      FromTwoWords(bs[..8]);
    }
    hide FromBigEndian;
  }

  lemma TextExactly(bs: seq<byte>, s: string, rest: seq<byte>)
    ensures ReadString(bs) == Ok(Read(s, rest)) <==> StartsWithText(bs, s, rest)
  {
    hide Utf8.Decode;
    NumberRead(bs);
    if |bs| >= 4 {
      hide ReadNumber;
      var n := Word(bs, 0);
      if |bs| >= 4 + n {
        assert bs[4..][..n] == bs[4..4 + n] && bs[4..][n..] == bs[4 + n..];
      }
    }
  }

  lemma {:induction false} TextsExactly(bs: seq<byte>, ss: seq<string>, rest: seq<byte>)
    ensures ReadStrings(bs, |ss|) == Ok(Read(ss, rest)) <==> StartsWithTexts(bs, ss, rest)
    decreases |ss|
  {
    hide ReadString;
    hide StartsWithText;
    if ss != [] {
      forall s, mid
        ensures ReadString(bs) == Ok(Read(s, mid)) <==> StartsWithText(bs, s, mid)
      {
        TextExactly(bs, s, mid);
      }
      if ReadString(bs).Ok? {
        var first := ReadString(bs).value;
        TextsExactly(first.rest, ss[1..], rest);
        assert ss == [ss[0]] + ss[1..];
        assert forall others: seq<string> :: ([first.value] + others)[1..] == others;
      }
    }
  }

  lemma OptionalExactly(bs: seq<byte>, there: bool, o: Option<string>, rest: seq<byte>)
    ensures ReadOptional(bs, there) == Ok(Read(o, rest)) <==> StartsWithOptional(bs, there, o, rest)
  {
    hide ReadString;
    hide StartsWithText;
    if o.Some? {
      TextExactly(bs, o.value, rest);
    }
  }

  lemma SignatureExactly(bs: seq<byte>, there: bool, o: Option<E.Signature>, rest: seq<byte>)
    ensures Binary.ReadSignature(bs, there) == Ok(Read(o, rest)) <==> StartsWithSignature(bs, there, o, rest)
  {
    NumberRead(bs);
    hide ReadStrings;
    hide StartsWithTexts;
    if there && bs != [] {
      hide ReadNumber;
      if o.Some? {
        TextsExactly(bs[1..], [o.value.keyId, o.value.value], rest);
      }
      if ReadStrings(bs[1..], 2).Ok? {
        var ss := ReadStrings(bs[1..], 2).value.value;
        assert ss == [ss[0], ss[1]];
      }
    }
  }

  /** The first 18 bytes of a frame that can be read. */
  predicate PlainStart(bs: seq<byte>) {
    |bs| >= 18 && bs[0] == 0x41 && bs[1] == 0x49 && bs[2] == 0x50 && bs[3] == 0x42 && bs[4] == 1
  }

  lemma PreambleRead(bs: seq<byte>)
    ensures if PlainStart(bs) then
              ReadPreamble(bs)
              == Ok(Read(Start(bs[5] as nat, ToDouble(Word(bs, 6) * 0x1_0000_0000 + Word(bs, 10)), Word(bs, 14)), bs[18..]))
            else ReadPreamble(bs).Err?
  {
    hide ToDouble;
    hide FromBigEndian;
    if |bs| >= 4 {
      NumberRead(bs[4..]);
      if |bs| >= 5 {
        assert bs[4..][1..] == bs[5..];
        NumberRead(bs[5..]);
        if |bs| >= 6 {
          assert bs[5..][1..] == bs[6..];
          NumberRead(bs[6..]);
          if |bs| >= 14 {
            assert bs[6..][8..] == bs[14..];
            NumberRead(bs[14..]);
            assert |bs| >= 18 ==> bs[14..][4..] == bs[18..];
          }
        }
      }
      assert bs[..4] == MAGIC <==> bs[0] == 0x41 && bs[1] == 0x49 && bs[2] == 0x50 && bs[3] == 0x42;
    }
  }

  /** The frame reads as the envelope: fields in order, the optional ones where their flags are set, nothing left over. */
  ghost predicate ReadsAs(
      bs: seq<byte>, limit: nat, e: E.Envelope, r0: seq<byte>, r1: seq<byte>, r2: seq<byte>, r3: seq<byte>)
  {
    var h, b := e.header, e.body;
    && |bs| <= limit && PlainStart(bs)
    && h.timestampMs == ToDouble(Word(bs, 6) * 0x1_0000_0000 + Word(bs, 10)) && h.ttlMs == Word(bs, 14)
    && StartsWithTexts(bs[18..], [h.version, h.messageId, h.sender, h.nonce, b.intent, b.content], r0)
    && h.version == "7h3/0.1" && b.intent in {"PING", "PONG", "CAPS", "TASK", "RESULT", "ERROR"}
    && StartsWithOptional(r0, bs[5] % 2 == 1, h.recipient, r1)
    && StartsWithOptional(r1, bs[5] / 2 % 2 == 1, b.capability, r2)
    && StartsWithOptional(r2, bs[5] / 4 % 2 == 1, b.correlationId, r3)
    && StartsWithSignature(r3, bs[5] / 8 % 2 == 1, e.signature, [])
  }

  lemma RestExactly(
      start: Start, ss: seq<string>, bs: seq<byte>, e: E.Envelope, r1: seq<byte>, r2: seq<byte>, r3: seq<byte>)
    requires |ss| == 6
    requires StartsWithOptional(bs, start.flags % 2 == 1, e.header.recipient, r1)
    requires StartsWithOptional(r1, start.flags / 2 % 2 == 1, e.body.capability, r2)
    requires StartsWithOptional(r2, start.flags / 4 % 2 == 1, e.body.correlationId, r3)
    requires StartsWithSignature(r3, start.flags / 8 % 2 == 1, e.signature, [])
    requires e.header == E.Header(ss[0], ss[1], start.timestampMs, start.ttlMs, ss[2], e.header.recipient, ss[3])
    requires e.body == E.Body(ss[4], ss[5], e.body.capability, e.body.correlationId)
    ensures DecodeRest(start, ss, bs) == Ok(e)
  {
    OptionalExactly(bs, start.flags % 2 == 1, e.header.recipient, r1);
    OptionalExactly(r1, start.flags / 2 % 2 == 1, e.body.capability, r2);
    OptionalExactly(r2, start.flags / 4 % 2 == 1, e.body.correlationId, r3);
    SignatureExactly(r3, start.flags / 8 % 2 == 1, e.signature, []);
    hide ReadOptional;
    hide Binary.ReadSignature;
    hide StartsWithOptional;
    hide StartsWithSignature;
  }

  lemma RestSound(start: Start, ss: seq<string>, bs: seq<byte>) returns (r1: seq<byte>, r2: seq<byte>, r3: seq<byte>)
    requires |ss| == 6 && DecodeRest(start, ss, bs).Ok?
    ensures var e := DecodeRest(start, ss, bs).value;
            && e.header == E.Header(ss[0], ss[1], start.timestampMs, start.ttlMs, ss[2], e.header.recipient, ss[3])
            && e.body == E.Body(ss[4], ss[5], e.body.capability, e.body.correlationId)
            && StartsWithOptional(bs, start.flags % 2 == 1, e.header.recipient, r1)
            && StartsWithOptional(r1, start.flags / 2 % 2 == 1, e.body.capability, r2)
            && StartsWithOptional(r2, start.flags / 4 % 2 == 1, e.body.correlationId, r3)
            && StartsWithSignature(r3, start.flags / 8 % 2 == 1, e.signature, [])
  {
    hide ReadOptional;
    hide Binary.ReadSignature;
    hide StartsWithOptional;
    hide StartsWithSignature;
    var e := DecodeRest(start, ss, bs).value;
    r1 := ReadOptional(bs, start.flags % 2 == 1).value.rest;
    r2 := ReadOptional(r1, start.flags / 2 % 2 == 1).value.rest;
    r3 := ReadOptional(r2, start.flags / 4 % 2 == 1).value.rest;
    OptionalExactly(bs, start.flags % 2 == 1, e.header.recipient, r1);
    OptionalExactly(r1, start.flags / 2 % 2 == 1, e.body.capability, r2);
    OptionalExactly(r2, start.flags / 4 % 2 == 1, e.body.correlationId, r3);
    SignatureExactly(r3, start.flags / 8 % 2 == 1, e.signature, []);
  }

  /** A frame is accepted exactly as the envelope it reads as. */
  lemma DecodeExactly(bs: seq<byte>, limit: nat, e: E.Envelope)
    ensures Binary.Decode(bs, limit) == Ok(e) <==> exists r0, r1, r2, r3 :: ReadsAs(bs, limit, e, r0, r1, r2, r3)
  {
    hide Binary.Decode;
    hide ReadsAs;
    if Binary.Decode(bs, limit) == Ok(e) {
      DecodeSound(bs, limit, e);
    }
    if exists r0, r1, r2, r3 :: ReadsAs(bs, limit, e, r0, r1, r2, r3) {
      var r0, r1, r2, r3 :| ReadsAs(bs, limit, e, r0, r1, r2, r3);
      DecodeComplete(bs, limit, e, r0, r1, r2, r3);
    }
  }

  lemma DecodeSound(bs: seq<byte>, limit: nat, e: E.Envelope)
    requires Binary.Decode(bs, limit) == Ok(e)
    ensures exists r0, r1, r2, r3 :: ReadsAs(bs, limit, e, r0, r1, r2, r3)
  {
    hide ReadPreamble;
    hide ReadStrings;
    hide DecodeRest;
    hide StartsWithTexts;
    hide StartsWithOptional;
    hide StartsWithSignature;
    hide ToDouble;
    hide Word;
    PreambleRead(bs);
    var start := ReadPreamble(bs).value.value;
    var ss := ReadStrings(bs[18..], 6).value;
    TextsExactly(bs[18..], ss.value, ss.rest);
    var r1, r2, r3 := RestSound(start, ss.value, ss.rest);
    var h, b := e.header, e.body;
    assert ss.value == [h.version, h.messageId, h.sender, h.nonce, b.intent, b.content];
    assert ReadsAs(bs, limit, e, ss.rest, r1, r2, r3);
  }

  lemma DecodeComplete(bs: seq<byte>, limit: nat, e: E.Envelope, r0: seq<byte>, r1: seq<byte>, r2: seq<byte>, r3: seq<byte>)
    requires ReadsAs(bs, limit, e, r0, r1, r2, r3)
    ensures Binary.Decode(bs, limit) == Ok(e)
  {
    hide ReadPreamble;
    hide ReadStrings;
    hide DecodeRest;
    hide StartsWithTexts;
    hide StartsWithOptional;
    hide StartsWithSignature;
    hide ToDouble;
    hide Word;
    var h, b := e.header, e.body;
    var ss := [h.version, h.messageId, h.sender, h.nonce, b.intent, b.content];
    PreambleRead(bs);
    TextsExactly(bs[18..], ss, r0);
    RestExactly(ReadPreamble(bs).value.value, ss, r0, e, r1, r2, r3);
  }
}
