/** Envelopes as CBOR maps with small integer keys (src/envelopeCbor.ts): decoding what was encoded gives back
    the envelope, and with it the canonical string its signature covers. */
module EnvelopeCbor {
  import opened Prelude
  import opened Bytes
  import opened Cbor
  import CborCodec
  import CborLaws
  import E = Envelope
  import Json
  import Text
  import Utf8

  // ---------------------------------------------------------------------------
  // Encoding
  // ---------------------------------------------------------------------------

  function TextAt(n: nat, s: string): Entry { Entry(IntKey(n), Value.Text(s)) }

  function OptionalAt(n: nat, o: Option<string>): seq<Entry> {
    if o.Some? then [TextAt(n, o.value)] else []
  }

  function HeaderEntries(h: E.Header): seq<Entry> {
    var upToSender :=
      [TextAt(1, h.version), TextAt(2, h.messageId), Entry(IntKey(3), Int(h.timestampMs)), Entry(IntKey(4), Int(h.ttlMs)), TextAt(5, h.sender)];
    upToSender + OptionalAt(6, h.recipient) + [TextAt(7, h.nonce)]
  }

  function BodyEntries(b: E.Body): seq<Entry> {
    [TextAt(1, b.intent), TextAt(2, b.content)] + OptionalAt(3, b.capability) + OptionalAt(4, b.correlationId)
  }

  function SignatureEntries(s: E.Signature): seq<Entry> {
    [TextAt(1, s.alg), TextAt(2, s.keyId), TextAt(3, s.value)]
  }

  function TopEntries(e: E.Envelope): seq<Entry> {
    [Entry(IntKey(1), Map(HeaderEntries(e.header))), Entry(IntKey(2), Map(BodyEntries(e.body)))]
    + (if e.signature.Some? then [Entry(IntKey(3), Map(SignatureEntries(e.signature.value)))] else [])
  }

  method EncodeEnvelopeCbor(env: E.Envelope) returns (bytes: seq<byte>)
    ensures bytes == Cbor.Encode(Map(TopEntries(env)))
  {
    var headerMap := [TextAt(1, env.header.version)];
    headerMap := headerMap + [TextAt(2, env.header.messageId)];
    headerMap := headerMap + [Entry(IntKey(3), Int(env.header.timestampMs))];
    headerMap := headerMap + [Entry(IntKey(4), Int(env.header.ttlMs))];
    headerMap := headerMap + [TextAt(5, env.header.sender)];
    if env.header.recipient.Some? {
      headerMap := headerMap + [TextAt(6, env.header.recipient.value)];
    }
    headerMap := headerMap + [TextAt(7, env.header.nonce)];
    assert headerMap == HeaderEntries(env.header);

    var bodyMap := [TextAt(1, env.body.intent)];
    bodyMap := bodyMap + [TextAt(2, env.body.content)];
    if env.body.capability.Some? {
      bodyMap := bodyMap + [TextAt(3, env.body.capability.value)];
    }
    if env.body.correlationId.Some? {
      bodyMap := bodyMap + [TextAt(4, env.body.correlationId.value)];
    }
    assert bodyMap == BodyEntries(env.body);

    var topMap := [Entry(IntKey(1), Map(headerMap))];
    topMap := topMap + [Entry(IntKey(2), Map(bodyMap))];
    if env.signature.Some? {
      var sig := env.signature.value;
      topMap := topMap + [Entry(IntKey(3), Map([TextAt(1, sig.alg), TextAt(2, sig.keyId), TextAt(3, sig.value)]))];
    }
    assert topMap == TopEntries(env);
    var encoder := new CborCodec.CborEncoder();
    bytes := encoder.Encode(Map(topMap));
  }

  // ---------------------------------------------------------------------------
  // Decoding
  // ---------------------------------------------------------------------------

  datatype Fault =
    | Malformed(error: Cbor.Error)
    | TopNotMap
    | MissingHeader
    | MissingBody
    | NotString(field: string)
    | NotFiniteNumber(field: string)
    | SignatureNotMap

  /** Objects and byte strings pass the shape tests of the decoder; arrays and scalars do not. */
  predicate ObjectLike(d: Data) { d.DObject? || d.DBytes? }

  /** `record['n']`: a property of an object, or an element of a byte string. */
  function Property(d: Data, n: nat): Option<Data> {
    if d.DObject? && Text.IntText(n) in d.fields then Some(d.fields[Text.IntText(n)])
    else if d.DBytes? && n < |d.bs| then Some(DInt(d.bs[n] as int))
    else None
  }

  function ExpectString(d: Option<Data>, field: string): Result<string, Fault> {
    if d.Some? && d.value.DText? then Ok(d.value.s) else Err(NotString(field))
  }

  function ExpectOptionalString(d: Option<Data>, field: string): Result<Option<string>, Fault> {
    if d.None? then Ok(None)
    else
      var s :- ExpectString(d, field);
      Ok(Some(s))
  }

  function ExpectFiniteNumber(d: Option<Data>, field: string): Result<int, Fault> {
    if d.Some? && d.value.DInt? then Ok(d.value.i) else Err(NotFiniteNumber(field))
  }

  function ReadSignature(d: Option<Data>): Result<Option<E.Signature>, Fault> {
    if d.None? || d.value.DNull? then Ok(None)
    else if !ObjectLike(d.value) then Err(SignatureNotMap)
    else
      var alg :- ExpectString(Property(d.value, 1), "signature.alg");
      var keyId :- ExpectString(Property(d.value, 2), "signature.keyId");
      var value :- ExpectString(Property(d.value, 3), "signature.value");
      Ok(Some(E.Signature(alg, keyId, value)))
  }

  /** The fields, in the order the decoder checks them. */
  function ReadEnvelope(top: Data): Result<E.Envelope, Fault> {
    if !ObjectLike(top) then Err(TopNotMap)
    else
      var header, body := Property(top, 1), Property(top, 2);
      if header.None? || !ObjectLike(header.value) then Err(MissingHeader)
      else if body.None? || !ObjectLike(body.value) then Err(MissingBody)
      else
        var hr, br := header.value, body.value;
        var version :- ExpectString(Property(hr, 1), "header.version");
        var messageId :- ExpectString(Property(hr, 2), "header.messageId");
        var timestampMs :- ExpectFiniteNumber(Property(hr, 3), "header.timestampMs");
        var ttlMs :- ExpectFiniteNumber(Property(hr, 4), "header.ttlMs");
        var sender :- ExpectString(Property(hr, 5), "header.sender");
        var nonce :- ExpectString(Property(hr, 7), "header.nonce");
        var intent :- ExpectString(Property(br, 1), "body.intent");
        var content :- ExpectString(Property(br, 2), "body.content");
        var recipient :- ExpectOptionalString(Property(hr, 6), "header.recipient");
        var capability :- ExpectOptionalString(Property(br, 3), "body.capability");
        var correlationId :- ExpectOptionalString(Property(br, 4), "body.correlationId");
        var signature :- ReadSignature(Property(top, 3));
        Ok(E.Envelope(
          E.Header(version, messageId, timestampMs, ttlMs, sender, recipient, nonce),
          E.Body(intent, content, capability, correlationId), signature))
  }

  method DecodeEnvelopeCbor(data: seq<byte>, printer: KeyPrinter) returns (r: Result<E.Envelope, Fault>)
    ensures match Cbor.DecodeItem(data, 0, printer)
            case Err(e) => r == Err(Malformed(e))
            case Ok((top, _)) => r == ReadEnvelope(top)
  {
    var decoder := new CborCodec.CborDecoder(printer);
    var top := decoder.Decode(data);
    if top.Err? {
      return Err(Malformed(top.error));
    }
    return ReadEnvelope(top.value);
  }

  // ---------------------------------------------------------------------------
  // Round trip
  // ---------------------------------------------------------------------------

  /** Keys 1, 2, 3, … each used at most once, in order. */
  predicate Numbered(es: seq<Entry>) {
    && (forall i | 0 <= i < |es| :: es[i].key.IntKey? && es[i].key.n <= MAX_SAFE)
    && (forall i, j | 0 <= i < j < |es| :: es[i].key.n < es[j].key.n)
  }

  lemma NumberedDistinct(es: seq<Entry>)
    requires Numbered(es)
    ensures DistinctNames(es)
  {
    forall i, j | 0 <= i < j < |es|
      ensures KeyName(es[i].key) != KeyName(es[j].key)
    {
      if KeyName(es[i].key) == KeyName(es[j].key) {
        Text.IntTextInjective(es[i].key.n, es[j].key.n);
      }
    }
  }

  /** Looking up what a map decodes to finds each entry, and nothing else. */
  lemma PropertyPresent(es: seq<Entry>, e: Entry)
    requires Numbered(es) && e in es
    ensures e.key.IntKey? && Property(Means(Map(es)), e.key.n) == Some(Means(e.value))
  {
    hide Means;
    NumberedDistinct(es);
    MeansMap(es);
    CborLaws.FieldsLookup(Map(es), es);
  }

  lemma PropertyAbsent(es: seq<Entry>, n: nat)
    requires Numbered(es) && forall e | e in es :: e.key != IntKey(n)
    ensures Property(Means(Map(es)), n) == None
  {
    hide Means;
    NumberedDistinct(es);
    MeansMap(es);
    CborLaws.FieldsLookup(Map(es), es);
    forall e | e in es
      ensures KeyName(e.key) != Text.IntText(n)
    {
      if KeyName(e.key) == Text.IntText(n) {
        Text.IntTextInjective(e.key.n, n);
      }
    }
  }

  lemma MeansMap(es: seq<Entry>)
    ensures Means(Map(es)) == DObject(FieldsOf(Map(es), es))
  {
  }

  lemma {:induction false} HeightBound(v: Value, es: seq<Entry>, h: nat)
    requires v.Map? && (forall e | e in es :: e in v.entries) && forall e | e in es :: Height(e.value) <= h
    ensures EntriesHeight(v, es) <= h
    decreases |es|
  {
    hide Height;
    if es != [] {
      assert es[0] in es;
      HeightBound(v, es[1..], h);
    }
  }

  lemma MapHeight(es: seq<Entry>, h: nat)
    requires forall e | e in es :: Height(e.value) <= h
    ensures Height(Map(es)) <= 1 + h
  {
    HeightBound(Map(es), SortEntries(es), h);
  }

  /** Safe integers, and text no longer than a double can count. */
  predicate ScalarsFit(es: seq<Entry>) {
    forall e | e in es :: (e.value.Text? && TextOk(e.value.s)) || (e.value.Int? && SafeInteger(e.value.i))
  }

  lemma ScalarsEncodable(es: seq<Entry>)
    requires ScalarsFit(es) && Numbered(es) && |es| <= 7
    ensures Encodable(Map(es)) && Height(Map(es)) <= 2
  {
    NumberedDistinct(es);
    MapHeight(es, 1);
  }

  predicate Fits(env: E.Envelope) {
    && ScalarsFit(HeaderEntries(env.header)) && ScalarsFit(BodyEntries(env.body))
    && (env.signature.Some? ==> ScalarsFit(SignatureEntries(env.signature.value)))
  }

  lemma TopEncodable(env: E.Envelope)
    requires Fits(env)
    ensures Encodable(Map(TopEntries(env))) && Height(Map(TopEntries(env))) <= 3
  {
    hide Encodable;
    hide Height;
    hide ScalarsFit;
    hide HeaderEntries;
    HeaderNumbered(env.header);
    ScalarsEncodable(HeaderEntries(env.header));
    ScalarsEncodable(BodyEntries(env.body));
    if env.signature.Some? {
      ScalarsEncodable(SignatureEntries(env.signature.value));
    }
    hide BodyEntries;
    hide SignatureEntries;
    MapsEncodable(TopEntries(env));
  }

  lemma MapsEncodable(es: seq<Entry>)
    requires Numbered(es) && |es| <= 7 && forall e | e in es :: Encodable(e.value) && Height(e.value) <= 2
    ensures Encodable(Map(es)) && Height(Map(es)) <= 3
  {
    MapHeight(es, 2);
    NumberedDistinct(es);
    hide Height;
    hide DistinctNames;
    forall e | e in es
      ensures KeyOk(e.key) && Encodable(e.value)
    {
      var i :| 0 <= i < |es| && es[i] == e;
    }
  }

  lemma MeansScalar(n: nat, s: string, i: int)
    ensures Means(TextAt(n, s).value) == DText(Utf8.Kept(s)) && Means(Int(i)) == DInt(i)
  {
  }

  // What each text field comes back as.

  function KeptOption(o: Option<string>): Option<string> { if o.Some? then Some(Utf8.Kept(o.value)) else None }

  function KeptHeader(h: E.Header): E.Header {
    E.Header(Utf8.Kept(h.version), Utf8.Kept(h.messageId), h.timestampMs, h.ttlMs, Utf8.Kept(h.sender), KeptOption(h.recipient), Utf8.Kept(h.nonce))
  }

  function KeptBody(b: E.Body): E.Body {
    E.Body(Utf8.Kept(b.intent), Utf8.Kept(b.content), KeptOption(b.capability), KeptOption(b.correlationId))
  }

  function KeptSignature(s: Option<E.Signature>): Option<E.Signature> {
    if s.Some? then Some(E.Signature(Utf8.Kept(s.value.alg), Utf8.Kept(s.value.keyId), Utf8.Kept(s.value.value))) else None
  }

  predicate BomOption(o: Option<string>) { o.Some? && Utf8.LeadingBom(o.value) }

  /** Some text field of the envelope starts with U+FEFF. */
  predicate HasBom(env: E.Envelope) {
    var h, b := env.header, env.body;
    || Utf8.LeadingBom(h.version) || Utf8.LeadingBom(h.messageId) || Utf8.LeadingBom(h.sender) || BomOption(h.recipient)
    || Utf8.LeadingBom(h.nonce) || Utf8.LeadingBom(b.intent) || Utf8.LeadingBom(b.content) || BomOption(b.capability)
    || BomOption(b.correlationId)
    || (env.signature.Some?
        && (Utf8.LeadingBom(env.signature.value.alg) || Utf8.LeadingBom(env.signature.value.keyId) || Utf8.LeadingBom(env.signature.value.value)))
  }

  /** The header's entries by position: the optional recipient, when there is one, is the sixth. */
  lemma HeaderPositions(h: E.Header)
    ensures var es := HeaderEntries(h);
            && |es| == (if h.recipient.Some? then 7 else 6)
            && es[0] == TextAt(1, h.version) && es[1] == TextAt(2, h.messageId) && es[2] == Entry(IntKey(3), Int(h.timestampMs))
            && es[3] == Entry(IntKey(4), Int(h.ttlMs)) && es[4] == TextAt(5, h.sender)
            && (if h.recipient.Some? then es[5] == TextAt(6, h.recipient.value) && es[6] == TextAt(7, h.nonce)
                else es[5] == TextAt(7, h.nonce))
  {
  }

  lemma HeaderNumbered(h: E.Header)
    ensures Numbered(HeaderEntries(h)) && |HeaderEntries(h)| <= 7
    ensures h.recipient.None? ==> forall e | e in HeaderEntries(h) :: e.key != IntKey(6)
  {
    HeaderPositions(h);
    hide HeaderEntries;
  }

  lemma HeaderComesBack(h: E.Header)
    ensures var d, k := Means(Map(HeaderEntries(h))), KeptHeader(h);
            && ObjectLike(d)
            && Property(d, 1) == Some(DText(k.version)) && Property(d, 2) == Some(DText(k.messageId))
            && Property(d, 3) == Some(DInt(k.timestampMs)) && Property(d, 4) == Some(DInt(k.ttlMs))
            && Property(d, 5) == Some(DText(k.sender)) && Property(d, 7) == Some(DText(k.nonce))
            && Property(d, 6) == if k.recipient.Some? then Some(DText(k.recipient.value)) else None
  {
    var es := HeaderEntries(h);
    MeansMap(es);
    MeansScalar(1, h.version, h.timestampMs);
    MeansScalar(2, h.messageId, h.ttlMs);
    MeansScalar(5, h.sender, 0);
    MeansScalar(7, h.nonce, 0);
    MeansScalar(6, if h.recipient.Some? then h.recipient.value else "", 0);
    hide Means;
    hide Property;
    hide HeaderEntries;
    hide Numbered;
    HeaderPositions(h);
    HeaderNumbered(h);
    if h.recipient.None? {
      PropertyAbsent(es, 6);
    }
    if h.recipient.Some? {
      PropertyPresent(es, es[5]);
    }
    PropertyPresent(es, es[0]);
    PropertyPresent(es, es[1]);
    PropertyPresent(es, es[2]);
    PropertyPresent(es, es[3]);
    PropertyPresent(es, es[4]);
    PropertyPresent(es, es[|es| - 1]);
  }

  lemma BodyComesBack(b: E.Body)
    ensures var d, k := Means(Map(BodyEntries(b))), KeptBody(b);
            && ObjectLike(d)
            && Property(d, 1) == Some(DText(k.intent)) && Property(d, 2) == Some(DText(k.content))
            && Property(d, 3) == (if k.capability.Some? then Some(DText(k.capability.value)) else None)
            && Property(d, 4) == (if k.correlationId.Some? then Some(DText(k.correlationId.value)) else None)
  {
    var es := BodyEntries(b);
    MeansMap(es);
    hide Property;
    PropertyPresent(es, TextAt(1, b.intent));
    PropertyPresent(es, TextAt(2, b.content));
    if b.capability.Some? {
      PropertyPresent(es, TextAt(3, b.capability.value));
    } else {
      PropertyAbsent(es, 3);
    }
    if b.correlationId.Some? {
      PropertyPresent(es, TextAt(4, b.correlationId.value));
    } else {
      PropertyAbsent(es, 4);
    }
  }

  lemma SignatureComesBack(s: E.Signature)
    ensures ReadSignature(Some(Means(Map(SignatureEntries(s))))) == Ok(KeptSignature(Some(s)))
  {
    var es := SignatureEntries(s);
    MeansMap(es);
    hide Property;
    PropertyPresent(es, TextAt(1, s.alg));
    PropertyPresent(es, TextAt(2, s.keyId));
    PropertyPresent(es, TextAt(3, s.value));
  }

  lemma TopComesBack(env: E.Envelope)
    ensures var d := Means(Map(TopEntries(env)));
            && ObjectLike(d)
            && Property(d, 1) == Some(Means(Map(HeaderEntries(env.header))))
            && Property(d, 2) == Some(Means(Map(BodyEntries(env.body))))
            && Property(d, 3)
               == if env.signature.Some? then Some(Means(Map(SignatureEntries(env.signature.value)))) else None
  {
    var es := TopEntries(env);
    MeansMap(es);
    hide Property;
    hide Means;
    hide HeaderEntries;
    hide BodyEntries;
    hide SignatureEntries;
    PropertyPresent(es, Entry(IntKey(1), Map(HeaderEntries(env.header))));
    PropertyPresent(es, Entry(IntKey(2), Map(BodyEntries(env.body))));
    if env.signature.Some? {
      PropertyPresent(es, Entry(IntKey(3), Map(SignatureEntries(env.signature.value))));
    } else {
      PropertyAbsent(es, 3);
    }
  }

  function Kept(env: E.Envelope): E.Envelope {
    E.Envelope(KeptHeader(env.header), KeptBody(env.body), KeptSignature(env.signature))
  }

  lemma ReadsBack(env: E.Envelope)
    ensures ReadEnvelope(Means(Map(TopEntries(env)))) == Ok(Kept(env))
  {
    hide Means;
    hide Property;
    hide HeaderEntries;
    hide BodyEntries;
    hide SignatureEntries;
    TopComesBack(env);
    HeaderComesBack(env.header);
    BodyComesBack(env.body);
    if env.signature.Some? {
      SignatureComesBack(env.signature.value);
    }
  }

  /** The decoder gives back the encoded envelope exactly when no text field starts with a byte order mark. */
  lemma RoundTrip(env: E.Envelope, printer: KeyPrinter)
    requires Fits(env)
    ensures var item := DecodeItem(Encode(Map(TopEntries(env))), 0, printer);
            item.Ok? && ReadEnvelope(item.value.0) == Ok(Kept(env))
    ensures Kept(env) == env <==> !HasBom(env)
  {
    hide Encode;
    hide Means;
    hide Encodable;
    hide DecodeItem;
    hide Height;
    var v := Map(TopEntries(env));
    TopEncodable(env);
    CborLaws.RoundTrip(v, [], 0, printer);
    assert Encode(v) + [] == Encode(v);
    hide ReadEnvelope;
    ReadsBack(env);
    KeptShorter(env);
  }

  lemma KeptShorter(env: E.Envelope)
    ensures Kept(env) == env <==> !HasBom(env)
  {
    var h, k := env.header, KeptHeader(env.header);
    assert Utf8.LeadingBom(h.version) ==> |k.version| < |h.version|;
  }

  /** What comes out of encoding and decoding. */
  function Reencoded(env: E.Envelope, printer: KeyPrinter): Option<E.Envelope> {
    match DecodeItem(Encode(Map(TopEntries(env))), 0, printer)
    case Err(_) => None
    case Ok((top, _)) =>
      match ReadEnvelope(top)
      case Err(_) => None
      case Ok(decoded) => Some(decoded)
  }

  /** The signed bytes survive a trip through CBOR: the decoded envelope has the canonical string of the encoded one
      exactly when no text field of header or body starts with a byte order mark. */
  lemma CanonicalStringSurvives(env: E.Envelope, printer: KeyPrinter)
    requires Fits(env)
    ensures var decoded := Reencoded(env, printer);
            && decoded.Some?
            && (Json.Print(E.EnvelopeValue(decoded.value)) == Json.Print(E.EnvelopeValue(env)) <==> !HasBom(env.(signature := None)))
  {
    RoundTrip(env, printer);
    assert Reencoded(env, printer) == Some(Kept(env)) by {
      hide ReadEnvelope;
      hide DecodeItem;
      hide Encode;
    }
    hide Reencoded;
    KeptShorter(env.(signature := None));
    if Json.Print(E.EnvelopeValue(Kept(env))) == Json.Print(E.EnvelopeValue(env)) {
      E.CanonicalInjective(Kept(env), env);
    }
  }
}
