/** CBOR envelopes byte by byte (src/envelopeCbor.ts): the keys of the fields, and which data are read as which
    envelopes. */
module EnvelopeCborFormat {
  import opened Prelude
  import opened Bytes
  import opened Cbor
  import opened CborOrder
  import opened CborFormat
  import opened EnvelopeCbor
  import E = Envelope
  import Text

  // ---------------------------------------------------------------------------
  // What is written
  // ---------------------------------------------------------------------------

  predicate SmallKeys(es: seq<Entry>) {
    && (forall i | 0 <= i < |es| :: es[i].key.IntKey? && es[i].key.n <= 23)
    && forall i, j | 0 <= i < j < |es| :: es[i].key.n < es[j].key.n
  }

  /** Small integer keys are written in their own order. */
  lemma SmallKeysStay(es: seq<Entry>)
    requires SmallKeys(es)
    ensures SortEntries(es) == es
  {
    forall i, j | 0 <= i < j < |es|
      ensures KeyLess(es[i].key, es[j].key)
    {
      var a, b := Ints(Head(0, es[i].key.n)), Ints(Head(0, es[j].key.n));
      assert a == [es[i].key.n] && b == [es[j].key.n];
    }
    assert KeysOk(es) by {
      forall e | e in es
        ensures KeyOk(e.key)
      {
        var i :| 0 <= i < |es| && es[i] == e;
      }
    }
    OrderFixed(es, es);
  }

  /** A small integer key is one byte. */
  function KeyByte(k: Key): byte { if k.IntKey? && k.n <= 23 then k.n as byte else 0 }

  /** The entries of a map with such keys: the byte of the key before each value. */
  function Keyed(es: seq<Entry>): seq<byte> {
    if es == [] then [] else [KeyByte(es[0].key)] + Cbor.Encode(es[0].value) + Keyed(es[1..])
  }

  lemma {:induction false} KeyedIsEncoded(v: Value, es: seq<Entry>)
    requires v.Map? && (forall e | e in es :: e in v.entries) && SmallKeys(es)
    ensures EncodeEntries(v, es) == Keyed(es)
    decreases |es|
  {
    hide Cbor.Encode;
    if es != [] {
      assert es[0] in es && forall e | e in es[1..] :: e in es;
      KeyedIsEncoded(v, es[1..]);
    }
  }

  /** A map with fewer than 24 small keys: 0xA0 and the number of entries, then the entries. */
  lemma SmallMap(es: seq<Entry>)
    requires SmallKeys(es) && |es| <= 23
    ensures Cbor.Encode(Map(es)) == [0xA0 + |es| as byte] + Keyed(es)
  {
    hide SortEntries;
    hide Cbor.Encode;
    hide Keyed;
    hide EncodeEntries;
    hide SmallKeys;
    SmallKeysStay(es);
    MapEncoding(es);
    KeyedIsEncoded(Map(es), es);
    SmallHead(|es|);
    hide Head;
  }

  lemma SmallHead(n: nat)
    requires n <= 23
    ensures Head(5, n) == [0xA0 + n as byte]
  {
  }

  /** A field: its key and its text, with the length before it. */
  function Field(key: byte, s: string): seq<byte> { [key] + EncodedText(s) }

  function IfThere(key: byte, o: Option<string>): seq<byte> { if o.Some? then Field(key, o.value) else [] }

  function Count(o: Option<string>): byte { if o.Some? then 1 else 0 }

  function HeaderBytes(h: E.Header): seq<byte> {
    [0xA6 + Count(h.recipient)] + Field(1, h.version) + Field(2, h.messageId) + [3] + Cbor.Encode(Int(h.timestampMs))
    + [4] + Cbor.Encode(Int(h.ttlMs)) + Field(5, h.sender) + IfThere(6, h.recipient) + Field(7, h.nonce)
  }

  function BodyBytes(b: E.Body): seq<byte> {
    [0xA2 + Count(b.capability) + Count(b.correlationId)]
    + Field(1, b.intent) + Field(2, b.content) + IfThere(3, b.capability) + IfThere(4, b.correlationId)
  }

  function SignedBytes(s: E.Signature): seq<byte> { [0xA3] + Field(1, s.alg) + Field(2, s.keyId) + Field(3, s.value) }

  function EnvelopeBytes(e: E.Envelope): seq<byte> {
    [if e.signature.Some? then 0xA3 else 0xA2] + [1] + HeaderBytes(e.header) + [2] + BodyBytes(e.body)
    + (if e.signature.Some? then [3] + SignedBytes(e.signature.value) else [])
  }

  lemma {:induction false} KeyedBoth(es: seq<Entry>, fs: seq<Entry>)
    ensures Keyed(es + fs) == Keyed(es) + Keyed(fs)
    decreases |es|
  {
    hide Cbor.Encode;
    if es == [] {
      assert es + fs == fs;
    } else {
      assert (es + fs)[0] == es[0] && (es + fs)[1..] == es[1..] + fs;
      KeyedBoth(es[1..], fs);
      Associate([KeyByte(es[0].key)] + Cbor.Encode(es[0].value), Keyed(es[1..]), Keyed(fs));
    }
  }

  lemma KeyedOne(e: Entry)
    ensures Keyed([e]) == [KeyByte(e.key)] + Cbor.Encode(e.value)
  {
    assert [e][1..] == [] && Keyed([e][1..]) == [];
    hide Cbor.Encode;
    assert [KeyByte(e.key)] + Cbor.Encode(e.value) + [] == [KeyByte(e.key)] + Cbor.Encode(e.value);
  }

  lemma KeyedOptional(n: nat, o: Option<string>)
    requires n <= 23
    ensures Keyed(OptionalAt(n, o)) == IfThere(n as byte, o)
  {
    hide EncodedText;
    if o.Some? {
      KeyedOne(TextAt(n, o.value));
      assert Cbor.Encode(Value.Text(o.value)) == EncodedText(o.value);
    }
  }

  lemma KeyedText(n: nat, s: string)
    requires n <= 23
    ensures Keyed([TextAt(n, s)]) == Field(n as byte, s)
  {
    KeyedOne(TextAt(n, s));
    assert Cbor.Encode(Value.Text(s)) == EncodedText(s);
  }

  lemma KeyedInt(n: nat, i: int)
    requires n <= 23
    ensures Keyed([Entry(IntKey(n), Int(i))]) == [n as byte] + Cbor.Encode(Int(i))
  {
    KeyedOne(Entry(IntKey(n), Int(i)));
  }

  lemma KeyedMap(n: nat, es: seq<Entry>)
    requires n <= 23
    ensures Keyed([Entry(IntKey(n), Map(es))]) == [n as byte] + Cbor.Encode(Map(es))
  {
    KeyedOne(Entry(IntKey(n), Map(es)));
  }

  lemma HeaderSmall(h: E.Header)
    ensures SmallKeys(HeaderEntries(h))
  {
  }

  lemma SevenKeyed(
      a: seq<Entry>, b: seq<Entry>, c: seq<Entry>, d: seq<Entry>, e: seq<Entry>, f: seq<Entry>, g: seq<Entry>)
    ensures Keyed(a + (b + (c + (d + (e + (f + g))))))
            == Keyed(a) + Keyed(b) + Keyed(c) + Keyed(d) + Keyed(e) + Keyed(f) + Keyed(g)
  {
    hide Keyed;
    KeyedBoth(a, b + (c + (d + (e + (f + g)))));
    KeyedBoth(b, c + (d + (e + (f + g))));
    KeyedBoth(c, d + (e + (f + g)));
    KeyedBoth(d, e + (f + g));
    KeyedBoth(e, f + g);
    KeyedBoth(f, g);
  }

  lemma HeaderWritten(h: E.Header)
    ensures Cbor.Encode(Map(HeaderEntries(h))) == HeaderBytes(h)
  {
    hide Cbor.Encode;
    hide EncodedText;
    hide Keyed;
    hide Field;
    hide IfThere;
    hide SmallKeys;
    var r := OptionalAt(6, h.recipient);
    HeaderSmall(h);
    assert HeaderEntries(h)
        == [TextAt(1, h.version)] + ([TextAt(2, h.messageId)] + ([Entry(IntKey(3), Int(h.timestampMs))]
           + ([Entry(IntKey(4), Int(h.ttlMs))] + ([TextAt(5, h.sender)] + (r + [TextAt(7, h.nonce)])))));
    SmallMap(HeaderEntries(h));
    SevenKeyed(
      [TextAt(1, h.version)], [TextAt(2, h.messageId)], [Entry(IntKey(3), Int(h.timestampMs))], [Entry(IntKey(4), Int(h.ttlMs))],
      [TextAt(5, h.sender)], r, [TextAt(7, h.nonce)]);
    KeyedText(1, h.version);
    KeyedText(2, h.messageId);
    KeyedInt(3, h.timestampMs);
    KeyedInt(4, h.ttlMs);
    KeyedText(5, h.sender);
    KeyedOptional(6, h.recipient);
    KeyedText(7, h.nonce);
    assert |HeaderEntries(h)| == 6 + Count(h.recipient) as nat;
    hide HeaderEntries;
    hide OptionalAt;
  }

  lemma BodyWritten(b: E.Body)
    ensures Cbor.Encode(Map(BodyEntries(b))) == BodyBytes(b)
  {
    hide Cbor.Encode;
    hide EncodedText;
    hide Keyed;
    hide Field;
    hide IfThere;
    var x, y, c, d := [TextAt(1, b.intent)], [TextAt(2, b.content)], OptionalAt(3, b.capability), OptionalAt(4, b.correlationId);
    var es := x + (y + (c + d));
    assert BodyEntries(b) == es;
    assert SmallKeys(es);
    hide SmallKeys;
    SmallMap(es);
    KeyedBoth(x, y + (c + d));
    KeyedBoth(y, c + d);
    KeyedBoth(c, d);
    KeyedText(1, b.intent);
    KeyedText(2, b.content);
    KeyedOptional(3, b.capability);
    KeyedOptional(4, b.correlationId);
  }

  lemma SignatureWritten(s: E.Signature)
    ensures Cbor.Encode(Map(SignatureEntries(s))) == SignedBytes(s)
  {
    hide Cbor.Encode;
    hide EncodedText;
    hide Keyed;
    hide Field;
    var a, b, c := [TextAt(1, s.alg)], [TextAt(2, s.keyId)], [TextAt(3, s.value)];
    var es := a + (b + c);
    assert SignatureEntries(s) == es;
    assert SmallKeys(es);
    hide SmallKeys;
    SmallMap(es);
    KeyedBoth(a, b + c);
    KeyedBoth(b, c);
    KeyedText(1, s.alg);
    KeyedText(2, s.keyId);
    KeyedText(3, s.value);
  }

  /** An envelope on the wire: header, body and signature under 1, 2 and 3, their fields under the numbers above. */
  lemma EnvelopeWritten(e: E.Envelope)
    ensures Cbor.Encode(Map(TopEntries(e))) == EnvelopeBytes(e)
  {
    hide Cbor.Encode;
    hide Keyed;
    hide HeaderBytes;
    hide BodyBytes;
    hide SignedBytes;
    hide HeaderEntries;
    hide BodyEntries;
    hide SignatureEntries;
    var a, b := [Entry(IntKey(1), Map(HeaderEntries(e.header)))], [Entry(IntKey(2), Map(BodyEntries(e.body)))];
    var c := if e.signature.Some? then [Entry(IntKey(3), Map(SignatureEntries(e.signature.value)))] else [];
    var es := a + (b + c);
    assert TopEntries(e) == es;
    assert SmallKeys(es);
    hide SmallKeys;
    SmallMap(es);
    KeyedBoth(a, b + c);
    KeyedBoth(b, c);
    KeyedMap(1, HeaderEntries(e.header));
    KeyedMap(2, BodyEntries(e.body));
    HeaderWritten(e.header);
    BodyWritten(e.body);
    if e.signature.Some? {
      KeyedMap(3, SignatureEntries(e.signature.value));
      SignatureWritten(e.signature.value);
    } else {
      NothingKeyed();
    }
  }

  lemma NothingKeyed()
    ensures Keyed([]) == []
  {
  }

  // ---------------------------------------------------------------------------
  // What is read
  // ---------------------------------------------------------------------------

  predicate TextUnder(d: Data, key: string, s: string) { d.DObject? && key in d.fields && d.fields[key] == DText(s) }

  predicate NumberUnder(d: Data, key: string, i: int) { d.DObject? && key in d.fields && d.fields[key] == DInt(i) }

  predicate OptionalUnder(d: Data, key: string, o: Option<string>) {
    d.DObject? && if key in d.fields then o.Some? && d.fields[key] == DText(o.value) else o == None
  }

  predicate HeaderUnder(d: Data, h: E.Header) {
    && TextUnder(d, "1", h.version) && TextUnder(d, "2", h.messageId)
    && NumberUnder(d, "3", h.timestampMs) && NumberUnder(d, "4", h.ttlMs)
    && TextUnder(d, "5", h.sender) && OptionalUnder(d, "6", h.recipient) && TextUnder(d, "7", h.nonce)
  }

  predicate BodyUnder(d: Data, b: E.Body) {
    && TextUnder(d, "1", b.intent) && TextUnder(d, "2", b.content)
    && OptionalUnder(d, "3", b.capability) && OptionalUnder(d, "4", b.correlationId)
  }

  predicate SignatureUnder(d: Data, o: Option<E.Signature>) {
    d.DObject?
    && match o
       case None => "3" !in d.fields || d.fields["3"] == DNull
       case Some(s) =>
         && "3" in d.fields && TextUnder(d.fields["3"], "1", s.alg) && TextUnder(d.fields["3"], "2", s.keyId)
         && TextUnder(d.fields["3"], "3", s.value)
  }

  lemma Digits()
    ensures Text.IntText(1) == "1" && Text.IntText(2) == "2" && Text.IntText(3) == "3" && Text.IntText(4) == "4"
    ensures Text.IntText(5) == "5" && Text.IntText(6) == "6" && Text.IntText(7) == "7"
  {
  }

  lemma TextRead(d: Data, n: nat, key: string, s: string, field: string)
    requires Text.IntText(n) == key
    ensures ExpectString(Property(d, n), field) == Ok(s) <==> TextUnder(d, key, s)
  {
  }

  lemma NumberRead(d: Data, n: nat, key: string, i: int, field: string)
    requires Text.IntText(n) == key && !d.DBytes?
    ensures ExpectFiniteNumber(Property(d, n), field) == Ok(i) <==> NumberUnder(d, key, i)
  {
  }

  lemma OptionalRead(d: Data, n: nat, key: string, o: Option<string>, field: string)
    requires Text.IntText(n) == key && d.DObject?
    ensures ExpectOptionalString(Property(d, n), field) == Ok(o) <==> OptionalUnder(d, key, o)
  {
  }

  lemma SignatureRead(top: Data, o: Option<E.Signature>)
    requires top.DObject?
    ensures EnvelopeCbor.ReadSignature(Property(top, 3)) == Ok(o) <==> SignatureUnder(top, o)
  {
    Digits();
    if o.Some? && "3" in top.fields {
      var d := top.fields["3"];
      TextRead(d, 1, "1", o.value.alg, "signature.alg");
      TextRead(d, 2, "2", o.value.keyId, "signature.keyId");
      TextRead(d, 3, "3", o.value.value, "signature.value");
    }
    hide Text.IntText;
  }

  /** Decoded data are accepted exactly as the envelope whose fields they hold under those keys; other keys do not
      matter. */
  lemma ReadExactly(top: Data, e: E.Envelope)
    ensures ReadEnvelope(top) == Ok(e) <==>
              && top.DObject? && "1" in top.fields && "2" in top.fields
              && HeaderUnder(top.fields["1"], e.header) && BodyUnder(top.fields["2"], e.body) && SignatureUnder(top, e.signature)
  {
    Digits();
    hide Text.IntText;
    hide EnvelopeCbor.ReadSignature;
    hide SignatureUnder;
    if top.DObject? {
      SignatureRead(top, e.signature);
      if "1" in top.fields && "2" in top.fields && top.fields["1"].DObject? && top.fields["2"].DObject? {
        FieldsRead(top.fields["1"], top.fields["2"], e.header, e.body);
      }
    }
  }

  lemma FieldsRead(hr: Data, br: Data, h: E.Header, b: E.Body)
    requires hr.DObject? && br.DObject?
    ensures HeaderUnder(hr, h) <==>
              && ExpectString(Property(hr, 1), "header.version") == Ok(h.version)
              && ExpectString(Property(hr, 2), "header.messageId") == Ok(h.messageId)
              && ExpectFiniteNumber(Property(hr, 3), "header.timestampMs") == Ok(h.timestampMs)
              && ExpectFiniteNumber(Property(hr, 4), "header.ttlMs") == Ok(h.ttlMs)
              && ExpectString(Property(hr, 5), "header.sender") == Ok(h.sender)
              && ExpectOptionalString(Property(hr, 6), "header.recipient") == Ok(h.recipient)
              && ExpectString(Property(hr, 7), "header.nonce") == Ok(h.nonce)
    ensures BodyUnder(br, b) <==>
              && ExpectString(Property(br, 1), "body.intent") == Ok(b.intent)
              && ExpectString(Property(br, 2), "body.content") == Ok(b.content)
              && ExpectOptionalString(Property(br, 3), "body.capability") == Ok(b.capability)
              && ExpectOptionalString(Property(br, 4), "body.correlationId") == Ok(b.correlationId)
  {
    Digits();
    hide Text.IntText;
    hide ExpectString;
    hide ExpectOptionalString;
    hide ExpectFiniteNumber;
    hide Property;
    hide TextUnder;
    hide NumberUnder;
    hide OptionalUnder;
    TextRead(hr, 1, "1", h.version, "header.version");
    TextRead(hr, 2, "2", h.messageId, "header.messageId");
    NumberRead(hr, 3, "3", h.timestampMs, "header.timestampMs");
    NumberRead(hr, 4, "4", h.ttlMs, "header.ttlMs");
    TextRead(hr, 5, "5", h.sender, "header.sender");
    OptionalRead(hr, 6, "6", h.recipient, "header.recipient");
    TextRead(hr, 7, "7", h.nonce, "header.nonce");
    TextRead(br, 1, "1", b.intent, "body.intent");
    TextRead(br, 2, "2", b.content, "body.content");
    OptionalRead(br, 3, "3", b.capability, "body.capability");
    OptionalRead(br, 4, "4", b.correlationId, "body.correlationId");
  }
}
