/** Protocol envelopes and the canonical string their signatures cover (src/protocol.ts). */
module Envelope {
  import opened Prelude
  import opened Bytes
  import opened Text
  import Json
  import Lex

  const PROTOCOL_VERSION: string := "7h3/0.1"

  datatype Header = Header(
    version: string, messageId: string, timestampMs: int, ttlMs: int, sender: string, recipient: Option<string>, nonce: string)

  datatype Body = Body(intent: string, content: string, capability: Option<string>, correlationId: Option<string>)

  datatype Signature = Signature(alg: string, keyId: string, value: string)

  datatype Envelope = Envelope(header: Header, body: Body, signature: Option<Signature>)

  // ---------------------------------------------------------------------------
  // Hand-written serializers against the general printer
  // ---------------------------------------------------------------------------

  /** A key whose characters need no escape. */
  predicate Plain(s: string) {
    forall c | c in s :: 'a' <= c <= 'z' || 'A' <= c <= 'Z'
  }

  lemma {:induction false} PlainQuote(s: string)
    requires Plain(s)
    ensures Json.Quote(s) == "\"" + s + "\""
  {
    PlainQuoteRest(s);
    Regroup("\"", s, "\"");
  }

  lemma {:induction false} PlainQuoteRest(s: string)
    requires Plain(s)
    ensures Json.QuoteRest(s) == s + "\""
  {
    if s != "" {
      assert s[0] in s && forall c | c in s[1..] :: c in s;
      PlainQuoteRest(s[1..]);
      assert Json.Escape(s[0]) == [s[0]];
      assert s == [s[0]] + s[1..];
    }
  }

  lemma KeyLessAt(a: string, b: string, k: nat)
    requires k < |a| && k < |b| && a[..k] == b[..k] && Json.Rank(a[k]) < Json.Rank(b[k])
    ensures Json.KeyLess(a, b)
  {
    RankedLessAt(Json.Ranks(a), Json.Ranks(b), k, a, b);
  }

  lemma {:induction false} RankedLessAt(x: seq<int>, y: seq<int>, k: nat, a: string, b: string)
    requires x == Json.Ranks(a) && y == Json.Ranks(b)
    requires k < |a| && k < |b| && a[..k] == b[..k] && Json.Rank(a[k]) < Json.Rank(b[k])
    ensures Lex.Less(x, y)
  {
    assert x[0] == Json.Rank(a[0]) && y[0] == Json.Rank(b[0]);
    if k > 0 {
      assert a[0] == a[..k][0] && b[0] == b[..k][0];
      assert x[1..] == Json.Ranks(a[1..]) && y[1..] == Json.Ranks(b[1..]);
      assert a[1..][..k - 1] == a[..k][1..] && b[1..][..k - 1] == b[..k][1..];
      RankedLessAt(x[1..], y[1..], k - 1, a[1..], b[1..]);
    }
  }

  predicate Ascending(keys: seq<string>) {
    forall i | 0 < i < |keys| :: Json.KeyLess(keys[i - 1], keys[i])
  }

  lemma {:induction false} FirstIsLeast(keys: seq<string>)
    requires keys != [] && Ascending(keys)
    ensures forall i | 0 < i < |keys| :: Json.KeyLess(keys[0], keys[i])
  {
    if |keys| > 1 {
      assert Json.KeyLess(keys[1 - 1], keys[1]);
      forall i | 0 < i < |keys[1..]|
        ensures Json.KeyLess(keys[1..][i - 1], keys[1..][i])
      {
        assert Json.KeyLess(keys[i + 1 - 1], keys[i + 1]);
      }
      FirstIsLeast(keys[1..]);
      forall i | 1 < i < |keys|
        ensures Json.KeyLess(keys[0], keys[i])
      {
        assert keys[i] == keys[1..][i - 1];
        Lex.Transitive(Json.Ranks(keys[0]), Json.Ranks(keys[1]), Json.Ranks(keys[i]));
      }
    }
  }

  /** Ascending keys are what `Object.keys(obj).sort()` yields. */
  lemma {:induction false} AscendingIsSorted(keys: seq<string>, s: set<string>)
    requires Ascending(keys) && forall k :: k in keys <==> k in s
    ensures Json.SortedKeys(s) == keys
  {
    if keys == [] {
      assert s == {};
    } else {
      FirstIsLeast(keys);
      assert keys[0] in keys;
      assert Json.LeastKey(keys[0], s);
      Json.LeastKeyExists(s);
      forall i | 0 < i < |keys|
        ensures keys[i] != keys[0]
      {
        Json.KeyLessTotal(keys[0], keys[i]);
      }
      forall i | 0 < i < |keys[1..]|
        ensures Json.KeyLess(keys[1..][i - 1], keys[1..][i])
      {
        assert Json.KeyLess(keys[i + 1 - 1], keys[i + 1]);
      }
      assert forall k :: k in keys[1..] <==> k in s - {keys[0]};
      AscendingIsSorted(keys[1..], s - {keys[0]});
      assert keys == [keys[0]] + keys[1..];
    }
  }

  // ---------------------------------------------------------------------------
  // Objects listed field by field
  // ---------------------------------------------------------------------------

  datatype Field = Field(key: string, value: Json.Value)

  function Keys(fs: seq<Field>): seq<string> { seq(|fs|, i requires 0 <= i < |fs| => fs[i].key) }

  function Members(fs: seq<Field>): map<string, Json.Value> {
    if fs == [] then map[] else Members(fs[..|fs| - 1])[fs[|fs| - 1].key := fs[|fs| - 1].value]
  }

  /** Fields in the order a canonical object lists them. */
  predicate InOrder(fs: seq<Field>) {
    Ascending(Keys(fs)) && forall f | f in fs :: Plain(f.key)
  }

  lemma {:induction false} InOrderDistinct(fs: seq<Field>, i: nat, j: nat)
    requires InOrder(fs) && i < j < |fs|
    ensures Json.KeyLess(fs[i].key, fs[j].key) && fs[i].key != fs[j].key
    decreases j
  {
    var ks := Keys(fs);
    assert Json.KeyLess(ks[j - 1], ks[j]);
    if i < j - 1 {
      InOrderDistinct(fs, i, j - 1);
      Lex.Transitive(Json.Ranks(ks[i]), Json.Ranks(ks[j - 1]), Json.Ranks(ks[j]));
    }
    Json.KeyLessTotal(ks[i], ks[j]);
  }

  lemma {:induction false} MembersLookup(fs: seq<Field>)
    requires InOrder(fs)
    ensures forall i | 0 <= i < |fs| :: fs[i].key in Members(fs) && Members(fs)[fs[i].key] == fs[i].value
    ensures forall k :: k in Members(fs) <==> k in Keys(fs)
  {
    hide InOrder;
    if fs != [] {
      var n := |fs| - 1;
      var init := fs[..n];
      InitInOrder(fs);
      MembersLookup(init);
      forall i | 0 <= i < |fs|
        ensures fs[i].key in Members(fs) && Members(fs)[fs[i].key] == fs[i].value
      {
        if i < n {
          InOrderDistinct(fs, i, n);
          assert init[i] == fs[i];
        }
      }
    }
  }

  lemma InitInOrder(fs: seq<Field>)
    requires InOrder(fs) && fs != []
    ensures InOrder(fs[..|fs| - 1]) && Keys(fs) == Keys(fs[..|fs| - 1]) + [fs[|fs| - 1].key]
  {
    var init := fs[..|fs| - 1];
    assert Keys(fs) == Keys(init) + [fs[|fs| - 1].key];
    assert forall i | 0 <= i < |init| :: Keys(init)[i] == Keys(fs)[i];
  }

  lemma KeysSorted(fs: seq<Field>)
    requires InOrder(fs)
    ensures Json.SortedKeys(Members(fs).Keys) == Keys(fs)
  {
    MembersLookup(fs);
    AscendingIsSorted(Keys(fs), Members(fs).Keys);
  }

  /** An object determines the fields it was made of. */
  lemma MembersInjective(fs: seq<Field>, gs: seq<Field>)
    requires InOrder(fs) && InOrder(gs) && Members(fs) == Members(gs)
    ensures fs == gs
  {
    KeysSorted(fs);
    KeysSorted(gs);
    MembersLookup(fs);
    MembersLookup(gs);
    assert |fs| == |Keys(fs)| == |gs|;
    forall i | 0 <= i < |fs|
      ensures fs[i] == gs[i]
    {
      assert fs[i].key == Keys(fs)[i] == Keys(gs)[i] == gs[i].key;
    }
  }

  lemma MembersPrintable(fs: seq<Field>)
    requires InOrder(fs) && forall f | f in fs :: Json.Printable(f.value)
    ensures Json.Printable(Json.Obj(Members(fs)))
  {
    MembersLookup(fs);
    forall k | k in Members(fs)
      ensures Json.Printable(Members(fs)[k])
    {
      var i :| 0 <= i < |fs| && Keys(fs)[i] == k;
      assert fs[i] in fs;
    }
  }

  /** The text of one member, as the serializers write it. */
  function FieldText(f: Field): string { "\"" + f.key + "\":" + Json.Print(f.value) }

  function FieldTexts(fs: seq<Field>): seq<string> { seq(|fs|, i requires 0 <= i < |fs| => FieldText(fs[i])) }

  lemma QuotedField(f: Field)
    requires Plain(f.key)
    ensures FieldText(f) == Json.Quote(f.key) + ":" + Json.Print(f.value)
  {
    hide Json.Print;
    PlainQuote(f.key);
    hide Json.Quote;
    assert "\"" + f.key + "\":" == "\"" + f.key + "\"" + ":";
  }

  lemma FirstMember(v: Json.Value, keys: seq<string>)
    requires v.Obj? && keys != [] && forall k | k in keys :: k in v.members
    ensures keys[0] in keys && (forall k | k in keys[1..] :: k in v.members)
    ensures Json.PrintMembers(v, keys)
            == Json.Quote(keys[0]) + ":" + Json.Print(v.members[keys[0]]) + (if |keys| == 1 then "}" else "," + Json.PrintMembers(v, keys[1..]))
  {
    hide Json.Print;
    hide Json.Quote;
    assert keys[0] in keys && forall k | k in keys[1..] :: k in keys;
  }

  lemma {:induction false} JoinedFields(v: Json.Value, fs: seq<Field>)
    requires v.Obj? && fs != [] && (forall f | f in fs :: Plain(f.key) && f.key in v.members && v.members[f.key] == f.value)
    requires forall k | k in Keys(fs) :: k in v.members
    ensures Json.PrintMembers(v, Keys(fs)) == Join(FieldTexts(fs), ",") + "}"
  {
    hide Json.Print;
    hide Json.Quote;
    hide Json.PrintMembers;
    hide Plain;
    var f := fs[0];
    assert f in fs && forall g | g in fs[1..] :: g in fs;
    assert Keys(fs)[0] == f.key && Keys(fs)[1..] == Keys(fs[1..]);
    assert forall k | k in Keys(fs[1..]) :: k in Keys(fs);
    FirstMember(v, Keys(fs));
    QuotedField(f);
    var parts := FieldTexts(fs);
    assert parts[1..] == FieldTexts(fs[1..]);
    if |fs| > 1 {
      JoinedFields(v, fs[1..]);
      var rest := Join(parts[1..], ",");
      Regroup(parts[0] + ",", rest, "}");
      Regroup(parts[0], ",", rest + "}");
    }
  }

  /** An object printed by joining its fields in order is what `stableStringify` prints. */
  lemma PrintedInOrder(fs: seq<Field>)
    requires fs != [] && InOrder(fs)
    ensures Json.Print(Json.Obj(Members(fs))) == "{" + Join(FieldTexts(fs), ",") + "}"
  {
    KeysSorted(fs);
    MembersLookup(fs);
    forall f | f in fs
      ensures f.key in Members(fs) && Members(fs)[f.key] == f.value
    {
      var i :| 0 <= i < |fs| && fs[i] == f;
    }
    JoinedFields(Json.Obj(Members(fs)), fs);
    Regroup("{", Join(FieldTexts(fs), ","), "}");
  }

  // ---------------------------------------------------------------------------
  // The envelope as a JSON value: absent fields are left out
  // ---------------------------------------------------------------------------

  function TextField(key: string, s: string): Field { Field(key, Json.Str(s)) }

  function WholeField(key: string, i: int): Field { Field(key, Json.Num(Json.Safe(i))) }

  function Optional(key: string, o: Option<string>): seq<Field> {
    if o.Some? then [TextField(key, o.value)] else []
  }

  function HeaderFields(h: Header): seq<Field> {
    [TextField("messageId", h.messageId), TextField("nonce", h.nonce)] + Optional("recipient", h.recipient)
    + [TextField("sender", h.sender), WholeField("timestampMs", h.timestampMs), WholeField("ttlMs", h.ttlMs), TextField("version", h.version)]
  }

  function BodyFields(b: Body): seq<Field> {
    Optional("capability", b.capability) + [TextField("content", b.content)]
    + Optional("correlationId", b.correlationId) + [TextField("intent", b.intent)]
  }

  function HeaderValue(h: Header): Json.Value { Json.Obj(Members(HeaderFields(h))) }

  function BodyValue(b: Body): Json.Value { Json.Obj(Members(BodyFields(b))) }

  function EnvelopeFields(e: Envelope): seq<Field> {
    [Field("body", BodyValue(e.body)), Field("header", HeaderValue(e.header))]
  }

  function EnvelopeValue(e: Envelope): Json.Value { Json.Obj(Members(EnvelopeFields(e))) }

  function HeaderKeys(recipient: bool): seq<string> {
    ["messageId", "nonce"] + (if recipient then ["recipient"] else []) + ["sender", "timestampMs", "ttlMs", "version"]
  }

  lemma HeaderKeysAscend(recipient: bool)
    ensures Ascending(HeaderKeys(recipient)) && forall k | k in HeaderKeys(recipient) :: Plain(k)
  {
    hide Json.KeyLess;
    KeyLessAt("messageId", "nonce", 0);
    KeyLessAt("nonce", "recipient", 0);
    KeyLessAt("recipient", "sender", 0);
    KeyLessAt("nonce", "sender", 0);
    KeyLessAt("sender", "timestampMs", 0);
    KeyLessAt("timestampMs", "ttlMs", 1);
    KeyLessAt("ttlMs", "version", 0);
  }

  function BodyKeys(capability: bool, correlationId: bool): seq<string> {
    (if capability then ["capability"] else []) + ["content"] + (if correlationId then ["correlationId"] else []) + ["intent"]
  }

  lemma BodyKeysAscend(capability: bool, correlationId: bool)
    ensures Ascending(BodyKeys(capability, correlationId)) && forall k | k in BodyKeys(capability, correlationId) :: Plain(k)
  {
    hide Json.KeyLess;
    KeyLessAt("capability", "content", 1);
    KeyLessAt("content", "correlationId", 2);
    KeyLessAt("correlationId", "intent", 0);
    KeyLessAt("content", "intent", 0);
  }

  lemma InOrderByKeys(fs: seq<Field>, keys: seq<string>)
    requires Keys(fs) == keys && Ascending(keys) && forall k | k in keys :: Plain(k)
    ensures InOrder(fs)
  {
    forall f | f in fs
      ensures Plain(f.key)
    {
      var i :| 0 <= i < |fs| && fs[i] == f;
      assert Keys(fs)[i] in keys;
    }
  }

  lemma HeaderInOrder(h: Header)
    ensures InOrder(HeaderFields(h))
  {
    HeaderKeysAscend(h.recipient.Some?);
    assert Keys(HeaderFields(h)) == HeaderKeys(h.recipient.Some?);
    InOrderByKeys(HeaderFields(h), HeaderKeys(h.recipient.Some?));
  }

  lemma BodyInOrder(b: Body)
    ensures InOrder(BodyFields(b))
  {
    var keys := BodyKeys(b.capability.Some?, b.correlationId.Some?);
    BodyKeysAscend(b.capability.Some?, b.correlationId.Some?);
    assert Keys(BodyFields(b)) == keys;
    InOrderByKeys(BodyFields(b), keys);
  }

  lemma EnvelopeInOrder(e: Envelope)
    ensures InOrder(EnvelopeFields(e))
  {
    KeyLessAt("body", "header", 0);
  }

  // ---------------------------------------------------------------------------
  // The serializers
  // ---------------------------------------------------------------------------

  method SerializeHeaderCanonical(h: Header) returns (s: string)
    ensures s == Json.Print(HeaderValue(h))
  {
    var parts := [FieldText(TextField("messageId", h.messageId)), FieldText(TextField("nonce", h.nonce))];
    if h.recipient.Some? {
      parts := parts + [FieldText(TextField("recipient", h.recipient.value))];
    }
    parts := parts + [FieldText(TextField("sender", h.sender))];
    parts := parts + [FieldText(WholeField("timestampMs", h.timestampMs))];
    parts := parts + [FieldText(WholeField("ttlMs", h.ttlMs))];
    parts := parts + [FieldText(TextField("version", h.version))];
    assert parts == FieldTexts(HeaderFields(h));
    HeaderInOrder(h);
    PrintedInOrder(HeaderFields(h));
    s := "{" + Join(parts, ",") + "}";
  }

  method SerializeBodyCanonical(b: Body) returns (s: string)
    ensures s == Json.Print(BodyValue(b))
  {
    var parts: seq<string> := [];
    if b.capability.Some? {
      parts := parts + [FieldText(TextField("capability", b.capability.value))];
    }
    parts := parts + [FieldText(TextField("content", b.content))];
    if b.correlationId.Some? {
      parts := parts + [FieldText(TextField("correlationId", b.correlationId.value))];
    }
    parts := parts + [FieldText(TextField("intent", b.intent))];
    assert parts == FieldTexts(BodyFields(b));
    BodyInOrder(b);
    PrintedInOrder(BodyFields(b));
    s := "{" + Join(parts, ",") + "}";
  }

  /** The hand-written serializer prints what `stableStringify` would, with absent fields left out. */
  method CanonicalizeEnvelope(e: Envelope) returns (s: string)
    ensures s == Json.Print(EnvelopeValue(e))
  {
    var body := SerializeBodyCanonical(e.body);
    var header := SerializeHeaderCanonical(e.header);
    s := "{\"body\":" + body + ",\"header\":" + header + "}";
    EnvelopeInOrder(e);
    PrintedInOrder(EnvelopeFields(e));
    TwoFields(EnvelopeFields(e)[0], EnvelopeFields(e)[1]);
  }

  lemma TwoFields(f: Field, g: Field)
    requires f.key == "body" && g.key == "header"
    ensures "{" + Join(FieldTexts([f, g]), ",") + "}" == "{\"body\":" + Json.Print(f.value) + ",\"header\":" + Json.Print(g.value) + "}"
  {
    var parts := FieldTexts([f, g]);
    assert parts[1..] == [FieldText(g)];
    assert Join(parts[1..], ",") == FieldText(g);
    assert Join(parts, ",") == FieldText(f) + "," + FieldText(g);
  }

  // ---------------------------------------------------------------------------
  // Signed bytes are unambiguous
  // ---------------------------------------------------------------------------

  predicate IntegerTimes(h: Header) { SafeInteger(h.timestampMs) && SafeInteger(h.ttlMs) }

  lemma EnvelopePrintable(e: Envelope)
    requires IntegerTimes(e.header)
    ensures Json.Printable(EnvelopeValue(e))
  {
    HeaderInOrder(e.header);
    MembersPrintable(HeaderFields(e.header));
    BodyInOrder(e.body);
    MembersPrintable(BodyFields(e.body));
    EnvelopeInOrder(e);
    MembersPrintable(EnvelopeFields(e));
  }

  /** Equal canonical strings come from equal headers and bodies, optional fields and their absence included. */
  lemma CanonicalInjective(a: Envelope, b: Envelope)
    requires IntegerTimes(a.header) && IntegerTimes(b.header)
    requires Json.Print(EnvelopeValue(a)) == Json.Print(EnvelopeValue(b))
    ensures a.header == b.header && a.body == b.body
  {
    EnvelopePrintable(a);
    EnvelopePrintable(b);
    Json.StableStringifyInjective(EnvelopeValue(a), EnvelopeValue(b));
    EnvelopeInOrder(a);
    EnvelopeInOrder(b);
    MembersInjective(EnvelopeFields(a), EnvelopeFields(b));
    assert EnvelopeFields(a)[0].value == EnvelopeFields(b)[0].value;
    assert EnvelopeFields(a)[1].value == EnvelopeFields(b)[1].value;
    SameHeader(a.header, b.header);
    SameBody(a.body, b.body);
  }

  lemma SameHeader(a: Header, b: Header)
    requires HeaderValue(a) == HeaderValue(b)
    ensures a == b
  {
    HeaderInOrder(a);
    HeaderInOrder(b);
    var fs, gs := HeaderFields(a), HeaderFields(b);
    MembersInjective(fs, gs);
    assert |fs| == |gs| && fs[0] == gs[0] && fs[1] == gs[1] && fs[2] == gs[2];
    var k := |fs| - 4;
    assert fs[k] == gs[k] && fs[k + 1] == gs[k + 1] && fs[k + 2] == gs[k + 2] && fs[k + 3] == gs[k + 3];
  }

  lemma SameBody(a: Body, b: Body)
    requires BodyValue(a) == BodyValue(b)
    ensures a == b
  {
    BodyInOrder(a);
    BodyInOrder(b);
    var fs, gs := BodyFields(a), BodyFields(b);
    MembersInjective(fs, gs);
    assert fs[0] == gs[0] && fs[0].key == (if a.capability.Some? then "capability" else "content");
    assert gs[0].key == if b.capability.Some? then "capability" else "content";
    assert "capability"[1] != "content"[1];
    var k := |fs| - 1;
    assert fs[k] == gs[k] && fs[k - 1] == gs[k - 1] && (k >= 2 ==> fs[k - 2] == gs[k - 2]);
  }
}
