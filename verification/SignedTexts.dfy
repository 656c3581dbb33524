/** The texts that signatures cover, letter by letter: envelopes (src/protocol.ts), entries and checkpoints of the key log
    (src/keyLog.ts). */
module SignedTexts {
  import opened Prelude
  import opened Text
  import opened Envelope
  import Json
  import K = KeyLog

  function Said(name: string, s: string): string { "\"" + name + "\":" + Json.Quote(s) }

  function Counted(name: string, i: int): string { "\"" + name + "\":" + IntText(i) }

  function IfSaid(name: string, o: Option<string>): seq<string> { if o.Some? then [Said(name, o.value)] else [] }

  /** An object with these members, in this order. */
  function Braced(members: seq<string>): string { "{" + Join(members, ",") + "}" }

  function HeaderText(h: Header): string {
    Braced(
      [Said("messageId", h.messageId), Said("nonce", h.nonce)] + IfSaid("recipient", h.recipient)
      + [Said("sender", h.sender), Counted("timestampMs", h.timestampMs), Counted("ttlMs", h.ttlMs), Said("version", h.version)])
  }

  function BodyText(b: Body): string {
    Braced(
      IfSaid("capability", b.capability) + [Said("content", b.content)] + IfSaid("correlationId", b.correlationId)
      + [Said("intent", b.intent)])
  }

  /** What an envelope's signature covers. */
  lemma EnvelopeText(e: Envelope)
    ensures Json.Print(EnvelopeValue(e)) == Braced(["\"body\":" + BodyText(e.body), "\"header\":" + HeaderText(e.header)])
  {
    hide Json.Print;
    hide Join;
    hide InOrder;
    hide Members;
    hide HeaderValue;
    hide BodyValue;
    hide HeaderText;
    hide BodyText;
    hide FieldTexts;
    EnvelopeInOrder(e);
    PrintedInOrder(EnvelopeFields(e));
    EnvelopeSays(e);
  }

  lemma EnvelopeSays(e: Envelope)
    ensures FieldTexts(EnvelopeFields(e)) == ["\"body\":" + BodyText(e.body), "\"header\":" + HeaderText(e.header)]
  {
    HeaderPrinted(e.header);
    BodyPrinted(e.body);
    hide Json.Print;
    hide HeaderValue;
    hide BodyValue;
    hide HeaderText;
    hide BodyText;
    assert "\"" + "body" + "\":" == "\"body\":" && "\"" + "header" + "\":" == "\"header\":";
  }

  lemma HeaderPrinted(h: Header)
    ensures Json.Print(HeaderValue(h)) == HeaderText(h)
  {
    assert HeaderFields(h) != [];
    hide Json.Print;
    hide InOrder;
    hide Members;
    hide HeaderFields;
    hide HeaderText;
    HeaderInOrder(h);
    PrintedInOrder(HeaderFields(h));
    HeaderSays(h);
  }

  lemma BodyPrinted(b: Body)
    ensures Json.Print(BodyValue(b)) == BodyText(b)
  {
    assert BodyFields(b) != [];
    hide Json.Print;
    hide InOrder;
    hide Members;
    hide BodyFields;
    hide BodyText;
    BodyInOrder(b);
    PrintedInOrder(BodyFields(b));
    BodySays(b);
  }

  lemma FieldSays(name: string, s: string, i: int)
    ensures FieldText(TextField(name, s)) == Said(name, s)
    ensures FieldText(WholeField(name, i)) == Counted(name, i)
  {
    hide Json.Quote;
  }

  lemma HeaderSays(h: Header)
    ensures "{" + Join(FieldTexts(HeaderFields(h)), ",") + "}" == HeaderText(h)
  {
    FieldSays("messageId", h.messageId, 0);
    FieldSays("nonce", h.nonce, 0);
    FieldSays("recipient", if h.recipient.Some? then h.recipient.value else "", 0);
    FieldSays("sender", h.sender, 0);
    FieldSays("timestampMs", "", h.timestampMs);
    FieldSays("ttlMs", "", h.ttlMs);
    FieldSays("version", h.version, 0);
    hide FieldText;
    hide Said;
    hide Counted;
    hide Join;
    assert FieldTexts(HeaderFields(h))
        == [Said("messageId", h.messageId), Said("nonce", h.nonce)] + IfSaid("recipient", h.recipient)
           + [Said("sender", h.sender), Counted("timestampMs", h.timestampMs), Counted("ttlMs", h.ttlMs), Said("version", h.version)];
  }

  lemma BodySays(b: Body)
    ensures "{" + Join(FieldTexts(BodyFields(b)), ",") + "}" == BodyText(b)
  {
    FieldSays("capability", if b.capability.Some? then b.capability.value else "", 0);
    FieldSays("content", b.content, 0);
    FieldSays("correlationId", if b.correlationId.Some? then b.correlationId.value else "", 0);
    FieldSays("intent", b.intent, 0);
    hide FieldText;
    hide Said;
    hide Join;
    assert FieldTexts(BodyFields(b))
        == IfSaid("capability", b.capability) + [Said("content", b.content)] + IfSaid("correlationId", b.correlationId)
           + [Said("intent", b.intent)];
  }

  // ---------------------------------------------------------------------------
  // The key log
  // ---------------------------------------------------------------------------

  function OrNullText(name: string, o: Option<string>): string {
    if o.Some? then Said(name, o.value) else "\"" + name + "\":null"
  }

  function EntryFields(e: K.Entry): seq<Field> {
    [WholeField("index", e.index), TextField("keyId", e.keyId), TextField("operator", e.operator), TextField("prevHash", e.prevHash),
     Field("publicKey", K.OrNull(e.publicKey)), Field("reason", K.OrNull(e.reason)), TextField("subject", e.subject),
     WholeField("timestampMs", e.timestampMs), TextField("type", K.TypeText(e.kind)), TextField("version", e.version)]
  }

  lemma EntryKeysAscend()
    ensures var keys :=
              ["index", "keyId", "operator", "prevHash", "publicKey", "reason", "subject", "timestampMs", "type", "version"];
            Ascending(keys) && forall k | k in keys :: Plain(k)
  {
    hide Json.KeyLess;
    KeyLessAt("index", "keyId", 0);
    KeyLessAt("keyId", "operator", 0);
    KeyLessAt("operator", "prevHash", 0);
    KeyLessAt("prevHash", "publicKey", 1);
    KeyLessAt("publicKey", "reason", 0);
    KeyLessAt("reason", "subject", 0);
    KeyLessAt("subject", "timestampMs", 0);
    KeyLessAt("timestampMs", "type", 1);
    KeyLessAt("type", "version", 0);
  }

  lemma EntryInOrder(e: K.Entry)
    ensures InOrder(EntryFields(e))
  {
    EntryKeysAscend();
    var keys := ["index", "keyId", "operator", "prevHash", "publicKey", "reason", "subject", "timestampMs", "type", "version"];
    assert Keys(EntryFields(e)) == keys;
    hide EntryFields;
    hide Ascending;
    hide Plain;
    InOrderByKeys(EntryFields(e), keys);
  }

  /** A map with the fields' members and no other is the map made of them. */
  lemma MembersAre(fs: seq<Field>, m: map<string, Json.Value>)
    requires InOrder(fs)
    requires forall i | 0 <= i < |fs| :: fs[i].key in m && m[fs[i].key] == fs[i].value
    requires forall k | k in m :: k in Keys(fs)
    ensures m == Members(fs)
  {
    MembersLookup(fs);
    hide InOrder;
    hide Members;
    forall k
      ensures k in m <==> k in Members(fs)
      ensures k in m && k in Members(fs) ==> m[k] == Members(fs)[k]
    {
      if k in Keys(fs) {
        var i :| 0 <= i < |fs| && Keys(fs)[i] == k;
        assert fs[i].key == k;
      }
    }
  }

  lemma EntryMembers(e: K.Entry)
    ensures K.PayloadValue(e) == Json.Obj(Members(EntryFields(e)))
  {
    EntryInOrder(e);
    EntryValues(e);
    hide EntryFields;
    hide InOrder;
    forall k | k in K.PayloadValue(e).members
      ensures k in Keys(EntryFields(e))
    {
      EntryKeysListed(e, k);
    }
    hide K.PayloadValue;
    MembersAre(EntryFields(e), K.PayloadValue(e).members);
  }

  lemma EntryValues(e: K.Entry)
    ensures K.PayloadValue(e).Obj?
    ensures forall i | 0 <= i < |EntryFields(e)| ::
              EntryFields(e)[i].key in K.PayloadValue(e).members && K.PayloadValue(e).members[EntryFields(e)[i].key] == EntryFields(e)[i].value
  {
  }

  lemma EntryKeysListed(e: K.Entry, k: string)
    requires k in K.PayloadValue(e).members
    ensures k in Keys(EntryFields(e))
  {
    var keys := Keys(EntryFields(e));
    assert keys == ["index", "keyId", "operator", "prevHash", "publicKey", "reason", "subject", "timestampMs", "type", "version"];
  }

  function EntryText(e: K.Entry): string {
    Braced([
      Counted("index", e.index), Said("keyId", e.keyId), Said("operator", e.operator), Said("prevHash", e.prevHash),
      OrNullText("publicKey", e.publicKey), OrNullText("reason", e.reason), Said("subject", e.subject),
      Counted("timestampMs", e.timestampMs),
      Said("type", match e.kind { case Register => "register" case Rotate => "rotate" case Revoke => "revoke" }),
      Said("version", e.version)])
  }

  /** What the operator signs for an entry, and what the next entry's hash covers besides the signature. */
  lemma EntryPayloadText(e: K.Entry)
    ensures K.EntryPayload(e) == EntryText(e)
  {
    EntryMembers(e);
    EntryInOrder(e);
    PrintedInOrder(EntryFields(e));
    EntrySays(e);
    hide Json.Print;
    hide Members;
    hide InOrder;
    hide K.PayloadValue;
    hide EntryFields;
    hide EntryText;
  }

  lemma EntrySays(e: K.Entry)
    ensures "{" + Join(FieldTexts(EntryFields(e)), ",") + "}" == EntryText(e)
  {
    FieldSays("index", "", e.index);
    FieldSays("keyId", e.keyId, 0);
    FieldSays("operator", e.operator, 0);
    FieldSays("prevHash", e.prevHash, 0);
    NullableSays("publicKey", e.publicKey);
    NullableSays("reason", e.reason);
    FieldSays("subject", e.subject, 0);
    FieldSays("timestampMs", "", e.timestampMs);
    FieldSays("type", K.TypeText(e.kind), 0);
    FieldSays("version", e.version, 0);
    hide FieldText;
    hide Said;
    hide Counted;
    hide OrNullText;
    hide K.OrNull;
    hide Join;
    var type_ := match e.kind { case Register => "register" case Rotate => "rotate" case Revoke => "revoke" };
    assert FieldTexts(EntryFields(e))
        == [Counted("index", e.index), Said("keyId", e.keyId), Said("operator", e.operator), Said("prevHash", e.prevHash),
            OrNullText("publicKey", e.publicKey), OrNullText("reason", e.reason), Said("subject", e.subject),
            Counted("timestampMs", e.timestampMs), Said("type", type_), Said("version", e.version)];
  }

  lemma NullableSays(name: string, o: Option<string>)
    ensures FieldText(Field(name, K.OrNull(o))) == OrNullText(name, o)
  {
    hide Json.Quote;
  }

  function CheckpointFields(cp: K.Checkpoint): seq<Field> {
    [TextField("headHash", cp.headHash), TextField("operator", cp.operator), WholeField("size", cp.size),
     WholeField("timestampMs", cp.timestampMs), TextField("version", cp.version)]
  }

  function CheckpointText(cp: K.Checkpoint): string {
    Braced([
      Said("headHash", cp.headHash), Said("operator", cp.operator), Counted("size", cp.size), Counted("timestampMs", cp.timestampMs),
      Said("version", cp.version)])
  }

  lemma CheckpointInOrder(cp: K.Checkpoint)
    ensures InOrder(CheckpointFields(cp))
  {
    var keys := ["headHash", "operator", "size", "timestampMs", "version"];
    KeyLessAt("headHash", "operator", 0);
    KeyLessAt("operator", "size", 0);
    KeyLessAt("size", "timestampMs", 0);
    KeyLessAt("timestampMs", "version", 0);
    hide Json.KeyLess;
    assert Keys(CheckpointFields(cp)) == keys;
    InOrderByKeys(CheckpointFields(cp), keys);
  }

  lemma CheckpointSays(cp: K.Checkpoint)
    ensures "{" + Join(FieldTexts(CheckpointFields(cp)), ",") + "}" == CheckpointText(cp)
  {
    FieldSays("headHash", cp.headHash, 0);
    FieldSays("operator", cp.operator, 0);
    FieldSays("size", "", cp.size);
    FieldSays("timestampMs", "", cp.timestampMs);
    FieldSays("version", cp.version, 0);
    hide FieldText;
    hide Said;
    hide Counted;
    hide Join;
    assert FieldTexts(CheckpointFields(cp))
        == [Said("headHash", cp.headHash), Said("operator", cp.operator), Counted("size", cp.size),
            Counted("timestampMs", cp.timestampMs), Said("version", cp.version)];
  }

  function CheckpointMembers(cp: K.Checkpoint): map<string, Json.Value> {
    map["version" := Json.Str(cp.version), "operator" := Json.Str(cp.operator), "size" := K.Whole(cp.size),
        "headHash" := Json.Str(cp.headHash), "timestampMs" := K.Whole(cp.timestampMs)]
  }

  lemma CheckpointListed(cp: K.Checkpoint)
    ensures var fs, m := CheckpointFields(cp), CheckpointMembers(cp);
            && (forall i | 0 <= i < |fs| :: fs[i].key in m && m[fs[i].key] == fs[i].value)
            && forall k | k in m :: k in Keys(fs)
  {
    assert Keys(CheckpointFields(cp)) == ["headHash", "operator", "size", "timestampMs", "version"];
  }

  /** What the operator signs for a checkpoint. */
  lemma CheckpointPayloadText(cp: K.Checkpoint)
    ensures K.CheckpointPayload(cp) == CheckpointText(cp)
  {
    var fs := CheckpointFields(cp);
    assert fs != [];
    CheckpointInOrder(cp);
    CheckpointListed(cp);
    CheckpointSays(cp);
    assert K.CheckpointPayload(cp) == Json.Print(Json.Obj(CheckpointMembers(cp)));
    hide Json.Print;
    hide InOrder;
    hide CheckpointText;
    hide CheckpointMembers;
    hide CheckpointFields;
    hide K.CheckpointPayload;
    MembersAre(fs, CheckpointMembers(cp));
    PrintedInOrder(fs);
  }
}
