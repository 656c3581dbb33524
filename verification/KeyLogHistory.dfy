/** What a log the verifier accepts looks like (src/keyLog.ts), said entry by entry and in terms of the entries before,
    without the verifier's own state. */
module KeyLogHistory {
  import opened Prelude
  import opened Text
  import opened KeyLog
  import SignedTexts

  // ---------------------------------------------------------------------------
  // One entry and the one before it
  // ---------------------------------------------------------------------------

  predicate Identifier(s: string) {
    1 <= |s| <= 256 && forall i | 0 <= i < |s| ::
      'a' <= s[i] <= 'z' || 'A' <= s[i] <= 'Z' || '0' <= s[i] <= '9' || s[i] == '@' || s[i] == '.' || s[i] == '_' || s[i] == ':'
      || s[i] == '/' || s[i] == '#' || s[i] == '-'
  }

  predicate HexDigest(s: string) { |s| == 64 && forall i | 0 <= i < 64 :: '0' <= s[i] <= '9' || 'a' <= s[i] <= 'f' }

  predicate FieldsInOrder(e: Entry) {
    && e.version == "7h3-keylog/1" && Identifier(e.subject) && Identifier(e.keyId) && Identifier(e.operator)
    && (match e.publicKey case None => true case Some(p) => 1 <= Utf16Length(p) <= 511)
    && (match e.reason case None => true case Some(r) => Utf16Length(r) <= 1023)
    && -0x1F_FFFF_FFFF_FFFF <= e.timestampMs <= 0x1F_FFFF_FFFF_FFFF && e.index <= 0x1F_FFFF_FFFF_FFFF
    && HexDigest(e.prevHash) && e.signature != ""
  }

  /** Entry `i` is numbered, chained, dated and signed as it must be. */
  ghost predicate Chained(log: seq<Entry>, i: nat, c: Crypto, o: VerifyOptions)
    requires i < |log|
  {
    var e := log[i];
    && FieldsInOrder(e)
    && e.index == i
    && (if i == 0 then HexDigest(e.prevHash) && forall j | 0 <= j < |e.prevHash| :: e.prevHash[j] == '0'
        else e.prevHash == c.sha256Hex(EntryPayload(log[i - 1]) + "." + log[i - 1].signature))
    && (o.operator.Some? ==> e.operator == o.operator.value)
    && c.verify(EntryPayload(e), e.signature, o.operatorPublicKey)
    && e.timestampMs <= o.horizon
    && (if i == 0 then e.timestampMs >= 0 else e.timestampMs >= log[i - 1].timestampMs)
  }

  lemma FieldsExactly(e: Entry)
    ensures WellFormed(e) <==> FieldsInOrder(e) && e.index >= 0
  {
    NameExactly(e.subject);
    NameExactly(e.keyId);
    NameExactly(e.operator);
    HashExactly(e.prevHash);
    hide Name;
    hide Hash;
    hide Identifier;
    hide HexDigest;
  }

  lemma NameExactly(s: string)
    ensures Name(s) <==> Identifier(s)
  {
    if Name(s) {
      forall i | 0 <= i < |s|
        ensures s[i] in s
      {
      }
    }
  }

  lemma HashExactly(s: string)
    ensures Hash(s) <==> HexDigest(s)
  {
    if Hash(s) {
      forall i | 0 <= i < |s|
        ensures s[i] in s
      {
      }
    }
  }

  lemma GenesisExactly(s: string)
    ensures s == GENESIS_HASH <==> |s| == 64 && forall j | 0 <= j < |s| :: s[j] == '0'
  {
    assert forall j | 0 <= j < 64 :: GENESIS_HASH[j] in GENESIS_HASH;
    if |s| == 64 && forall j | 0 <= j < |s| :: s[j] == '0' {
      assert s == GENESIS_HASH;
    }
  }

  /** Apart from the rules, an entry passes the checks exactly when it is chained to the one before. */
  lemma FaultExactly(log: seq<Entry>, i: nat, c: Crypto, o: VerifyOptions)
    requires i < |log| && Replay(log[..i]).Some?
    ensures Fault(log[..i], log[i], c, o) == None <==> Chained(log, i, c, o) && RuleBroken(Replay(log[..i]).value, log[i]) == None
  {
    FieldsExactly(log[i]);
    GenesisExactly(log[i].prevHash);
    hide FieldsInOrder;
    hide WellFormed;
    hide RuleBroken;
    hide Replay;
    hide EntryPayload;
    hide GENESIS_HASH;
  }

  /** A log is accepted exactly when every entry is chained and the rules are kept. */
  lemma {:induction false} VerifiesExactly(log: seq<Entry>, c: Crypto, o: VerifyOptions)
    ensures Verifies(log, c, o) <==> (forall i | 0 <= i < |log| :: Chained(log, i, c, o)) && Replay(log).Some?
    decreases |log|
  {
    hide Chained;
    hide Fault;
    hide RuleBroken;
    if log != [] {
      var n := |log| - 1;
      var init := log[..n];
      VerifiesExactly(init, c, o);
      forall i | 0 <= i < n
        ensures Chained(init, i, c, o) <==> Chained(log, i, c, o)
      {
        SameChain(log, n, i, c, o);
      }
      if Replay(init).Some? {
        FaultExactly(log, n, c, o);
      }
    }
  }

  lemma SameChain(log: seq<Entry>, n: nat, i: nat, c: Crypto, o: VerifyOptions)
    requires i < n <= |log|
    ensures Chained(log[..n], i, c, o) <==> Chained(log, i, c, o)
  {
    hide FieldsInOrder;
    hide EntryPayload;
  }

  /** Signatures are unforgeable: what verifies under the operator's key, the operator signed. */
  ghost predicate Unforgeable(c: Crypto, operatorPublicKey: string, signedTexts: iset<string>) {
    forall p, s | c.verify(p, s, operatorPublicKey) :: p in signedTexts
  }

  /** Every entry of an accepted log is one the operator signed. */
  lemma EntriesWereSigned(log: seq<Entry>, c: Crypto, o: VerifyOptions, signedTexts: iset<string>, i: nat)
    requires Verifies(log, c, o) && Unforgeable(c, o.operatorPublicKey, signedTexts) && i < |log|
    ensures EntryPayload(log[i]) in signedTexts
  {
    VerifiesExactly(log, c, o);
    assert Chained(log, i, c, o);
  }

  // ---------------------------------------------------------------------------
  // The rules, over the history
  // ---------------------------------------------------------------------------

  /** Some entry before `n` introduces the key id for the subject. */
  predicate Introduced(log: seq<Entry>, n: nat, subject: string, keyId: string)
    requires n <= |log|
  {
    exists h | 0 <= h < n :: log[h].kind != Revoke && log[h].subject == subject && log[h].keyId == keyId
  }

  predicate Revoked(log: seq<Entry>, n: nat, subject: string, keyId: string)
    requires n <= |log|
  {
    exists h | 0 <= h < n :: log[h].kind == Revoke && log[h].subject == subject && log[h].keyId == keyId
  }

  predicate Used(log: seq<Entry>, n: nat, publicKey: string)
    requires n <= |log|
  {
    exists h | 0 <= h < n :: log[h].kind != Revoke && log[h].publicKey == Some(publicKey)
  }

  /** Some entry introduces the public key under a key id that is revoked by now. */
  predicate UsedAndRevoked(log: seq<Entry>, n: nat, publicKey: string)
    requires n <= |log|
  {
    exists h | 0 <= h < n ::
      log[h].kind != Revoke && log[h].publicKey == Some(publicKey) && Revoked(log, n, log[h].subject, log[h].keyId)
  }

  /** Entry `h` introduces a key that nothing before `n` replaces or revokes. */
  predicate InForce(log: seq<Entry>, n: nat, subject: string, h: nat)
    requires n <= |log|
  {
    && h < n && log[h].kind != Revoke && log[h].subject == subject
    && forall j | h < j < n && log[j].subject == subject :: log[j].kind == Revoke && log[j].keyId != log[h].keyId
  }

  predicate HasActive(log: seq<Entry>, n: nat, subject: string)
    requires n <= |log|
  {
    exists h | 0 <= h < n :: InForce(log, n, subject, h)
  }

  /** What the rules ask of entry `n`, given the entries before it. */
  predicate Permitted(log: seq<Entry>, n: nat)
    requires n < |log|
  {
    var e := log[n];
    match e.kind
    case Revoke => e.publicKey == None && Introduced(log, n, e.subject, e.keyId) && !Revoked(log, n, e.subject, e.keyId)
    case Register => Fresh(log, n) && !HasActive(log, n, e.subject)
    case Rotate => Fresh(log, n) && HasActive(log, n, e.subject)
  }

  /** The entry brings a key id new for its subject, and a public key new in the whole log. */
  predicate Fresh(log: seq<Entry>, n: nat)
    requires n < |log|
  {
    log[n].publicKey.Some? && !Introduced(log, n, log[n].subject, log[n].keyId) && !Used(log, n, log[n].publicKey.value)
  }

  predicate TellsOfKey(log: seq<Entry>, s: State, x: string, k: string) {
    && ((x in s.subjects && k in s.subjects[x].keys) <==> Introduced(log, |log|, x, k))
    && ((x in s.subjects && k in s.subjects[x].revokedKeyIds) <==> Revoked(log, |log|, x, k))
    && (Revoked(log, |log|, x, k) ==> Introduced(log, |log|, x, k))
  }

  /** The state says of a subject what the history says. */
  ghost predicate TellsOf(log: seq<Entry>, s: State, x: string) {
    && (forall k: string :: TellsOfKey(log, s, x, k))
    && ((x in s.subjects && s.subjects[x].active.Some?) <==> HasActive(log, |log|, x))
    && (x in s.subjects && s.subjects[x].active.Some? ==>
          exists h | 0 <= h < |log| :: InForce(log, |log|, x, h) && log[h].keyId == s.subjects[x].active.value.keyId)
    && (x in s.subjects ==> s.subjects[x].keys != map[])
  }

  ghost predicate Tells(log: seq<Entry>, s: State) {
    && (forall x: string :: TellsOf(log, s, x))
    && (forall p :: p in s.keyOwner <==> Used(log, |log|, p))
    && (forall p :: p in s.revokedPublicKeys <==> UsedAndRevoked(log, |log|, p))
    && (forall h | 0 <= h < |log| :: Recorded(s, log[h]))
  }

  predicate Recorded(s: State, e: Entry) {
    e.kind != Revoke ==>
      e.subject in s.subjects && e.keyId in s.subjects[e.subject].keys && e.publicKey == Some(s.subjects[e.subject].keys[e.keyId])
  }

  /** What the state says where entry `e` reads it. */
  lemma ToldWhereRead(log: seq<Entry>, s: State, e: Entry)
    requires Tells(log, s)
    ensures var all, n, known := log + [e], |log|, e.subject in s.subjects;
            && ((known && e.keyId in s.subjects[e.subject].keys) <==> Introduced(all, n, e.subject, e.keyId))
            && ((known && e.keyId in s.subjects[e.subject].revokedKeyIds) <==> Revoked(all, n, e.subject, e.keyId))
            && ((known && s.subjects[e.subject].active.Some?) <==> HasActive(all, n, e.subject))
            && (e.publicKey.Some? ==> (e.publicKey.value in s.keyOwner <==> Used(all, n, e.publicKey.value)))
            && (e.publicKey.Some? ==> (e.publicKey.value in s.revokedPublicKeys <==> UsedAndRevoked(all, n, e.publicKey.value)))
            && (!known <==> forall h | 0 <= h < n :: all[h].subject == e.subject ==> all[h].kind == Revoke)
  {
    assert TellsOf(log, s, e.subject) && TellsOfKey(log, s, e.subject, e.keyId);
    assert forall h | 0 <= h < |log| :: (log + [e])[h] == log[h] && Recorded(s, log[h]);
    KnownWasIntroduced(log, s, e.subject);
    Extended(log, e, e.subject, e.keyId);
    if e.publicKey.Some? {
      ExtendedUse(log, e, e.publicKey.value);
      ExtendedRevocation(log, e, e.publicKey.value);
    }
    hide Introduced;
    hide Revoked;
    hide HasActive;
    hide Used;
    hide UsedAndRevoked;
  }

  lemma KnownWasIntroduced(log: seq<Entry>, s: State, x: string)
    requires Tells(log, s)
    ensures x in s.subjects ==> exists h | 0 <= h < |log| :: log[h].subject == x && log[h].kind != Revoke
  {
    assert TellsOf(log, s, x);
    if x in s.subjects {
      var k :| k in s.subjects[x].keys;
      assert TellsOfKey(log, s, x, k);
    }
  }

  lemma UsedIfRevoked(log: seq<Entry>, n: nat, p: string)
    requires n <= |log|
    ensures UsedAndRevoked(log, n, p) ==> Used(log, n, p)
  {
  }

  lemma BrokenExactly(log: seq<Entry>, s: State, e: Entry)
    requires Tells(log, s)
    ensures RuleBroken(s, e) == None <==> Permitted(log + [e], |log|)
  {
    hide Tells;
    hide Introduced;
    hide Revoked;
    hide HasActive;
    hide Used;
    hide UsedAndRevoked;
    ToldWhereRead(log, s, e);
    if e.publicKey.Some? {
      UsedIfRevoked(log + [e], |log|, e.publicKey.value);
    }
  }

  /** What came before is the same in a longer log. */
  lemma Extended(log: seq<Entry>, e: Entry, x: string, k: string)
    ensures Introduced(log + [e], |log|, x, k) <==> Introduced(log, |log|, x, k)
    ensures Revoked(log + [e], |log|, x, k) <==> Revoked(log, |log|, x, k)
    ensures HasActive(log + [e], |log|, x) <==> HasActive(log, |log|, x)
  {
    var all := log + [e];
    assert forall h | 0 <= h < |log| :: all[h] == log[h];
    forall h | 0 <= h < |log|
      ensures InForce(all, |log|, x, h) <==> InForce(log, |log|, x, h)
    {
    }
  }

  lemma ExtendedUse(log: seq<Entry>, e: Entry, p: string)
    ensures Used(log + [e], |log|, p) <==> Used(log, |log|, p)
    ensures Used(log + [e], |log| + 1, p) <==> Used(log, |log|, p) || (e.kind != Revoke && e.publicKey == Some(p))
  {
    var all := log + [e];
    assert forall h | 0 <= h < |log| :: all[h] == log[h];
    assert all[|log|] == e;
  }

  lemma AddedKeys(log: seq<Entry>, e: Entry, x: string, k: string)
    ensures Introduced(log + [e], |log| + 1, x, k) <==> Introduced(log, |log|, x, k) || (e.kind != Revoke && e.subject == x && e.keyId == k)
    ensures Revoked(log + [e], |log| + 1, x, k) <==> Revoked(log, |log|, x, k) || (e.kind == Revoke && e.subject == x && e.keyId == k)
  {
    var all := log + [e];
    assert forall h | 0 <= h < |log| :: all[h] == log[h];
    assert all[|log|] == e;
  }

  lemma AddedForce(log: seq<Entry>, e: Entry, x: string, h: nat)
    ensures var all := log + [e];
            InForce(all, |log| + 1, x, h) <==>
              if h == |log| then e.kind != Revoke && e.subject == x
              else InForce(log, |log|, x, h) && (e.subject == x ==> e.kind == Revoke && e.keyId != log[h].keyId)
  {
    var all := log + [e];
    assert forall j | 0 <= j < |log| :: all[j] == log[j];
    assert all[|log|] == e;
  }

  /** Only one key of a subject is in force. */
  lemma OneInForce(log: seq<Entry>, n: nat, x: string, h: nat, j: nat)
    requires n <= |log| && InForce(log, n, x, h) && InForce(log, n, x, j)
    ensures h == j
  {
  }

  lemma StepTellsOf(log: seq<Entry>, s: State, e: Entry, x: string)
    requires Tells(log, s) && RuleBroken(s, e) == None
    ensures TellsOf(log + [e], Effect(s, e), x)
  {
    var all, t := log + [e], Effect(s, e);
    assert TellsOf(log, s, x);
    forall k: string
      ensures TellsOfKey(all, t, x, k)
    {
      assert TellsOfKey(log, s, x, k);
      AddedKeys(log, e, x, k);
    }
    StepActive(log, s, e, x);
    if x == e.subject {
      assert e.keyId in t.subjects[x].keys;
    }
  }

  lemma StepActive(log: seq<Entry>, s: State, e: Entry, x: string)
    requires Tells(log, s) && RuleBroken(s, e) == None
    ensures var all, t := log + [e], Effect(s, e);
            && ((x in t.subjects && t.subjects[x].active.Some?) <==> HasActive(all, |all|, x))
            && (x in t.subjects && t.subjects[x].active.Some? ==>
                  exists h | 0 <= h < |all| :: InForce(all, |all|, x, h) && all[h].keyId == t.subjects[x].active.value.keyId)
  {
    var all, t := log + [e], Effect(s, e);
    assert TellsOf(log, s, x);
    AddedForce(log, e, x, |log|);
    assert all[|log|] == e;
    if x in s.subjects && s.subjects[x].active.Some? {
      var h :| 0 <= h < |log| && InForce(log, |log|, x, h) && log[h].keyId == s.subjects[x].active.value.keyId;
      AddedForce(log, e, x, h);
      assert all[h] == log[h];
      forall j | 0 <= j < |all|
        ensures InForce(all, |all|, x, j) ==> j == h || j == |log|
      {
        AddedForce(log, e, x, j);
        if j < |log| && InForce(log, |log|, x, j) {
          OneInForce(log, |log|, x, h, j);
        }
      }
    } else {
      forall j | 0 <= j < |log|
        ensures !InForce(all, |all|, x, j)
      {
        AddedForce(log, e, x, j);
      }
    }
  }

  lemma StepTells(log: seq<Entry>, s: State, e: Entry)
    requires Tells(log, s) && RuleBroken(s, e) == None
    ensures Tells(log + [e], Effect(s, e))
  {
    hide Effect;
    hide RuleBroken;
    hide TellsOf;
    hide Recorded;
    hide Used;
    hide UsedAndRevoked;
    forall x: string
      ensures TellsOf(log + [e], Effect(s, e), x)
    {
      StepTellsOf(log, s, e, x);
    }
    forall p
      ensures p in Effect(s, e).keyOwner <==> Used(log + [e], |log| + 1, p)
      ensures p in Effect(s, e).revokedPublicKeys <==> UsedAndRevoked(log + [e], |log| + 1, p)
    {
      StepUsed(log, s, e, p);
      StepRevoked(log, s, e, p);
    }
    forall h | 0 <= h < |log| + 1
      ensures Recorded(Effect(s, e), (log + [e])[h])
    {
      StepRecorded(log, s, e, h);
    }
  }

  lemma StepUsed(log: seq<Entry>, s: State, e: Entry, p: string)
    requires Tells(log, s) && RuleBroken(s, e) == None
    ensures p in Effect(s, e).keyOwner <==> Used(log + [e], |log| + 1, p)
  {
    ExtendedUse(log, e, p);
    hide TellsOf;
    hide UsedAndRevoked;
    hide Used;
  }

  lemma StepRecorded(log: seq<Entry>, s: State, e: Entry, h: nat)
    requires Tells(log, s) && RuleBroken(s, e) == None && h <= |log|
    ensures Recorded(Effect(s, e), (log + [e])[h])
  {
    hide TellsOf;
    hide Used;
    hide UsedAndRevoked;
    assert h < |log| ==> (log + [e])[h] == log[h] && Recorded(s, log[h]);
  }

  lemma StepRevoked(log: seq<Entry>, s: State, e: Entry, p: string)
    requires Tells(log, s) && RuleBroken(s, e) == None
    ensures p in Effect(s, e).revokedPublicKeys <==> UsedAndRevoked(log + [e], |log| + 1, p)
  {
    var all := log + [e];
    assert TellsOf(log, s, e.subject) && TellsOfKey(log, s, e.subject, e.keyId);
    assert forall h | 0 <= h < |log| :: all[h] == log[h] && Recorded(s, log[h]);
    assert all[|log|] == e;
    forall h | 0 <= h <= |log|
      ensures Revoked(all, |log| + 1, all[h].subject, all[h].keyId) <==>
              Revoked(log, |log|, all[h].subject, all[h].keyId) || (e.kind == Revoke && e.subject == all[h].subject && e.keyId == all[h].keyId)
    {
      AddedKeys(log, e, all[h].subject, all[h].keyId);
    }
  }

  /** The rules are kept exactly when the history permits every entry. */
  lemma {:induction false} RulesExactly(log: seq<Entry>)
    ensures Replay(log).Some? <==> forall n | 0 <= n < |log| :: Permitted(log, n)
    ensures Replay(log).Some? ==> Tells(log, Replay(log).value)
    decreases |log|
  {
    hide RuleBroken;
    hide Effect;
    hide Permitted;
    hide Tells;
    if log == [] {
      NothingTold();
    } else {
      var n := |log| - 1;
      var init, e := log[..n], log[n];
      RulesExactly(init);
      assert log == init + [e];
      forall m | 0 <= m < n
        ensures Permitted(log, m) <==> Permitted(init, m)
      {
        SamePermission(log, n, m);
      }
      if Replay(init).Some? {
        BrokenExactly(init, Replay(init).value, e);
        if RuleBroken(Replay(init).value, e) == None {
          StepTells(init, Replay(init).value, e);
        }
      }
    }
  }

  lemma NothingTold()
    ensures Tells([], START)
  {
  }

  lemma SamePermission(log: seq<Entry>, n: nat, m: nat)
    requires m < n <= |log|
    ensures Permitted(log, m) <==> Permitted(log[..n], m)
  {
    var init := log[..n];
    assert forall h | 0 <= h < n :: init[h] == log[h];
    forall h | 0 <= h < m
      ensures InForce(init, m, log[m].subject, h) <==> InForce(log, m, log[m].subject, h)
    {
    }
  }

  // ---------------------------------------------------------------------------
  // Refusals
  // ---------------------------------------------------------------------------

  /** The entry does not name the hash of the one before. */
  predicate Broken(log: seq<Entry>, c: Crypto)
    requires log != []
  {
    var n := |log| - 1;
    if n == 0 then exists j | 0 <= j < |log[n].prevHash| :: log[n].prevHash[j] != '0'
    else log[n].prevHash != c.sha256Hex(EntryPayload(log[n - 1]) + "." + log[n - 1].signature)
  }

  /** What each reason says of the last entry. */
  ghost predicate Violates(log: seq<Entry>, c: Crypto, o: VerifyOptions, f: Failure)
    requires log != []
  {
    var n := |log| - 1;
    var e := log[n];
    match f
    case Malformed => !FieldsInOrder(e) || e.index < 0
    case WrongIndex => e.index != n
    case BrokenChain => Broken(log, c)
    case WrongOperator => o.operator.Some? && e.operator != o.operator.value
    case InvalidSignature => !c.verify(EntryPayload(e), e.signature, o.operatorPublicKey)
    case TimeWentBackwards => e.timestampMs > o.horizon || e.timestampMs < (if n == 0 then 0 else log[n - 1].timestampMs)
    case _ => ViolatesRule(log, f)
  }

  predicate ViolatesRule(log: seq<Entry>, f: Failure)
    requires log != []
  {
    var n := |log| - 1;
    var e := log[n];
    match f
    case NotRegistered => e.kind != Register && forall h | 0 <= h < n :: log[h].subject == e.subject ==> log[h].kind == Revoke
    case UnexpectedPublicKey => e.kind == Revoke && e.publicKey.Some?
    case UnknownKey => e.kind == Revoke && !Introduced(log, n, e.subject, e.keyId)
    case AlreadyRevoked => e.kind == Revoke && Revoked(log, n, e.subject, e.keyId)
    case MissingPublicKey => e.kind != Revoke && e.publicKey == None
    case AlreadyRegistered => e.kind == Register && HasActive(log, n, e.subject)
    case NoActiveKey => e.kind == Rotate && !HasActive(log, n, e.subject)
    case DuplicateKeyId => e.kind != Revoke && Introduced(log, n, e.subject, e.keyId)
    case RevokedKeyReuse => e.kind != Revoke && e.publicKey.Some? && UsedAndRevoked(log, n, e.publicKey.value)
    case KeyReuse =>
      e.kind != Revoke && e.publicKey.Some? && Used(log, n, e.publicKey.value) && !UsedAndRevoked(log, n, e.publicKey.value)
    case _ => false
  }

  /** The reason given for refusing an entry is true of it. */
  lemma RefusalIsTrue(log: seq<Entry>, c: Crypto, o: VerifyOptions)
    requires log != [] && Verifies(log[..|log| - 1], c, o)
    ensures var f := Fault(log[..|log| - 1], log[|log| - 1], c, o);
            f.Some? ==> Violates(log, c, o, f.value)
  {
    hide Violates;
    hide Permitted;
    hide Tells;
    hide Fault;
    hide ViolatesRule;
    hide RuleFailure;
    hide RuleBroken;
    hide Replay;
    hide Verifies;
    var init, e := log[..|log| - 1], log[|log| - 1];
    RulesExactly(init);
    RuleIsTrue(init, Replay(init).value, e);
    assert log == init + [e];
    CheckIsTrue(log, c, o);
    var f := Fault(init, e, c, o);
    if f.Some? && f == RuleBroken(Replay(init).value, e) {
      RuleViolation(log, c, o, f.value);
    }
  }

  lemma RuleViolation(log: seq<Entry>, c: Crypto, o: VerifyOptions, f: Failure)
    requires log != [] && RuleFailure(f) && ViolatesRule(log, f)
    ensures Violates(log, c, o, f)
  {
    hide ViolatesRule;
  }

  lemma CheckIsTrue(log: seq<Entry>, c: Crypto, o: VerifyOptions)
    requires log != [] && Replay(log[..|log| - 1]).Some?
    ensures var f, broken := Fault(log[..|log| - 1], log[|log| - 1], c, o), RuleBroken(Replay(log[..|log| - 1]).value, log[|log| - 1]);
            f.Some? ==> if f == broken then RuleFailure(f.value) else Violates(log, c, o, f.value)
  {
    var e := log[|log| - 1];
    FieldsExactly(e);
    RuleKinds(Replay(log[..|log| - 1]).value, e);
    BreakIsTrue(log, c);
    hide FieldsInOrder;
    hide WellFormed;
    hide ViolatesRule;
    hide RuleBroken;
    hide Replay;
    hide EntryPayload;
    hide Broken;
    hide Head;
  }

  lemma BreakIsTrue(log: seq<Entry>, c: Crypto)
    requires log != []
    ensures WellFormed(log[|log| - 1]) && log[|log| - 1].prevHash != Head(log[..|log| - 1], c) ==> Broken(log, c)
  {
    GenesisExactly(log[|log| - 1].prevHash);
    hide EntryPayload;
    hide GENESIS_HASH;
  }

  predicate RuleFailure(f: Failure) {
    !f.Malformed? && !f.WrongIndex? && !f.BrokenChain? && !f.WrongOperator? && !f.InvalidSignature? && !f.TimeWentBackwards?
  }

  lemma RuleKinds(s: State, e: Entry)
    ensures RuleBroken(s, e).Some? ==> RuleFailure(RuleBroken(s, e).value)
  {
  }

  lemma RuleIsTrue(log: seq<Entry>, s: State, e: Entry)
    requires Tells(log, s)
    ensures RuleBroken(s, e).Some? ==> ViolatesRule(log + [e], RuleBroken(s, e).value)
  {
    hide Tells;
    hide Introduced;
    hide Revoked;
    hide HasActive;
    hide Used;
    hide UsedAndRevoked;
    ToldWhereRead(log, s, e);
  }

  /** Where in the order of checks a reason comes up. */
  function Rank(f: Failure): nat {
    match f
    case Malformed => 0
    case WrongIndex => 1
    case BrokenChain => 2
    case WrongOperator => 3
    case InvalidSignature => 4
    case TimeWentBackwards => 5
    case UnexpectedPublicKey => 6
    case MissingPublicKey => 6
    case NotRegistered => 7
    case UnknownKey => 8
    case AlreadyRevoked => 9
    case AlreadyRegistered => 8
    case NoActiveKey => 8
    case DuplicateKeyId => 9
    case RevokedKeyReuse => 10
    case KeyReuse => 11
  }

  /** An entry is refused for the first thing that is wrong with it. */
  lemma RefusalIsFirst(log: seq<Entry>, c: Crypto, o: VerifyOptions)
    requires log != [] && Verifies(log[..|log| - 1], c, o)
    ensures var f := Fault(log[..|log| - 1], log[|log| - 1], c, o);
            f.Some? ==> Violates(log, c, o, f.value) && forall g | Rank(g) < Rank(f.value) :: !Violates(log, c, o, g)
  {
    RefusalIsTrue(log, c, o);
    hide Violates;
    hide Rank;
    hide Fault;
    hide Verifies;
    forall g
      ensures var f := Fault(log[..|log| - 1], log[|log| - 1], c, o);
              f.Some? && Rank(g) < Rank(f.value) ==> !Violates(log, c, o, g)
    {
      if RuleFailure(g) {
        NoRuleEarlier(log, c, o, g);
      } else {
        NoCheckEarlier(log, c, o, g);
      }
    }
  }

  lemma NoCheckEarlier(log: seq<Entry>, c: Crypto, o: VerifyOptions, g: Failure)
    requires log != [] && Replay(log[..|log| - 1]).Some? && !RuleFailure(g)
    ensures var f := Fault(log[..|log| - 1], log[|log| - 1], c, o);
            f.Some? && Rank(g) < Rank(f.value) ==> !Violates(log, c, o, g)
  {
    var e := log[|log| - 1];
    FieldsExactly(e);
    RuleKinds(Replay(log[..|log| - 1]).value, e);
    NotBroken(log, c);
    hide FieldsInOrder;
    hide WellFormed;
    hide ViolatesRule;
    hide RuleBroken;
    hide Replay;
    hide EntryPayload;
    hide Broken;
    hide Head;
  }

  lemma NotBroken(log: seq<Entry>, c: Crypto)
    requires log != []
    ensures log[|log| - 1].prevHash == Head(log[..|log| - 1], c) ==> !Broken(log, c)
  {
    GenesisExactly(log[|log| - 1].prevHash);
    hide EntryPayload;
    hide GENESIS_HASH;
  }

  lemma NoRuleEarlier(log: seq<Entry>, c: Crypto, o: VerifyOptions, g: Failure)
    requires log != [] && Verifies(log[..|log| - 1], c, o) && RuleFailure(g)
    ensures var f := Fault(log[..|log| - 1], log[|log| - 1], c, o);
            f.Some? && Rank(g) < Rank(f.value) ==> !Violates(log, c, o, g)
  {
    hide Permitted;
    hide Tells;
    hide ViolatesRule;
    hide RuleBroken;
    hide Replay;
    hide Verifies;
    hide WellFormed;
    hide EntryPayload;
    hide Head;
    var init, e := log[..|log| - 1], log[|log| - 1];
    RulesExactly(init);
    assert log == init + [e];
    FirstRule(init, Replay(init).value, e, g);
    RuleKinds(Replay(init).value, e);
  }

  lemma FirstRule(log: seq<Entry>, s: State, e: Entry, g: Failure)
    requires Tells(log, s) && RuleFailure(g)
    ensures RuleBroken(s, e).Some? && Rank(g) < Rank(RuleBroken(s, e).value) ==> !ViolatesRule(log + [e], g)
  {
    hide Tells;
    hide Introduced;
    hide Revoked;
    hide HasActive;
    hide Used;
    hide UsedAndRevoked;
    ToldWhereRead(log, s, e);
  }

  lemma ExtendedRevocation(log: seq<Entry>, e: Entry, p: string)
    ensures UsedAndRevoked(log + [e], |log|, p) <==> UsedAndRevoked(log, |log|, p)
  {
    var all, n := log + [e], |log|;
    assert forall h | 0 <= h < n :: all[h] == log[h];
    forall h | 0 <= h < n
      ensures Revoked(all, n, all[h].subject, all[h].keyId) <==> Revoked(log, n, log[h].subject, log[h].keyId)
    {
      Extended(log, e, log[h].subject, log[h].keyId);
    }
  }

  /** A log is accepted exactly when every entry is chained to the one before and permitted by those before it. */
  lemma AcceptedExactly(log: seq<Entry>, c: Crypto, o: VerifyOptions)
    ensures Verifies(log, c, o) <==> forall i | 0 <= i < |log| :: Chained(log, i, c, o) && Permitted(log, i)
  {
    hide Chained;
    hide Permitted;
    hide Verifies;
    VerifiesExactly(log, c, o);
    RulesExactly(log);
  }

  // ---------------------------------------------------------------------------
  // Readers and checkpoints
  // ---------------------------------------------------------------------------

  /** Of a log that keeps the rules, a reader takes for active the key in force, and for revoked the revoked ones. */
  lemma ResolvedExactly(log: seq<Entry>, x: string, k: string)
    requires Replay(log).Some?
    ensures var r := Resolve(log);
            && (x in r.active <==> HasActive(log, |log|, x))
            && (x in r.active ==>
                  exists h | 0 <= h < |log| :: InForce(log, |log|, x, h) && log[h].keyId == r.active[x].keyId)
            && ((x in r.revoked && k in r.revoked[x]) <==> Revoked(log, |log|, x, k))
  {
    RulesExactly(log);
    ReadersAgree(log);
    var s := Replay(log).value;
    hide Replay;
    hide Resolve;
    assert AgreeOn(Resolve(log), s, x);
    assert TellsOf(log, s, x) && TellsOfKey(log, s, x, k);
    hide InForce;
    hide HasActive;
    hide Revoked;
    hide Introduced;
  }

  /** A checkpoint counts exactly when it is well formed and verifies under the operator's key. */
  lemma CheckpointExactly(cp: Checkpoint, c: Crypto, operatorPublicKey: string)
    ensures VerifyCheckpoint(cp, c, operatorPublicKey) <==>
              && cp.version == "7h3-keylog/1"
              && 0 <= cp.size <= 0x1F_FFFF_FFFF_FFFF && -0x1F_FFFF_FFFF_FFFF <= cp.timestampMs <= 0x1F_FFFF_FFFF_FFFF
              && HexDigest(cp.headHash)
              && operatorPublicKey != "" && c.verify(SignedTexts.CheckpointText(cp), cp.signature, operatorPublicKey)
  {
    HashExactly(cp.headHash);
    SignedTexts.CheckpointPayloadText(cp);
    hide Hash;
    hide HexDigest;
    hide CheckpointPayload;
    hide SignedTexts.CheckpointText;
  }

  /** The last of the first `n` entries hashes to that digest, or there is none and the digest is all zeros. */
  predicate EndsIn(log: seq<Entry>, n: nat, digest: string, c: Crypto)
    requires n <= |log|
  {
    if n == 0 then |digest| == 64 && forall j | 0 <= j < |digest| :: digest[j] == '0'
    else digest == c.sha256Hex(EntryPayload(log[n - 1]) + "." + log[n - 1].signature)
  }

  /** A log extends a checkpoint exactly when the checkpoint counts and the log's first entries, as many as it says, are
      chained, permitted and end in its hash. */
  lemma ExtendsExactly(entries: seq<Entry>, cp: Checkpoint, c: Crypto, operatorPublicKey: string, horizon: int)
    ensures Extends(entries, cp, c, operatorPublicKey, horizon) <==>
              && VerifyCheckpoint(cp, c, operatorPublicKey)
              && cp.size <= |entries|
              && (forall i | 0 <= i < cp.size :: Chained(entries, i, c, VerifyOptions(operatorPublicKey, None, horizon)) && Permitted(entries, i))
              && EndsIn(entries, cp.size, cp.headHash, c)
  {
    SizeCounts(cp, c, operatorPublicKey);
    hide VerifyCheckpoint;
    hide Chained;
    hide Permitted;
    hide Verifies;
    if 0 <= cp.size <= |entries| {
      var o, prefix := VerifyOptions(operatorPublicKey, None, horizon), entries[..cp.size];
      AcceptedExactly(prefix, c, o);
      GenesisExactly(cp.headHash);
      hide GENESIS_HASH;
      forall i | 0 <= i < cp.size
        ensures Chained(prefix, i, c, o) <==> Chained(entries, i, c, o)
        ensures Permitted(prefix, i) <==> Permitted(entries, i)
      {
        SameChain(entries, cp.size, i, c, o);
        SamePermission(entries, cp.size, i);
      }
    }
  }

  lemma SizeCounts(cp: Checkpoint, c: Crypto, operatorPublicKey: string)
    ensures VerifyCheckpoint(cp, c, operatorPublicKey) ==> cp.size >= 0
  {
  }
}
