/** The append-only signed key log (src/keyLog.ts): its rules as a state machine, its hash chain, and the
    checkpoints that commit to a prefix of it. */
module KeyLog {
  import opened Prelude
  import opened Bytes
  import opened Text
  import Json

  const KEYLOG_VERSION: string := "7h3-keylog/1"
  const GENESIS_HASH: string := Zeros(64)

  function Zeros(n: nat): (s: string)
    ensures |s| == n && forall c | c in s :: c == '0'
  {
    if n == 0 then "" else "0" + Zeros(n - 1)
  }

  datatype EntryType = Register | Rotate | Revoke

  datatype Entry = Entry(
    version: string, index: int, kind: EntryType, subject: string, keyId: string, publicKey: Option<string>, reason: Option<string>,
    timestampMs: int, prevHash: string, operator: string, signature: string)

  datatype Checkpoint = Checkpoint(version: string, operator: string, size: int, headHash: string, timestampMs: int, signature: string)

  /** `verify(payload, signature, publicKey)` and SHA-256 in hex: the two primitives the log rests on. */
  datatype Crypto = Crypto(verify: (string, string, string) -> bool, sha256Hex: string -> string)

  // ---------------------------------------------------------------------------
  // Payloads and hashes
  // ---------------------------------------------------------------------------

  function TypeText(t: EntryType): string {
    match t
    case Register => "register"
    case Rotate => "rotate"
    case Revoke => "revoke"
  }

  function OrNull(o: Option<string>): Json.Value {
    if o.Some? then Json.Str(o.value) else Json.Null
  }

  function Whole(i: int): Json.Value { Json.Num(Json.Safe(i)) }

  function PayloadValue(e: Entry): Json.Value {
    Json.Obj(map[
      "version" := Json.Str(e.version), "index" := Whole(e.index), "type" := Json.Str(TypeText(e.kind)),
      "subject" := Json.Str(e.subject), "keyId" := Json.Str(e.keyId), "publicKey" := OrNull(e.publicKey),
      "reason" := OrNull(e.reason), "timestampMs" := Whole(e.timestampMs), "prevHash" := Json.Str(e.prevHash),
      "operator" := Json.Str(e.operator)])
  }

  function EntryPayload(e: Entry): string { Json.Print(PayloadValue(e)) }

  /** What `keyLogEntryHash` hashes: the payload, a dot and the signature. */
  function Preimage(e: Entry): string { EntryPayload(e) + "." + e.signature }

  function EntryHash(e: Entry, c: Crypto): string { c.sha256Hex(Preimage(e)) }

  function CheckpointPayload(cp: Checkpoint): string {
    Json.Print(Json.Obj(map[
      "version" := Json.Str(cp.version), "operator" := Json.Str(cp.operator), "size" := Whole(cp.size),
      "headHash" := Json.Str(cp.headHash), "timestampMs" := Whole(cp.timestampMs)]))
  }

  // ---------------------------------------------------------------------------
  // The rules
  // ---------------------------------------------------------------------------

  datatype Failure =
    | Malformed | WrongIndex | BrokenChain | WrongOperator | InvalidSignature | TimeWentBackwards
    | DuplicateKeyId | AlreadyRegistered | NotRegistered | NoActiveKey | UnknownKey | AlreadyRevoked
    | RevokedKeyReuse | KeyReuse | MissingPublicKey | UnexpectedPublicKey

  datatype Key = Key(keyId: string, publicKey: string)

  datatype SubjectState = SubjectState(active: Option<Key>, keys: map<string, string>, revokedKeyIds: set<string>)

  datatype State = State(subjects: map<string, SubjectState>, keyOwner: map<string, string>, revokedPublicKeys: set<string>)

  const START: State := State(map[], map[], {})

  /** The rule an entry breaks, if any. */
  function RuleBroken(s: State, e: Entry): Option<Failure> {
    var known := e.subject in s.subjects;
    if e.kind == Revoke then
      if e.publicKey.Some? then Some(UnexpectedPublicKey)
      else if !known then Some(NotRegistered)
      else if e.keyId !in s.subjects[e.subject].keys then Some(UnknownKey)
      else if e.keyId in s.subjects[e.subject].revokedKeyIds then Some(AlreadyRevoked)
      else None
    else if e.publicKey.None? then Some(MissingPublicKey)
    else if !known && e.kind == Rotate then Some(NotRegistered)
    else if e.kind == Register && known && s.subjects[e.subject].active.Some? then Some(AlreadyRegistered)
    else if e.kind == Rotate && s.subjects[e.subject].active.None? then Some(NoActiveKey)
    else if known && e.keyId in s.subjects[e.subject].keys then Some(DuplicateKeyId)
    else if e.publicKey.value in s.revokedPublicKeys then Some(RevokedKeyReuse)
    else if e.publicKey.value in s.keyOwner then Some(KeyReuse)
    else None
  }

  /** The state after an entry that breaks no rule. */
  function Effect(s: State, e: Entry): State
    requires RuleBroken(s, e).None?
  {
    if e.kind == Revoke then
      var prior := s.subjects[e.subject];
      var active := if prior.active.Some? && prior.active.value.keyId == e.keyId then None else prior.active;
      State(
        s.subjects[e.subject := SubjectState(active, prior.keys, prior.revokedKeyIds + {e.keyId})],
        s.keyOwner, s.revokedPublicKeys + {prior.keys[e.keyId]})
    else
      var prior := if e.subject in s.subjects then s.subjects[e.subject] else SubjectState(None, map[], {});
      var p := e.publicKey.value;
      State(
        s.subjects[e.subject := SubjectState(Some(Key(e.keyId, p)), prior.keys[e.keyId := p], prior.revokedKeyIds)],
        s.keyOwner[p := e.subject], s.revokedPublicKeys)
  }

  class KeyLogState {
    var subjects: map<string, SubjectState>
    var keyOwner: map<string, string>
    var revokedPublicKeys: set<string>

    ghost function Value(): State
      reads this
    {
      State(subjects, keyOwner, revokedPublicKeys)
    }

    constructor ()
      ensures Value() == START
    {
      subjects, keyOwner, revokedPublicKeys := map[], map[], {};
    }

    /** Refused entries change nothing; accepted ones have the effect above. */
    method Apply(e: Entry) returns (broken: Option<Failure>)
      modifies this
      ensures broken == RuleBroken(old(Value()), e)
      ensures Value() == if broken.None? then Effect(old(Value()), e) else old(Value())
    {
      var known := e.subject in subjects;
      if e.kind == Revoke {
        if e.publicKey.Some? {
          return Some(UnexpectedPublicKey);
        }
        if !known {
          return Some(NotRegistered);
        }
        var s := subjects[e.subject];
        if e.keyId !in s.keys {
          return Some(UnknownKey);
        }
        var publicKey := s.keys[e.keyId];
        if e.keyId in s.revokedKeyIds {
          return Some(AlreadyRevoked);
        }
        s := s.(revokedKeyIds := s.revokedKeyIds + {e.keyId});
        revokedPublicKeys := revokedPublicKeys + {publicKey};
        if s.active.Some? && s.active.value.keyId == e.keyId {
          s := s.(active := None);
        }
        subjects := subjects[e.subject := s];
        return None;
      }
      if e.publicKey.None? {
        return Some(MissingPublicKey);
      }
      var s := SubjectState(None, map[], {});
      if known {
        s := subjects[e.subject];
      } else if e.kind == Rotate {
        return Some(NotRegistered);
      }
      if e.kind == Register && s.active.Some? {
        return Some(AlreadyRegistered);
      }
      if e.kind == Rotate && s.active.None? {
        return Some(NoActiveKey);
      }
      if e.keyId in s.keys {
        return Some(DuplicateKeyId);
      }
      var p := e.publicKey.value;
      if p in revokedPublicKeys {
        return Some(RevokedKeyReuse);
      }
      if p in keyOwner {
        return Some(KeyReuse);
      }
      s := SubjectState(Some(Key(e.keyId, p)), s.keys[e.keyId := p], s.revokedKeyIds);
      subjects := subjects[e.subject := s];
      keyOwner := keyOwner[p := e.subject];
      return None;
    }
  }

  // ---------------------------------------------------------------------------
  // Verifying a log
  // ---------------------------------------------------------------------------

  /** `/^[A-Za-z0-9@._:/#-]{1,256}$/` */
  predicate Name(s: string) {
    1 <= |s| <= 256 && forall c | c in s ::
      'a' <= c <= 'z' || 'A' <= c <= 'Z' || Digit(c) || c in ['@', '.', '_', ':', '/', '#', '-']
  }

  /** `/^[0-9a-f]{64}$/` */
  predicate Hash(s: string) {
    |s| == 64 && forall c | c in s :: Digit(c) || 'a' <= c <= 'f'
  }

  predicate WellFormed(e: Entry) {
    && e.version == KEYLOG_VERSION
    && 0 <= e.index <= MAX_SAFE
    && Name(e.subject) && Name(e.keyId)
    && (e.publicKey.Some? ==> 0 < Utf16Length(e.publicKey.value) < 512)
    && (e.reason.Some? ==> Utf16Length(e.reason.value) < 1024)
    && SafeInteger(e.timestampMs)
    && Hash(e.prevHash)
    && Name(e.operator)
    && e.signature != ""
  }

  /** `horizon` is the latest time an entry may carry: the verifier's clock plus the allowed skew. */
  datatype VerifyOptions = VerifyOptions(operatorPublicKey: string, operator: Option<string>, horizon: int)

  function Head(log: seq<Entry>, c: Crypto): string {
    if log == [] then GENESIS_HASH else EntryHash(log[|log| - 1], c)
  }

  function LastTime(log: seq<Entry>): int {
    if log == [] then 0 else log[|log| - 1].timestampMs
  }

  /** The rules' state after a log, `None` if some entry breaks a rule. */
  function Replay(log: seq<Entry>): Option<State> {
    if log == [] then Some(START)
    else
      var before := Replay(log[..|log| - 1]);
      if before.None? || RuleBroken(before.value, log[|log| - 1]).Some? then None
      else Some(Effect(before.value, log[|log| - 1]))
  }

  /** The check that entry `e` fails after the log `before`, in the verifier's order. */
  function Fault(before: seq<Entry>, e: Entry, c: Crypto, o: VerifyOptions): Option<Failure>
    requires Replay(before).Some?
  {
    if !WellFormed(e) then Some(Malformed)
    else if e.index != |before| then Some(WrongIndex)
    else if e.prevHash != Head(before, c) then Some(BrokenChain)
    else if o.operator.Some? && e.operator != o.operator.value then Some(WrongOperator)
    else if !c.verify(EntryPayload(e), e.signature, o.operatorPublicKey) then Some(InvalidSignature)
    else if e.timestampMs > o.horizon then Some(TimeWentBackwards)
    else if e.timestampMs < LastTime(before) then Some(TimeWentBackwards)
    else RuleBroken(Replay(before).value, e)
  }

  /** Every entry passes every check after the ones before it. */
  predicate Verifies(log: seq<Entry>, c: Crypto, o: VerifyOptions)
    ensures Verifies(log, c, o) ==> Replay(log).Some?
  {
    log == [] || (Verifies(log[..|log| - 1], c, o) && Fault(log[..|log| - 1], log[|log| - 1], c, o).None?)
  }

  datatype Verdict = NoOperatorKey | Accepted(size: nat, headHash: string) | Rejected(index: nat, reason: Failure)

  /** `verifyKeyLog`; `NoOperatorKey` is its exception. */
  method VerifyKeyLog(entries: seq<Entry>, c: Crypto, o: VerifyOptions) returns (v: Verdict)
    ensures v.NoOperatorKey? <==> o.operatorPublicKey == ""
    ensures v.Accepted? <==> o.operatorPublicKey != "" && Verifies(entries, c, o)
    ensures v.Accepted? ==> v == Accepted(|entries|, Head(entries, c))
    ensures v.Rejected? ==>
              v.index < |entries| && Verifies(entries[..v.index], c, o)
              && Fault(entries[..v.index], entries[v.index], c, o) == Some(v.reason)
  {
    hide WellFormed;
    hide EntryPayload;
    hide EntryHash;
    hide RuleBroken;
    hide Effect;
    if o.operatorPublicKey == "" {
      return NoOperatorKey;
    }
    var state := new KeyLogState();
    var prev := GENESIS_HASH;
    var lastTime := 0;
    for i := 0 to |entries|
      invariant Verifies(entries[..i], c, o)
      invariant prev == Head(entries[..i], c) && lastTime == LastTime(entries[..i])
      invariant state.Value() == Replay(entries[..i]).value
      invariant fresh(state)
    {
      var e := entries[i];
      assert entries[..i + 1][..i] == entries[..i];
      var fault: Option<Failure> := None;
      if !WellFormed(e) {
        fault := Some(Malformed);
      } else if e.index != i {
        fault := Some(WrongIndex);
      } else if e.prevHash != prev {
        fault := Some(BrokenChain);
      } else if o.operator.Some? && e.operator != o.operator.value {
        fault := Some(WrongOperator);
      } else if !c.verify(EntryPayload(e), e.signature, o.operatorPublicKey) {
        fault := Some(InvalidSignature);
      } else if e.timestampMs > o.horizon {
        fault := Some(TimeWentBackwards);
      } else if e.timestampMs < lastTime {
        fault := Some(TimeWentBackwards);
      } else {
        fault := state.Apply(e);
      }
      if fault.Some? {
        VerifiesPrefix(entries, i + 1, c, o);
        return Rejected(i, fault.value);
      }
      lastTime := e.timestampMs;
      prev := EntryHash(e, c);
    }
    assert entries[..|entries|] == entries;
    return Accepted(|entries|, prev);
  }

  lemma {:induction false} VerifiesPrefix(log: seq<Entry>, n: nat, c: Crypto, o: VerifyOptions)
    requires n <= |log|
    ensures Verifies(log, c, o) ==> Verifies(log[..n], c, o)
    decreases |log|
  {
    if n == |log| {
      assert log[..n] == log;
    } else {
      assert log[..|log| - 1][..n] == log[..n];
      VerifiesPrefix(log[..|log| - 1], n, c, o);
    }
  }

  lemma {:induction false} LaterHorizon(log: seq<Entry>, c: Crypto, o: VerifyOptions, later: int)
    requires Verifies(log, c, o) && o.horizon <= later
    ensures Verifies(log, c, o.(horizon := later))
  {
    if log != [] {
      LaterHorizon(log[..|log| - 1], c, o, later);
    }
  }

  // ---------------------------------------------------------------------------
  // Checkpoints commit to one history
  // ---------------------------------------------------------------------------

  /** An empty operator key cannot be imported, so nothing verifies under it. */
  predicate VerifyCheckpoint(cp: Checkpoint, c: Crypto, operatorPublicKey: string) {
    && cp.version == KEYLOG_VERSION
    && 0 <= cp.size <= MAX_SAFE && Hash(cp.headHash)
    && SafeInteger(cp.timestampMs)
    && operatorPublicKey != ""
    && c.verify(CheckpointPayload(cp), cp.signature, operatorPublicKey)
  }

  /** `logExtendsCheckpoint`, with its verdict on the prefix spelled out. */
  predicate Extends(entries: seq<Entry>, cp: Checkpoint, c: Crypto, operatorPublicKey: string, horizon: int) {
    && VerifyCheckpoint(cp, c, operatorPublicKey)
    && |entries| >= cp.size
    && Verifies(entries[..cp.size], c, VerifyOptions(operatorPublicKey, None, horizon))
    && Head(entries[..cp.size], c) == cp.headHash
  }

  method LogExtendsCheckpoint(cp: Checkpoint, entries: seq<Entry>, c: Crypto, operatorPublicKey: string, horizon: int) returns (extended: bool)
    ensures extended <==> Extends(entries, cp, c, operatorPublicKey, horizon)
  {
    if !VerifyCheckpoint(cp, c, operatorPublicKey) {
      return false;
    }
    if |entries| < cp.size {
      return false;
    }
    var verdict := VerifyKeyLog(entries[..cp.size], c, VerifyOptions(operatorPublicKey, None, horizon));
    return verdict.Accepted? && verdict.size == cp.size && verdict.headHash == cp.headHash;
  }

  predicate CheckpointsConflict(a: Checkpoint, b: Checkpoint, c: Crypto, operatorPublicKey: string) {
    a.size == b.size && a.headHash != b.headHash && VerifyCheckpoint(a, c, operatorPublicKey) && VerifyCheckpoint(b, c, operatorPublicKey)
  }

  lemma PayloadPrintable(e: Entry)
    requires WellFormed(e)
    ensures Json.Printable(PayloadValue(e))
  {
  }

  /** What is hashed determines every field of a well-formed entry. */
  lemma PreimageInjective(a: Entry, b: Entry)
    requires WellFormed(a) && WellFormed(b) && Preimage(a) == Preimage(b)
    ensures a == b
  {
    var v, w := PayloadValue(a), PayloadValue(b);
    PayloadPrintable(a);
    PayloadPrintable(b);
    Regroup(EntryPayload(a), ".", a.signature);
    Regroup(EntryPayload(b), ".", b.signature);
    Json.ObjectCancel(v, "." + a.signature, w, "." + b.signature);
    assert ("." + a.signature)[1..] == a.signature && ("." + b.signature)[1..] == b.signature;
    SamePayload(a, b);
  }

  lemma TypeTextInjective(k: EntryType, l: EntryType)
    ensures TypeText(k) == TypeText(l) ==> k == l
  {
    assert TypeText(Register)[1] == 'e' && TypeText(Rotate)[1] == 'o' && |TypeText(Revoke)| == 6 && |TypeText(Register)| == 8;
  }

  lemma SamePayload(a: Entry, b: Entry)
    requires PayloadValue(a) == PayloadValue(b)
    ensures a.(signature := b.signature) == b
  {
    hide TypeText;
    hide PayloadValue;
    PayloadFields(a);
    PayloadFields(b);
    TypeTextInjective(a.kind, b.kind);
  }

  lemma PayloadFields(e: Entry)
    ensures PayloadValue(e).Obj?
    ensures var m := PayloadValue(e).members;
            && Reads(m, "version", Json.Str(e.version)) && Reads(m, "index", Whole(e.index))
            && Reads(m, "type", Json.Str(TypeText(e.kind))) && Reads(m, "subject", Json.Str(e.subject))
            && Reads(m, "keyId", Json.Str(e.keyId)) && Reads(m, "publicKey", OrNull(e.publicKey))
            && Reads(m, "reason", OrNull(e.reason)) && Reads(m, "timestampMs", Whole(e.timestampMs))
            && Reads(m, "prevHash", Json.Str(e.prevHash)) && Reads(m, "operator", Json.Str(e.operator))
  {
    hide TypeText;
    hide OrNull;
    hide Whole;
  }

  predicate Reads(m: map<string, Json.Value>, key: string, v: Json.Value) { key in m && m[key] == v }

  /** Two well-formed entries with one hash and different hashed texts. */
  predicate Collision(a: Entry, b: Entry, c: Crypto) {
    Preimage(a) != Preimage(b) && EntryHash(a, c) == EntryHash(b, c)
  }

  lemma SameHeadStep(x: seq<Entry>, e: Entry, y: seq<Entry>, f: Entry, c: Crypto, o: VerifyOptions, p: VerifyOptions)
    requires Replay(x).Some? && Replay(y).Some?
    requires Fault(x, e, c, o).None? && Fault(y, f, c, p).None? && EntryHash(e, c) == EntryHash(f, c)
    ensures Collision(e, f, c) || (e == f && Head(x, c) == Head(y, c))
  {
    if Preimage(e) == Preimage(f) {
      PreimageInjective(e, f);
    }
  }

  lemma LastEntry(log: seq<Entry>, c: Crypto, o: VerifyOptions)
    requires Verifies(log, c, o) && log != []
    ensures var n := |log| - 1;
            Verifies(log[..n], c, o) && Replay(log[..n]).Some? && Fault(log[..n], log[n], c, o).None? && Head(log, c) == EntryHash(log[n], c)
  {
    hide Fault;
    hide EntryHash;
  }

  ghost predicate Collides(a: seq<Entry>, b: seq<Entry>, c: Crypto) {
    exists i | 0 <= i < |a| && i < |b| :: Collision(a[i], b[i], c)
  }

  lemma {:induction false} SameHeadSameHistory(a: seq<Entry>, b: seq<Entry>, c: Crypto, o: VerifyOptions, p: VerifyOptions)
    requires Verifies(a, c, o) && Verifies(b, c, p) && |a| == |b| && Head(a, c) == Head(b, c)
    ensures a == b || Collides(a, b, c)
  {
    hide Verifies;
    hide Fault;
    hide Replay;
    hide Head;
    hide Collision;
    hide EntryHash;
    if a != [] {
      var n := |a| - 1;
      var x, y := a[..n], b[..n];
      LastEntry(a, c, o);
      LastEntry(b, c, p);
      SameHeadStep(x, a[n], y, b[n], c, o, p);
      if !Collision(a[n], b[n], c) {
        SameHeadSameHistory(x, y, c, o, p);
        if x != y {
          var i :| 0 <= i < n && Collision(x[i], y[i], c);
          assert Collision(a[i], b[i], c);
        } else {
          assert a == x + [a[n]] && b == y + [b[n]];
        }
      }
    }
  }

  /** Two logs that extend one checkpoint agree, field for field, on the entries it covers, or they
      exhibit a SHA-256 collision. */
  lemma CheckpointCommits(cp: Checkpoint, a: seq<Entry>, b: seq<Entry>, c: Crypto, key: string, h1: int, h2: int)
    requires Extends(a, cp, c, key, h1) && Extends(b, cp, c, key, h2)
    ensures a[..cp.size] == b[..cp.size] || Collides(a[..cp.size], b[..cp.size], c)
  {
    var x, y := a[..cp.size], b[..cp.size];
    SameHeadSameHistory(x, y, c, VerifyOptions(key, None, h1), VerifyOptions(key, None, h2));
  }

  /** Of two logs that extend two checkpoints of one size, the checkpoints conflict exactly when the histories they
      commit to differ, hash collisions aside: an operator that shows two histories convicts itself. */
  lemma ConflictsExactlyOnForks(
    x: Checkpoint, y: Checkpoint, a: seq<Entry>, b: seq<Entry>, c: Crypto, key: string, h1: int, h2: int)
    requires x.size == y.size && Extends(a, x, c, key, h1) && Extends(b, y, c, key, h2)
    ensures (CheckpointsConflict(x, y, c, key) <==> a[..x.size] != b[..y.size]) || Collides(a[..x.size], b[..y.size], c)
  {
    hide Verifies;
    hide Head;
    hide Collision;
    assert 0 <= x.size <= |a| && y.size <= |b|;
    hide VerifyCheckpoint;
    if x.headHash == y.headHash {
      SameHeadSameHistory(a[..x.size], b[..y.size], c, VerifyOptions(key, None, h1), VerifyOptions(key, None, h2));
    }
  }

  /** Logs that extend two conflicting checkpoints part at an entry both checkpoints cover; so no log extends both,
      whenever it is looked at. */
  lemma ConflictIsEvidence(
    x: Checkpoint, y: Checkpoint, a: seq<Entry>, b: seq<Entry>, c: Crypto, key: string, h1: int, h2: int) returns (i: nat)
    requires CheckpointsConflict(x, y, c, key) && Extends(a, x, c, key, h1) && Extends(b, y, c, key, h2)
    ensures i < x.size && i < |a| && i < |b| && a[..i] == b[..i] && a[i] != b[i]
  {
    hide Extends;
    hide CheckpointsConflict;
    hide Head;
    ConflictFacts(x, y, c, key);
    ExtendsFacts(a, x, c, key, h1);
    ExtendsFacts(b, y, c, key, h2);
    i := FirstDifference(a[..x.size], b[..y.size]);
    assert a[..x.size][..i] == a[..i] && b[..y.size][..i] == b[..i];
  }

  lemma ConflictFacts(x: Checkpoint, y: Checkpoint, c: Crypto, key: string)
    requires CheckpointsConflict(x, y, c, key)
    ensures x.size == y.size && x.headHash != y.headHash
  {
    hide VerifyCheckpoint;
  }

  lemma FirstDifference(a: seq<Entry>, b: seq<Entry>) returns (i: nat)
    requires |a| == |b| && a != b
    ensures i < |a| && a[..i] == b[..i] && a[i] != b[i]
  {
    if a[0] != b[0] {
      i := 0;
    } else {
      assert a == [a[0]] + a[1..] && b == [b[0]] + b[1..];
      var j := FirstDifference(a[1..], b[1..]);
      i := j + 1;
      assert a[..i] == [a[0]] + a[1..][..j] && b[..i] == [b[0]] + b[1..][..j];
    }
  }

  lemma ExtendsFacts(entries: seq<Entry>, cp: Checkpoint, c: Crypto, key: string, horizon: int)
    requires Extends(entries, cp, c, key, horizon)
    ensures 0 <= cp.size <= |entries| && Head(entries[..cp.size], c) == cp.headHash
  {
    hide Verifies;
    hide Head;
  }

  // ---------------------------------------------------------------------------
  // Reading a log
  // ---------------------------------------------------------------------------

  datatype ResolvedKeys = ResolvedKeys(active: map<string, Key>, revoked: map<string, set<string>>)

  function ResolveStep(r: ResolvedKeys, e: Entry): ResolvedKeys {
    if e.kind == Revoke then
      var before := if e.subject in r.revoked then r.revoked[e.subject] else {};
      var revoked := r.revoked[e.subject := before + {e.keyId}];
      if e.subject in r.active && r.active[e.subject].keyId == e.keyId then ResolvedKeys(r.active - {e.subject}, revoked)
      else ResolvedKeys(r.active, revoked)
    else if e.publicKey.Some? then ResolvedKeys(r.active[e.subject := Key(e.keyId, e.publicKey.value)], r.revoked)
    else r
  }

  function Resolve(log: seq<Entry>): ResolvedKeys {
    if log == [] then ResolvedKeys(map[], map[]) else ResolveStep(Resolve(log[..|log| - 1]), log[|log| - 1])
  }

  method ResolveKeyLog(entries: seq<Entry>) returns (r: ResolvedKeys)
    ensures r == Resolve(entries)
  {
    var active: map<string, Key> := map[];
    var revoked: map<string, set<string>> := map[];
    for i := 0 to |entries|
      invariant ResolvedKeys(active, revoked) == Resolve(entries[..i])
    {
      var e := entries[i];
      assert entries[..i + 1][..i] == entries[..i];
      if e.kind == Revoke {
        if e.subject !in revoked {
          revoked := revoked[e.subject := {}];
        }
        revoked := revoked[e.subject := revoked[e.subject] + {e.keyId}];
        if e.subject in active && active[e.subject].keyId == e.keyId {
          active := active - {e.subject};
        }
      } else if e.publicKey.Some? {
        active := active[e.subject := Key(e.keyId, e.publicKey.value)];
      }
    }
    assert entries[..|entries|] == entries;
    return ResolvedKeys(active, revoked);
  }

  /** The plain reader and the rules' state agree on active and revoked keys. */
  ghost predicate Agree(r: ResolvedKeys, s: State) {
    forall x: string :: AgreeOn(r, s, x)
  }

  lemma {:induction false} ReadersAgree(log: seq<Entry>)
    requires Replay(log).Some?
    ensures Agree(Resolve(log), Replay(log).value)
  {
    if log != [] {
      var init, e := log[..|log| - 1], log[|log| - 1];
      ReadersAgree(init);
      AgreeStep(Resolve(init), Replay(init).value, e);
    }
  }

  ghost predicate AgreeOn(r: ResolvedKeys, s: State, x: string) {
    && (x in r.active <==> x in s.subjects && s.subjects[x].active.Some?)
    && (x in r.active ==> s.subjects[x].active == Some(r.active[x]))
    && (x in r.revoked <==> x in s.subjects && s.subjects[x].revokedKeyIds != {})
    && (x in r.revoked ==> r.revoked[x] == s.subjects[x].revokedKeyIds)
  }

  lemma AgreeStep(r: ResolvedKeys, s: State, e: Entry)
    requires Agree(r, s) && RuleBroken(s, e).None?
    ensures Agree(ResolveStep(r, e), Effect(s, e))
  {
    forall x: string
      ensures AgreeOn(ResolveStep(r, e), Effect(s, e), x)
    {
      assert AgreeOn(r, s, x);
      if e.kind == Revoke && x == e.subject {
        assert e.keyId in Effect(s, e).subjects[x].revokedKeyIds;
      }
    }
  }

  // ---------------------------------------------------------------------------
  // What an accepted log can and cannot contain
  // ---------------------------------------------------------------------------

  predicate Introduces(e: Entry, subject: string, keyId: string, publicKey: string) {
    e.kind != Revoke && e.subject == subject && e.keyId == keyId && e.publicKey == Some(publicKey)
  }

  predicate Revokes(e: Entry, subject: string, keyId: string) {
    e.kind == Revoke && e.subject == subject && e.keyId == keyId
  }

  /** What the state remembers of an entry. */
  ghost predicate Remembered(e: Entry, s: State) {
    && e.subject in s.subjects && e.keyId in s.subjects[e.subject].keys
    && if e.kind == Revoke then e.publicKey.None? && e.keyId in s.subjects[e.subject].revokedKeyIds
       else e.publicKey == Some(s.subjects[e.subject].keys[e.keyId]) && e.publicKey.value in s.keyOwner
  }

  ghost predicate Coherent(s: SubjectState) {
    && s.revokedKeyIds <= s.keys.Keys
    && (s.active.Some? ==>
          s.active.value.keyId in s.keys && s.keys[s.active.value.keyId] == s.active.value.publicKey
          && s.active.value.keyId !in s.revokedKeyIds)
  }

  /** The state remembers the whole history, and no active key is a revoked one. */
  ghost predicate Records(log: seq<Entry>, s: State) {
    && (forall i | 0 <= i < |log| :: Remembered(log[i], s))
    && (forall x | x in s.subjects :: Coherent(s.subjects[x]))
  }

  lemma StillRemembered(a: Entry, s: State, e: Entry)
    requires RuleBroken(s, e).None?
    ensures Remembered(a, s) ==> Remembered(a, Effect(s, e))
    ensures Remembered(e, Effect(s, e))
  {
  }

  lemma {:induction false} StateRecords(log: seq<Entry>)
    requires Replay(log).Some?
    ensures Records(log, Replay(log).value)
  {
    if log != [] {
      var init, e := log[..|log| - 1], log[|log| - 1];
      StateRecords(init);
      var s := Replay(init).value;
      forall i | 0 <= i < |log|
        ensures Remembered(log[i], Effect(s, e))
      {
        StillRemembered(log[i], s, e);
        assert i < |init| ==> log[i] == init[i];
      }
      assert forall x | x != e.subject && x in s.subjects :: Effect(s, e).subjects[x] == s.subjects[x];
    }
  }

  lemma {:induction false} ReplayPrefix(log: seq<Entry>, n: nat)
    requires Replay(log).Some? && n <= |log|
    ensures Replay(log[..n]).Some?
    ensures n < |log| ==> RuleBroken(Replay(log[..n]).value, log[n]).None?
    decreases |log|
  {
    if n == |log| {
      assert log[..n] == log;
    } else if n < |log| - 1 {
      assert log[..|log| - 1][..n] == log[..n];
      ReplayPrefix(log[..|log| - 1], n);
    }
  }

  /** No public key is ever introduced twice, for any subject; in particular not after it was revoked. */
  lemma KeysAreUsedOnce(log: seq<Entry>, i: nat, j: nat)
    requires Replay(log).Some? && i < j < |log| && log[i].publicKey.Some? && log[j].publicKey.Some?
    ensures log[i].publicKey.value != log[j].publicKey.value
  {
    ReplayPrefix(log, j);
    StateRecords(log[..j]);
    assert log[..j][i] == log[i];
  }

  /** A revocation names a key introduced before it, and is final for that key. */
  lemma RevocationIsFinal(log: seq<Entry>, i: nat) returns (h: nat, p: string)
    requires Replay(log).Some? && i < |log| && log[i].kind == Revoke
    ensures h < i && Introduces(log[h], log[i].subject, log[i].keyId, p)
    ensures forall j | i < j < |log| :: log[j].publicKey != Some(p) && !Introduces(log[j], log[i].subject, log[i].keyId, p)
                                        && !Revokes(log[j], log[i].subject, log[i].keyId)
  {
    ReplayPrefix(log, i);
    h, p := Origin(log[..i], log[i].subject, log[i].keyId);
    forall j | i < j < |log|
      ensures log[j].publicKey != Some(p) && !Revokes(log[j], log[i].subject, log[i].keyId)
    {
      if log[j].publicKey == Some(p) {
        KeysAreUsedOnce(log, h, j);
      }
      ReplayPrefix(log, j);
      StateRecords(log[..j]);
      assert log[..j][i] == log[i];
    }
  }

  lemma {:induction false} Origin(log: seq<Entry>, subject: string, keyId: string) returns (h: nat, p: string)
    requires Replay(log).Some?
    requires subject in Replay(log).value.subjects && keyId in Replay(log).value.subjects[subject].keys
    ensures h < |log| && Introduces(log[h], subject, keyId, p) && p == Replay(log).value.subjects[subject].keys[keyId]
  {
    var init, e := log[..|log| - 1], log[|log| - 1];
    p := Replay(log).value.subjects[subject].keys[keyId];
    if Introduces(e, subject, keyId, p) {
      h := |log| - 1;
    } else {
      h, p := Origin(init, subject, keyId);
    }
  }

  /** The key a reader takes for active was introduced in the log for that subject and revoked nowhere in it. */
  lemma ActiveKeyIsNeverRevoked(log: seq<Entry>, subject: string) returns (h: nat)
    requires Replay(log).Some? && subject in Resolve(log).active
    ensures h < |log| && Introduces(log[h], subject, Resolve(log).active[subject].keyId, Resolve(log).active[subject].publicKey)
    ensures forall i | 0 <= i < |log| :: !Revokes(log[i], subject, Resolve(log).active[subject].keyId)
    ensures forall i | h < i < |log| && log[i].subject == subject :: log[i].kind == Revoke
  {
    ReadersAgree(log);
    assert AgreeOn(Resolve(log), Replay(log).value, subject);
    StateRecords(log);
    var p;
    h, p := Origin(log, subject, Resolve(log).active[subject].keyId);
    LatestIsActive(log, subject, h);
  }

  /** Within a subject, the active key is the one introduced last. */
  lemma {:induction false} LatestIsActive(log: seq<Entry>, subject: string, h: nat)
    requires Replay(log).Some? && subject in Resolve(log).active && h < |log|
    requires Introduces(log[h], subject, Resolve(log).active[subject].keyId, Resolve(log).active[subject].publicKey)
    ensures forall i | h < i < |log| && log[i].subject == subject :: log[i].kind == Revoke
  {
    var init, e := log[..|log| - 1], log[|log| - 1];
    if h < |log| - 1 {
      var n: nat := |log| - 1;
      StateRecords(init);
      assert init[h] == log[h] && log[n] == e;
      if e.subject == subject && e.kind != Revoke {
        KeysAreUsedOnce(log, h, n);
        assert false;
      }
      LatestIsActive(init, subject, h);
      assert forall i | 0 <= i < |init| :: init[i] == log[i];
    }
  }

  /** A subject registers only while it has no active key and rotates only while it has one. */
  lemma OneActiveKeyAtATime(log: seq<Entry>, j: nat)
    requires Replay(log).Some? && j < |log|
    ensures log[j].kind == Register ==> log[j].subject !in Resolve(log[..j]).active
    ensures log[j].kind == Rotate ==> log[j].subject in Resolve(log[..j]).active
  {
    ReplayPrefix(log, j);
    ReadersAgree(log[..j]);
    assert AgreeOn(Resolve(log[..j]), Replay(log[..j]).value, log[j].subject);
  }

  // ---------------------------------------------------------------------------
  // Writing a log
  // ---------------------------------------------------------------------------

  datatype Fields = Fields(kind: EntryType, subject: string, keyId: string, publicKey: Option<string>, reason: Option<string>)

  /** What `wellFormed` will ask of the fields that the writer itself does not check. */
  predicate InRange(f: Fields) {
    && (f.publicKey.Some? ==> 0 < Utf16Length(f.publicKey.value) < 512)
    && (f.reason.Some? ==> Utf16Length(f.reason.value) < 1024)
  }

  datatype WriteError = BadName | Refused(reason: Failure)

  /** An operator whose signatures its own public key accepts, and a SHA-256 that prints 64 hex digits. */
  ghost predicate Operates(c: Crypto, sign: string -> string, publicKey: string) {
    && (forall p: string :: c.verify(p, sign(p), publicKey) && sign(p) != "")
    && (forall p: string :: Hash(c.sha256Hex(p)))
  }

  function SignKeyLogEntry(f: Fields, operator: string, sign: string -> string, index: nat, prevHash: string, timestampMs: int): Entry {
    var unsigned := Entry(KEYLOG_VERSION, index, f.kind, f.subject, f.keyId, f.publicKey, f.reason, timestampMs, prevHash, operator, "");
    unsigned.(signature := sign(EntryPayload(unsigned)))
  }

  /** The entry a call writes after `log`, at the clock reading `now`. */
  function NextEntry(log: seq<Entry>, f: Fields, now: int, operator: string, sign: string -> string, c: Crypto): Entry {
    SignKeyLogEntry(f, operator, sign, |log|, Head(log, c), if now > LastTime(log) then now else LastTime(log))
  }

  /** The log after a call: one entry longer, or as it was when the call is refused. */
  function WriteStep(log: seq<Entry>, f: Fields, now: int, operator: string, sign: string -> string, c: Crypto): seq<Entry>
    requires Replay(log).Some?
  {
    var e := NextEntry(log, f, now, operator, sign, c);
    if Name(f.subject) && Name(f.keyId) && RuleBroken(Replay(log).value, e).None? then log + [e] else log
  }

  lemma ReplayAppend(log: seq<Entry>, e: Entry)
    requires Replay(log).Some? && RuleBroken(Replay(log).value, e).None?
    ensures Replay(log + [e]) == Some(Effect(Replay(log).value, e))
  {
    assert (log + [e])[..|log|] == log;
  }

  class KeyLog {
    const operator: string
    const sign: string -> string
    const crypto: Crypto
    const state: KeyLogState
    var log: seq<Entry>
    var head: string

    ghost predicate Valid()
      reads this, state
    {
      head == Head(log, crypto) && Replay(log).Some? && state.Value() == Replay(log).value
    }

    constructor (operator: string, sign: string -> string, crypto: Crypto)
      ensures Valid() && log == [] && fresh(state)
      ensures this.operator == operator && this.sign == sign && this.crypto == crypto
    {
      this.operator, this.sign, this.crypto := operator, sign, crypto;
      state := new KeyLogState();
      log, head := [], GENESIS_HASH;
    }

    /** Appends an entry that keeps every rule, or refuses and leaves the log as it was. */
    method Append(f: Fields, now: int) returns (r: Result<Entry, WriteError>)
      requires Valid()
      modifies this, state
      ensures Valid()
      ensures log == WriteStep(old(log), f, now, operator, sign, crypto)
      ensures r.Ok? ==> log == old(log) + [r.value]
      ensures r.Err? ==> log == old(log)
      ensures !(Name(f.subject) && Name(f.keyId)) <==> r == Err(BadName)
      ensures r.Err? && r.error.Refused? ==>
                RuleBroken(Replay(old(log)).value, NextEntry(old(log), f, now, operator, sign, crypto)) == Some(r.error.reason)
    {
      hide RuleBroken;
      hide Effect;
      hide EntryPayload;
      hide Name;
      if !(Name(f.subject) && Name(f.keyId)) {
        return Err(BadName);
      }
      var last := if log == [] then 0 else log[|log| - 1].timestampMs;
      var entry := SignKeyLogEntry(f, operator, sign, |log|, head, if now > last then now else last);
      var broken := state.Apply(entry);
      if broken.Some? {
        return Err(Refused(broken.value));
      }
      ReplayAppend(log, entry);
      log := log + [entry];
      head := EntryHash(entry, crypto);
      return Ok(entry);
    }
  }

  /** A written entry keeps the log verifiable, once the clock has caught up with it, exactly when its
      fields are in range, its time and index are safe integers and the operator has a valid name. */
  lemma WrittenEntryVerifies(log: seq<Entry>, f: Fields, now: int, c: Crypto, sign: string -> string, publicKey: string, operator: string)
    requires Operates(c, sign, publicKey) && Replay(log).Some?
    requires WriteStep(log, f, now, operator, sign, c) != log
    ensures var time := if now > LastTime(log) then now else LastTime(log);
            Verifies(WriteStep(log, f, now, operator, sign, c), c, VerifyOptions(publicKey, Some(operator), time)) <==>
              && Verifies(log, c, VerifyOptions(publicKey, Some(operator), LastTime(log)))
              && InRange(f) && SafeInteger(time) && |log| <= MAX_SAFE && Name(operator)
  {
    hide RuleBroken;
    hide Replay;
    hide Fault;
    hide Verifies;
    hide InRange;
    hide Name;
    hide NextEntry;
    var e := NextEntry(log, f, now, operator, sign, c);
    var o := VerifyOptions(publicKey, Some(operator), e.timestampMs);
    var before := o.(horizon := LastTime(log));
    NextEntryTime(log, f, now, c, sign, operator);
    NextEntryFault(log, f, now, c, sign, publicKey, operator);
    VerifiesAppend(log, e, c, o);
    if Verifies(log, c, before) {
      LaterHorizon(log, c, before, e.timestampMs);
    }
    if Verifies(log, c, o) {
      EarlierHorizon(log, c, o);
    }
  }

  /** Lengths are counted in UTF-16 code units. A key registered as "k", and then revoked for a reason of 600
      characters outside the basic plane: the writer records both, and the verifier refuses the second. */
  lemma AstralReasonRefused(u: char, c: Crypto, sign: string -> string, publicKey: string)
    requires Operates(c, sign, publicKey) && u as int >= 0x1_0000
    ensures var reason := seq(600, i => u);
            var first := WriteStep([], Fields(Register, "s", "k", Some("p"), None), 0, "o", sign, c);
            var log := WriteStep(first, Fields(Revoke, "s", "k", None, Some(reason)), 0, "o", sign, c);
            && |first| == 1 && |log| == 2 && |reason| < 1024
            && Verifies(first, c, VerifyOptions(publicKey, Some("o"), 0))
            && !Verifies(log, c, VerifyOptions(publicKey, Some("o"), 0))
  {
    hide EntryPayload;
    hide EntryHash;
    hide Fault;
    hide Verifies;
    var reason := seq(600, i => u);
    var f, g := Fields(Register, "s", "k", Some("p"), None), Fields(Revoke, "s", "k", None, Some(reason));
    var first := WriteStep([], f, 0, "o", sign, c);
    var e := NextEntry([], f, 0, "o", sign, c);
    assert Name("s") && Name("k") && Name("o");
    assert first == [e] && LastTime(first) == 0;
    ReplayAppend([], e);
    assert [] + [e] == first;
    hide Replay;
    assert Effect(START, e).subjects == map["s" := SubjectState(Some(Key("k", "p")), map["k" := "p"], {})];
    hide Effect;
    var log := WriteStep(first, g, 0, "o", sign, c);
    assert log == first + [NextEntry(first, g, 0, "o", sign, c)];
    AstralLength(reason);
    assert Utf16Length("p") == 1;
    EmptyVerifies(c, VerifyOptions(publicKey, Some("o"), 0));
    WrittenEntryVerifies([], f, 0, c, sign, publicKey, "o");
    WrittenEntryVerifies(first, g, 0, c, sign, publicKey, "o");
  }

  lemma EmptyVerifies(c: Crypto, o: VerifyOptions)
    ensures Verifies([], c, o) && Replay([]) == Some(START) && LastTime([]) == 0
  {
  }

  lemma NextEntryTime(log: seq<Entry>, f: Fields, now: int, c: Crypto, sign: string -> string, operator: string)
    ensures NextEntry(log, f, now, operator, sign, c).timestampMs == if now > LastTime(log) then now else LastTime(log)
  {
  }

  lemma VerifiesAppend(log: seq<Entry>, e: Entry, c: Crypto, o: VerifyOptions)
    requires Replay(log).Some?
    ensures Verifies(log + [e], c, o) <==> Verifies(log, c, o) && Fault(log, e, c, o).None?
  {
    hide Fault;
    assert (log + [e])[..|log|] == log;
  }

  /** The checks a written entry meets: only its fields, time, index and operator can fail them. */
  lemma NextEntryFault(log: seq<Entry>, f: Fields, now: int, c: Crypto, sign: string -> string, publicKey: string, operator: string)
    requires Operates(c, sign, publicKey) && Replay(log).Some?
    requires WriteStep(log, f, now, operator, sign, c) != log
    ensures var e := NextEntry(log, f, now, operator, sign, c);
            Fault(log, e, c, VerifyOptions(publicKey, Some(operator), e.timestampMs)).None?
            <==> InRange(f) && SafeInteger(e.timestampMs) && |log| <= MAX_SAFE && Name(operator)
  {
    hide RuleBroken;
    hide Replay;
    hide EntryPayload;
    hide Name;
    hide Hash;
    var e := NextEntry(log, f, now, operator, sign, c);
    PayloadIgnoresSignature(e);
    HeadIsHash(log, c, sign, publicKey);
  }

  lemma HeadIsHash(log: seq<Entry>, c: Crypto, sign: string -> string, publicKey: string)
    requires Operates(c, sign, publicKey)
    ensures Hash(Head(log, c))
  {
    if log == [] {
      PayloadIgnoresSignature(NextEntry([], Fields(Revoke, "", "", None, None), 0, "", sign, c));
    }
  }

  lemma PayloadIgnoresSignature(e: Entry)
    ensures EntryPayload(e) == EntryPayload(e.(signature := ""))
    ensures Hash(GENESIS_HASH)
  {
  }

  /** Times never go backwards, so the last entry is the only one that can lie beyond the horizon. */
  lemma {:induction false} EarlierHorizon(log: seq<Entry>, c: Crypto, o: VerifyOptions)
    requires Verifies(log, c, o)
    ensures Verifies(log, c, o.(horizon := LastTime(log)))
  {
    if log != [] {
      var init := log[..|log| - 1];
      EarlierHorizon(init, c, o);
      LaterHorizon(init, c, o.(horizon := LastTime(init)), LastTime(log));
    }
  }

  lemma StepReplays(log: seq<Entry>, f: Fields, now: int, operator: string, sign: string -> string, c: Crypto)
    requires Replay(log).Some?
    ensures Replay(WriteStep(log, f, now, operator, sign, c)).Some? && |WriteStep(log, f, now, operator, sign, c)| <= |log| + 1
  {
    hide RuleBroken;
    hide NextEntry;
    hide Effect;
    hide Name;
    var e := NextEntry(log, f, now, operator, sign, c);
    if RuleBroken(Replay(log).value, e).None? {
      ReplayAppend(log, e);
    }
  }

  datatype Call = Call(fields: Fields, now: int)

  /** The log left by a sequence of calls on a new `KeyLog`. */
  function Written(calls: seq<Call>, operator: string, sign: string -> string, c: Crypto): (log: seq<Entry>)
    ensures Replay(log).Some? && |log| <= |calls|
  {
    if calls == [] then []
    else
      var before := Written(calls[..|calls| - 1], operator, sign, c);
      StepReplays(before, calls[|calls| - 1].fields, calls[|calls| - 1].now, operator, sign, c);
      hide WriteStep;
      WriteStep(before, calls[|calls| - 1].fields, calls[|calls| - 1].now, operator, sign, c)
  }

  /** Whatever a writer is asked for, what it leaves behind verifies from the time of its last entry on. */
  lemma {:induction false} WrittenLogVerifies(
    calls: seq<Call>, c: Crypto, sign: string -> string, publicKey: string, operator: string, horizon: int)
    requires Operates(c, sign, publicKey) && Name(operator) && |calls| <= MAX_SAFE
    requires forall call | call in calls :: InRange(call.fields) && SafeInteger(call.now)
    requires horizon >= LastTime(Written(calls, operator, sign, c))
    ensures Verifies(Written(calls, operator, sign, c), c, VerifyOptions(publicKey, Some(operator), horizon))
    ensures SafeInteger(LastTime(Written(calls, operator, sign, c)))
  {
    if calls != [] {
      var init, call := calls[..|calls| - 1], calls[|calls| - 1];
      var log := Written(init, operator, sign, c);
      assert call in calls;
      WrittenLogVerifies(init, c, sign, publicKey, operator, LastTime(log));
      var all := Written(calls, operator, sign, c);
      var o := VerifyOptions(publicKey, Some(operator), LastTime(all));
      if all != log {
        WrittenEntryVerifies(log, call.fields, call.now, c, sign, publicKey, operator);
      }
      LaterHorizon(all, c, o, horizon);
    }
  }
}
