/** Approval grants (src/approval.ts) and the fail-closed store that makes each usable once
    (src/replayStores.ts, `MemoryReplayStore`). */
module Approval {
  import opened Prelude

  // ---------------------------------------------------------------------------
  // The store
  // ---------------------------------------------------------------------------

  type Expiries = map<string, int>

  function Pruned(entries: Expiries, now: int): Expiries {
    map k | k in entries && entries[k] > now :: entries[k]
  }

  datatype Verdict = Throws | Replayed | Fresh

  /** What `check` answers and leaves behind. */
  function CheckStore(entries: Expiries, maxEntries: int, key: string, ttlMs: int, now: int): (Verdict, Expiries) {
    if ttlMs <= 0 then (Throws, entries)
    else if key in entries && entries[key] > now then (Replayed, entries)
    else
      var kept := if |entries| >= maxEntries then Pruned(entries, now) else entries;
      if |kept| >= maxEntries then (Replayed, kept) else (Fresh, kept[key := now + ttlMs])
  }

  class MemoryReplayStore {
    var entries: Expiries
    const maxEntries: int

    constructor (maxEntries: int)
      requires maxEntries >= 1
      ensures this.maxEntries == maxEntries && entries == map[] && Valid()
    {
      this.maxEntries := maxEntries;
      entries := map[];
    }

    ghost predicate Valid() reads this { 1 <= maxEntries && |entries| <= maxEntries }

    /** `prune`: visits every entry and deletes the expired ones. */
    method Prune(now: int)
      requires Valid()
      modifies this
      ensures Valid() && entries == Pruned(old(entries), now)
    {
      var todo := entries.Keys;
      while todo != {}
        invariant todo <= entries.Keys
        invariant forall k :: k in entries <==> k in old(entries) && (k in todo || old(entries)[k] > now)
        invariant forall k | k in entries :: entries[k] == old(entries)[k]
        decreases |todo|
      {
        var k :| k in todo;
        todo := todo - {k};
        if entries[k] <= now {
          entries := entries - {k};
        }
      }
      PrunedSmaller(old(entries), now);
      assert entries == Pruned(old(entries), now);
    }

    /** `check`: true reports a replay. A store full of live keys reports every new key as one. */
    method Check(key: string, ttlMs: int, now: int) returns (verdict: Verdict)
      requires Valid()
      modifies this
      ensures Valid() && (verdict, entries) == CheckStore(old(entries), maxEntries, key, ttlMs, now)
    {
      if ttlMs <= 0 {
        return Throws;
      }
      if key in entries && entries[key] > now {
        return Replayed;
      }
      if |entries| >= maxEntries {
        Prune(now);
      }
      if |entries| >= maxEntries {
        return Replayed;
      }
      CheckBound(old(entries), maxEntries, key, ttlMs, now);
      entries := entries[key := now + ttlMs];
      return Fresh;
    }
  }

  lemma PrunedSmaller(entries: Expiries, now: int)
    ensures |Pruned(entries, now)| <= |entries|
  {
    SubsetSize(Pruned(entries, now).Keys, entries.Keys);
    assert |Pruned(entries, now)| == |Pruned(entries, now).Keys| && |entries| == |entries.Keys|;
  }

  /** The store never exceeds its bound. */
  lemma CheckBound(entries: Expiries, maxEntries: int, key: string, ttlMs: int, now: int)
    requires |entries| <= maxEntries
    ensures |CheckStore(entries, maxEntries, key, ttlMs, now).1| <= maxEntries
  {
    PrunedSmaller(entries, now);
    var kept := if |entries| >= maxEntries then Pruned(entries, now) else entries;
    assert kept[key := now + ttlMs].Keys == kept.Keys + {key};
    assert |kept[key := now + ttlMs]| == |kept[key := now + ttlMs].Keys| && |kept| == |kept.Keys|;
  }

  // ---------------------------------------------------------------------------
  // Grants
  // ---------------------------------------------------------------------------

  const APPROVAL_VERSION: string := "7h3-approval/1"
  const MAX_APPROVAL_TTL_MS: int := 600_000

  datatype BoundAction = BoundAction(method_: string, path: string, bodySha256: string)

  datatype Grant = Grant(
    version: string, id: string, approver: string, subject: string, action: BoundAction, reason: Option<string>,
    issuedAt: int, expiresAt: int, keyId: string, signature: string)

  /** Approver keys, and whether a signature covers the canonical form of a grant. */
  datatype Crypto = Crypto(approverKey: string -> Option<string>, signed: (Grant, string) -> bool)

  datatype Failure =
    | Malformed | UnsupportedVersion | ApproverNotAllowed | SelfApproval | TtlTooLong | NotYetValid | Expired
    | SubjectMismatch | ActionMismatch | NoApproverKey | InvalidSignature | AlreadyUsed

  /** One presentation. The caller reads its clock as `now`; the store is reached at `storeNow`. */
  datatype Presentation = Presentation(
    grant: Option<Grant>, allowedApprovers: seq<string>, subject: string, action: BoundAction, now: int, storeNow: int)

  datatype Outcome = Misconfigured | StoreThrew | Refused(reason: Failure) | Accepted

  /** A key counts as found when it is neither missing nor empty. */
  predicate Usable(key: Option<string>) { key.Some? && key.value != "" }

  /** Every check before the store, in order. */
  function Precheck(k: Crypto, p: Presentation, skew: int): Option<Failure> {
    if p.grant.None? then Some(Malformed)
    else
      var g := p.grant.value;
      if g.version != APPROVAL_VERSION then Some(UnsupportedVersion)
      else if g.approver !in p.allowedApprovers then Some(ApproverNotAllowed)
      else if g.approver == g.subject then Some(SelfApproval)
      else if g.expiresAt <= g.issuedAt || g.expiresAt - g.issuedAt > MAX_APPROVAL_TTL_MS then Some(TtlTooLong)
      else if g.issuedAt > p.now + skew then Some(NotYetValid)
      else if p.now >= g.expiresAt then Some(Expired)
      else if g.subject != p.subject then Some(SubjectMismatch)
      else if g.action != p.action then Some(ActionMismatch)
      else if !Usable(k.approverKey(g.approver)) then Some(NoApproverKey)
      else if !k.signed(g, k.approverKey(g.approver).value) then Some(InvalidSignature)
      else None
  }

  function StoreKey(id: string): string { "7h3:approval:" + id }

  function Remaining(g: Grant, now: int): int { if g.expiresAt - now > 1 then g.expiresAt - now else 1 }

  /** `verifyApproval` with a store. */
  function Present(k: Crypto, entries: Expiries, maxEntries: int, p: Presentation, skew: int): (Outcome, Expiries) {
    if p.allowedApprovers == [] then (Misconfigured, entries)
    else
      match Precheck(k, p, skew)
      case Some(reason) => (Refused(reason), entries)
      case None =>
        var g := p.grant.value;
        match CheckStore(entries, maxEntries, StoreKey(g.id), Remaining(g, p.now) + skew, p.storeNow)
        case (Throws, after) => (StoreThrew, after)
        case (Replayed, after) => (Refused(AlreadyUsed), after)
        case (Fresh, after) => (Accepted, after)
  }

  /** `verifyApproval` without a store: nothing is consumed. */
  function PresentUnstored(k: Crypto, p: Presentation, skew: int): Outcome {
    if p.allowedApprovers == [] then Misconfigured
    else
      match Precheck(k, p, skew)
      case Some(reason) => Refused(reason)
      case None => Accepted
  }

  method VerifyApproval(k: Crypto, store: MemoryReplayStore?, p: Presentation, skew: int) returns (outcome: Outcome)
    requires store != null ==> store.Valid()
    modifies if store == null then {} else {store}
    ensures store == null ==> outcome == PresentUnstored(k, p, skew)
    ensures store != null ==>
              && store.Valid() && (outcome, store.entries) == Present(k, old(store.entries), store.maxEntries, p, skew)
              && (!outcome.Accepted? && outcome != Refused(AlreadyUsed) ==> store.entries == old(store.entries))
  {
    if p.allowedApprovers == [] {
      return Misconfigured;
    }
    var failure := Precheck(k, p, skew);
    if failure.Some? {
      return Refused(failure.value);
    }
    if store != null {
      var g := p.grant.value;
      var verdict := store.Check(StoreKey(g.id), Remaining(g, p.now) + skew, p.storeNow);
      return if verdict == Throws then StoreThrew else if verdict == Replayed then Refused(AlreadyUsed) else Accepted;
    }
    return Accepted;
  }

  // ---------------------------------------------------------------------------
  // Runs over one store
  // ---------------------------------------------------------------------------

  /** A use of the store: a presentation, or anything else that checks a key. */
  datatype Use = Show(p: Presentation) | Other(key: string, ttlMs: int, storeNow: int)

  function Clock(u: Use): int { if u.Show? then u.p.storeNow else u.storeNow }

  function After(k: Crypto, entries: Expiries, maxEntries: int, u: Use, skew: int): Expiries {
    if u.Show? then Present(k, entries, maxEntries, u.p, skew).1 else CheckStore(entries, maxEntries, u.key, u.ttlMs, u.storeNow).1
  }

  /** The store before the n-th use. */
  function Store(k: Crypto, maxEntries: int, uses: seq<Use>, skew: int, n: nat): Expiries
    requires n <= |uses|
  {
    if n == 0 then map[] else After(k, Store(k, maxEntries, uses, skew, n - 1), maxEntries, uses[n - 1], skew)
  }

  predicate AcceptedAt(k: Crypto, maxEntries: int, uses: seq<Use>, skew: int, n: nat)
    requires n < |uses|
  {
    uses[n].Show? && Present(k, Store(k, maxEntries, uses, skew, n), maxEntries, uses[n].p, skew).0 == Accepted
  }

  /** The store's clock does not go back. */
  predicate Forward(uses: seq<Use>) {
    forall i | 0 < i < |uses| :: Clock(uses[i - 1]) <= Clock(uses[i])
  }

  /** Every presentation reaches the store at most `delay` after the moment it read its own clock. */
  predicate Within(uses: seq<Use>, delay: int) {
    forall i | 0 <= i < |uses| && uses[i].Show? :: uses[i].p.now <= uses[i].p.storeNow <= uses[i].p.now + delay
  }

  function Tolerance(skew: int): int { if skew > 0 then skew else 0 }

  predicate Keeps(entries: Expiries, key: string, expiry: int) { key in entries && entries[key] >= expiry }

  lemma UseKeeps(k: Crypto, entries: Expiries, maxEntries: int, u: Use, skew: int, key: string, expiry: int)
    requires Keeps(entries, key, expiry) && Clock(u) < expiry
    ensures Keeps(After(k, entries, maxEntries, u, skew), key, expiry)
  {
  }

  /** A key recorded with some expiry stays recorded, whatever else fills the store, until that time comes. */
  lemma {:induction false} KeepsUntil(k: Crypto, maxEntries: int, uses: seq<Use>, skew: int, i: nat, j: nat, key: string, expiry: int)
    requires Forward(uses) && i < j < |uses| && Keeps(Store(k, maxEntries, uses, skew, i + 1), key, expiry)
    requires Clock(uses[j]) < expiry
    ensures Keeps(Store(k, maxEntries, uses, skew, j), key, expiry)
    decreases j
  {
    hide After;
    hide Keeps;
    hide Clock;
    if j > i + 1 {
      assert Clock(uses[j - 1]) <= Clock(uses[j]);
      KeepsUntil(k, maxEntries, uses, skew, i, j - 1, key, expiry);
      UseKeeps(k, Store(k, maxEntries, uses, skew, j - 1), maxEntries, uses[j - 1], skew, key, expiry);
    }
  }

  /** A grant is accepted at most once in its whole life, whatever else fills the store. */
  lemma SpentAtMostOnce(k: Crypto, maxEntries: int, uses: seq<Use>, skew: int, i: nat, j: nat)
    requires Forward(uses) && Within(uses, Tolerance(skew)) && i < j < |uses|
    requires AcceptedAt(k, maxEntries, uses, skew, i) && AcceptedAt(k, maxEntries, uses, skew, j)
    ensures uses[i].p.grant != uses[j].p.grant
  {
    if uses[i].p.grant == uses[j].p.grant {
      var p, q := uses[i].p, uses[j].p;
      var g := p.grant.value;
      var expiry := p.storeNow + Remaining(g, p.now) + skew;
      assert Keeps(Store(k, maxEntries, uses, skew, i + 1), StoreKey(g.id), expiry);
      assert q.now < g.expiresAt && Remaining(g, q.now) + skew > 0;
      assert q.storeNow < expiry;
      KeepsUntil(k, maxEntries, uses, skew, i, j, StoreKey(g.id), expiry);
      assert false;
    }
  }

  /** The store never holds more than `maxEntries` keys. */
  lemma {:induction false} NeverOverfull(k: Crypto, maxEntries: int, uses: seq<Use>, skew: int, n: nat)
    requires maxEntries >= 1 && n <= |uses|
    ensures |Store(k, maxEntries, uses, skew, n)| <= maxEntries
    decreases n
  {
    hide Present;
    if n > 0 {
      NeverOverfull(k, maxEntries, uses, skew, n - 1);
      var entries, u := Store(k, maxEntries, uses, skew, n - 1), uses[n - 1];
      if u.Other? {
        CheckBound(entries, maxEntries, u.key, u.ttlMs, u.storeNow);
      } else {
        PresentBound(k, entries, maxEntries, u.p, skew);
      }
    }
  }

  lemma PresentBound(k: Crypto, entries: Expiries, maxEntries: int, p: Presentation, skew: int)
    requires |entries| <= maxEntries
    ensures |Present(k, entries, maxEntries, p, skew).1| <= maxEntries
  {
    if p.allowedApprovers != [] && Precheck(k, p, skew).None? {
      CheckBound(entries, maxEntries, StoreKey(p.grant.value.id), Remaining(p.grant.value, p.now) + skew, p.storeNow);
    }
  }

  /** The checks before the store let it through. */
  predicate Passes(k: Crypto, p: Presentation, skew: int) { p.allowedApprovers != [] && Precheck(k, p, skew).None? }

  /** A presentation is accepted exactly when it passes every earlier check, its grant would be remembered for some
      time, its key is not live in the store and fewer than `maxEntries` keys are; unless it passes those checks, the
      store stays as it was. */
  lemma AcceptedExactly(k: Crypto, entries: Expiries, maxEntries: int, p: Presentation, skew: int)
    ensures Present(k, entries, maxEntries, p, skew).0 == Accepted <==>
              && Passes(k, p, skew) && Remaining(p.grant.value, p.now) + skew > 0
              && StoreKey(p.grant.value.id) !in Pruned(entries, p.storeNow) && |Pruned(entries, p.storeNow)| < maxEntries
    ensures !Passes(k, p, skew) ==> Present(k, entries, maxEntries, p, skew).1 == entries
  {
    PrunedSmaller(entries, p.storeNow);
  }

  // ---------------------------------------------------------------------------
  // Which delays are safe
  // ---------------------------------------------------------------------------

  /** Some grant is accepted twice. */
  ghost predicate SpentTwice(k: Crypto, maxEntries: int, uses: seq<Use>, skew: int) {
    exists i, j | 0 <= i < j < |uses| ::
      AcceptedAt(k, maxEntries, uses, skew, i) && AcceptedAt(k, maxEntries, uses, skew, j) && uses[i].p.grant == uses[j].p.grant
  }

  /** Grants are single-use exactly when no presentation takes longer than a non-negative skew to reach the
      store, or the skew is so negative that no grant is ever accepted. The key lookup and the signature
      check lie between the two moments. */
  lemma SafeDelaysExactly(k: Crypto, maxEntries: int, skew: int, delay: nat, a: string, b: string)
    requires maxEntries >= 1 && a != b && Usable(k.approverKey(a))
    requires forall g: Grant | g.approver == a :: k.signed(g, k.approverKey(a).value)
    ensures (forall uses | Forward(uses) && Within(uses, delay) :: !SpentTwice(k, maxEntries, uses, skew))
            <==> delay <= Tolerance(skew) || 1 - 2 * skew > MAX_APPROVAL_TTL_MS
  {
    if delay <= Tolerance(skew) {
      forall uses | Forward(uses) && Within(uses, delay)
        ensures !SpentTwice(k, maxEntries, uses, skew)
      {
        OnceIfPrompt(k, maxEntries, uses, skew);
      }
    } else if 1 - 2 * skew > MAX_APPROVAL_TTL_MS {
      forall uses | Forward(uses) && Within(uses, delay)
        ensures !SpentTwice(k, maxEntries, uses, skew)
      {
        NeverIfTooNegative(k, maxEntries, uses, skew);
      }
    } else {
      var uses := TwiceIfSlow(k, maxEntries, skew, delay, a, b);
      assert SpentTwice(k, maxEntries, uses, skew);
    }
  }

  lemma OnceIfPrompt(k: Crypto, maxEntries: int, uses: seq<Use>, skew: int)
    requires Forward(uses) && Within(uses, Tolerance(skew))
    ensures !SpentTwice(k, maxEntries, uses, skew)
  {
    if SpentTwice(k, maxEntries, uses, skew) {
      var i, j :| 0 <= i < j < |uses| && AcceptedAt(k, maxEntries, uses, skew, i) && AcceptedAt(k, maxEntries, uses, skew, j)
                  && uses[i].p.grant == uses[j].p.grant;
      SpentAtMostOnce(k, maxEntries, uses, skew, i, j);
    }
  }

  lemma NeverIfTooNegative(k: Crypto, maxEntries: int, uses: seq<Use>, skew: int)
    requires 1 - 2 * skew > MAX_APPROVAL_TTL_MS
    ensures !SpentTwice(k, maxEntries, uses, skew)
  {
  }

  lemma TwiceIfSlow(k: Crypto, maxEntries: int, skew: int, delay: nat, a: string, b: string) returns (uses: seq<Use>)
    requires maxEntries >= 1 && a != b && Usable(k.approverKey(a)) && delay > Tolerance(skew) && 1 - 2 * skew <= MAX_APPROVAL_TTL_MS
    requires forall g: Grant | g.approver == a :: k.signed(g, k.approverKey(a).value)
    ensures Forward(uses) && Within(uses, delay) && SpentTwice(k, maxEntries, uses, skew)
  {
    var action := BoundAction("PAY", "/", "");
    var t := 1_000_000;
    var expires := if skew >= 0 then t + 1 else t + 1 - skew;
    var g := Grant(APPROVAL_VERSION, "g", a, b, action, None, if skew >= 0 then t - 1 else t + skew, expires, "key", "");
    var p := Presentation(Some(g), [a], b, action, t, t);
    var q := Presentation(Some(g), [a], b, action, t, expires + skew);
    uses := [Show(p), Show(q)];
    var key := StoreKey("g");
    assert Precheck(k, p, skew) == None && Precheck(k, q, skew) == None;
    assert Remaining(g, t) == expires - t;
    var first: Expiries := map[key := expires + skew];
    var empty: Expiries := map[];
    assert empty[key := expires + skew] == first;
    assert Store(k, maxEntries, uses, skew, 0) == empty;
    assert Present(k, empty, maxEntries, p, skew) == (Accepted, first);
    assert Store(k, maxEntries, uses, skew, 1) == first;
    assert Pruned(first, expires + skew) == empty;
    assert |first| == 1;
    assert Present(k, first, maxEntries, q, skew).0 == Accepted;
    assert AcceptedAt(k, maxEntries, uses, skew, 0) && AcceptedAt(k, maxEntries, uses, skew, 1);
  }
}
