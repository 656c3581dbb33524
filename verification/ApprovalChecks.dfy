/** What an accepted presentation of an approval grant is (src/approval.ts), field by field. */
module ApprovalChecks {
  import opened Prelude
  import opened Approval

  /** The grant allows just this action of just this agent, now, in the name of an approver the caller trusts. */
  predicate InOrder(k: Crypto, p: Presentation, skew: int) {
    match p.grant
    case None => false
    case Some(g) =>
      && g.version == "7h3-approval/1"
      && (exists i | 0 <= i < |p.allowedApprovers| :: p.allowedApprovers[i] == g.approver)
      && g.approver != g.subject
      && g.issuedAt < g.expiresAt <= g.issuedAt + 10 * 60_000
      && g.issuedAt - skew <= p.now < g.expiresAt
      && g.subject == p.subject
      && g.action.method_ == p.action.method_ && g.action.path == p.action.path && g.action.bodySha256 == p.action.bodySha256
      && match k.approverKey(g.approver)
         case None => false
         case Some(key) => key != "" && k.signed(g, key)
  }

  /** The checks before the store let through exactly the presentations in order. */
  lemma PassesExactly(k: Crypto, p: Presentation, skew: int)
    ensures Passes(k, p, skew) <==> InOrder(k, p, skew)
    ensures PresentUnstored(k, p, skew) == Accepted <==> InOrder(k, p, skew)
  {
  }

  /** The entries a store still holds to at a time. */
  function LiveKeys(entries: Expiries, at: int): set<string> { set x | x in entries && entries[x] > at }

  /** With a store, a presentation is accepted exactly when it is in order, no live entry bears the grant's id, the store
      is not full of live entries, and the entry to be made lives a while. */
  lemma AcceptedWithStoreExactly(k: Crypto, entries: Expiries, maxEntries: int, p: Presentation, skew: int)
    ensures Present(k, entries, maxEntries, p, skew).0 == Accepted <==>
              && InOrder(k, p, skew)
              && "7h3:approval:" + p.grant.value.id !in LiveKeys(entries, p.storeNow)
              && |LiveKeys(entries, p.storeNow)| < maxEntries
              && p.grant.value.expiresAt - p.now + skew > 0
  {
    PassesExactly(k, p, skew);
    AcceptedExactly(k, entries, maxEntries, p, skew);
    assert LiveKeys(entries, p.storeNow) == Pruned(entries, p.storeNow).Keys;
    hide Present;
    hide Passes;
  }

  /** An accepted presentation leaves its grant's id in the store until the grant expires and the skew is over, counted from
      when the store is reached; what else is live stays. */
  lemma AcceptedIsRecorded(k: Crypto, entries: Expiries, maxEntries: int, p: Presentation, skew: int)
    requires Present(k, entries, maxEntries, p, skew).0 == Accepted
    ensures var after := Present(k, entries, maxEntries, p, skew).1;
            var key := "7h3:approval:" + p.grant.value.id;
            && key in after && after[key] == p.storeNow + (p.grant.value.expiresAt - p.now) + skew
            && LiveKeys(after, p.storeNow) == LiveKeys(entries, p.storeNow) + {key}
            && forall x | x in LiveKeys(entries, p.storeNow) :: after[x] == entries[x]
  {
  }

  /** Signatures are unforgeable: what verifies under an approver's key, that approver granted. */
  ghost predicate Unforgeable(k: Crypto, granted: iset<(string, Grant)>) {
    forall a, g | k.approverKey(a).Some? && k.signed(g, k.approverKey(a).value) :: (a, g) in granted
  }

  /** Whoever may act was allowed to by an approver on the caller's list, other than itself. */
  lemma AcceptedWasGranted(k: Crypto, entries: Expiries, maxEntries: int, p: Presentation, skew: int, granted: iset<(string, Grant)>)
    requires Present(k, entries, maxEntries, p, skew).0 == Accepted && Unforgeable(k, granted)
    ensures exists a | a in p.allowedApprovers :: a != p.subject && (a, p.grant.value) in granted
  {
    PassesExactly(k, p, skew);
    AcceptedExactly(k, entries, maxEntries, p, skew);
    hide Present;
    hide Precheck;
    assert (p.grant.value.approver, p.grant.value) in granted;
  }

  // ---------------------------------------------------------------------------
  // Which refusal
  // ---------------------------------------------------------------------------

  /** What each reason says of a presentation. */
  predicate Violates(k: Crypto, p: Presentation, skew: int, reason: Failure) {
    match p.grant
    case None => reason == Malformed
    case Some(g) =>
      match reason
      case Malformed => false
      case UnsupportedVersion => g.version != "7h3-approval/1"
      case ApproverNotAllowed => forall i | 0 <= i < |p.allowedApprovers| :: p.allowedApprovers[i] != g.approver
      case SelfApproval => g.approver == g.subject
      case TtlTooLong => !(g.issuedAt < g.expiresAt <= g.issuedAt + 600_000)
      case NotYetValid => g.issuedAt > p.now + skew
      case Expired => p.now >= g.expiresAt
      case SubjectMismatch => g.subject != p.subject
      case ActionMismatch => g.action.method_ != p.action.method_ || g.action.path != p.action.path || g.action.bodySha256 != p.action.bodySha256
      case NoApproverKey => k.approverKey(g.approver) in {None, Some("")}
      case InvalidSignature => k.approverKey(g.approver).Some? && !k.signed(g, k.approverKey(g.approver).value)
      case AlreadyUsed => false
  }

  /** Where in the order of checks a reason comes up. */
  function Rank(f: Failure): nat {
    match f
    case Malformed => 0
    case UnsupportedVersion => 1
    case ApproverNotAllowed => 2
    case SelfApproval => 3
    case TtlTooLong => 4
    case NotYetValid => 5
    case Expired => 6
    case SubjectMismatch => 7
    case ActionMismatch => 8
    case NoApproverKey => 9
    case InvalidSignature => 10
    case AlreadyUsed => 11
  }

  /** A refusal before the store names the first thing that is wrong. */
  lemma RefusalIsFirst(k: Crypto, p: Presentation, skew: int)
    ensures var f := Precheck(k, p, skew);
            f.Some? ==> Violates(k, p, skew, f.value) && forall g | Rank(g) < Rank(f.value) :: !Violates(k, p, skew, g)
  {
  }
}
