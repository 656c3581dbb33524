/** What a payment that is charged satisfies (src/mandate.ts), said document by document and without the verifier's
    own functions, and which refusal the others get. */
module MandateChecks {
  import opened Prelude
  import opened Bytes
  import opened Mandate
  import opened MandateSessions

  // ---------------------------------------------------------------------------
  // A payment in order
  // ---------------------------------------------------------------------------

  /** Issued before it expires, within its longest life, not from the future and not expired. */
  predicate Timely(issuedAt: Amount, expiresAt: Amount, longest: int, now: int, skew: int) {
    && issuedAt.Whole? && expiresAt.Whole?
    && -0x1F_FFFF_FFFF_FFFF <= issuedAt.n <= 0x1F_FFFF_FFFF_FFFF && -0x1F_FFFF_FFFF_FFFF <= expiresAt.n <= 0x1F_FFFF_FFFF_FFFF
    && issuedAt.n < expiresAt.n && expiresAt.n - issuedAt.n <= longest
    && issuedAt.n <= now + skew && now < expiresAt.n
  }

  /** The three documents are signed by payer, merchant and agent under the keys found for them. */
  predicate SignedByParties(k: Crypto, o: Options) {
    && (match k.payerKey(o.intent.payer) case None => false case Some(key) => key != "" && k.intentSigned(o.intent, key))
    && (match k.merchantKey(o.cart.merchant) case None => false case Some(key) => key != "" && k.cartSigned(o.cart, key))
    && (match k.agentKey(o.payment.agent) case None => false case Some(key) => key != "" && k.paySigned(o.payment, key))
  }

  /** They speak of the same intent, cart, parties and currency. */
  predicate HangsTogether(k: Crypto, o: Options) {
    && o.cart.intentId == o.intent.id && o.payment.intentId == o.intent.id && o.payment.cartId == o.cart.id
    && o.payment.cartDigest == k.cartDigest(o.cart)
    && o.intent.payer == o.expectedPayer && o.cart.merchant == o.expectedMerchant && o.payment.merchant == o.expectedMerchant
    && o.payment.agent == o.intent.agent
    && o.cart.currency == o.intent.constraints.currency && o.payment.currency == o.intent.constraints.currency
    && |o.intent.constraints.currency| == 3 && forall c | c in o.intent.constraints.currency :: 'A' <= c <= 'Z'
  }

  /** The amount is what the items of the cart add up to, over the integers. */
  ghost predicate AmountIsTotal(o: Options) {
    && (forall it | it in o.cart.items ::
          && it.quantity.Whole? && 0 < it.quantity.n <= 0x1F_FFFF_FFFF_FFFF
          && it.unitMinor.Whole? && 0 <= it.unitMinor.n <= 0x1F_FFFF_FFFF_FFFF)
    && o.cart.totalMinor == Whole(ExactTotal(o.cart.items)) && o.payment.amountMinor == o.cart.totalMinor
    && 0 <= o.cart.totalMinor.n <= 0x1F_FFFF_FFFF_FFFF
  }

  /** Every limit of the intent is kept by this payment alone. */
  predicate WithinLimits(o: Options) {
    var c, amount := o.intent.constraints, o.payment.amountMinor;
    && amount.Whole? && c.maxTotalMinor.Whole? && 0 < c.maxTotalMinor.n <= 0x1F_FFFF_FFFF_FFFF && amount.n <= c.maxTotalMinor.n
    && (c.maxPerPurchaseMinor.Some? ==> amount.n as real <= c.maxPerPurchaseMinor.value)
    && (c.merchants.Some? ==> o.cart.merchant in c.merchants.value)
    && (c.categories.Some? ==> forall it | it in o.cart.items :: exists x | x in c.categories.value :: it.category == Some(x))
  }

  ghost predicate InOrder(k: Crypto, o: Options) {
    && o.intent.version == "7h3-mandate/1" && o.cart.version == "7h3-mandate/1" && o.payment.version == "7h3-mandate/1"
    && Timely(o.intent.issuedAt, o.intent.expiresAt, 30 * 24 * 3_600_000, o.now, o.skew)
    && Timely(o.cart.issuedAt, o.cart.expiresAt, 3_600_000, o.now, o.skew)
    && Timely(o.payment.issuedAt, o.payment.expiresAt, 15 * 60_000, o.now, o.skew)
    && SignedByParties(k, o) && HangsTogether(k, o) && AmountIsTotal(o) && WithinLimits(o)
  }

  /** The checks pass exactly for a payment in order. */
  lemma PassesExactly(k: Crypto, o: Options)
    ensures Precheck(k, o) == None <==> InOrder(k, o)
  {
    CategoriesExactly(o);
    hide CategoriesOk;
    hide ExactTotal;
  }

  lemma CategoriesExactly(o: Options)
    ensures o.intent.constraints.categories.Some? ==>
              (CategoriesOk(o.intent.constraints.categories.value, o.cart.items) <==>
                 forall it | it in o.cart.items :: exists x | x in o.intent.constraints.categories.value :: it.category == Some(x))
  {
  }

  // ---------------------------------------------------------------------------
  // Which refusal
  // ---------------------------------------------------------------------------

  predicate Found(key: Option<string>) { key.Some? && key.value != "" }

  predicate Verifies<D>(key: Option<string>, d: D, signed: (D, string) -> bool) { key.Some? && signed(d, key.value) }

  /** What a document that is dated before it is issued, or too long afterwards, has wrong. */
  predicate LivesTooLong(issuedAt: Amount, expiresAt: Amount, longest: int) {
    issuedAt.Whole? && expiresAt.Whole? && !(issuedAt.n < expiresAt.n <= issuedAt.n + longest)
  }

  predicate Late(at: Amount, now: int) { at.Whole? && now >= at.n }

  predicate Early(at: Amount, now: int, skew: int) { at.Whole? && at.n > now + skew }

  /** What is wrong with a payment that is refused for a reason. */
  ghost predicate Violates(k: Crypto, o: Options, reason: PaymentFailure) {
    var (intent, cart, payment) := (o.intent, o.cart, o.payment);
    var c := intent.constraints;
    match reason
    case Malformed => !Shape(o)
    case UnsupportedVersion => !(intent.version == cart.version == payment.version == "7h3-mandate/1")
    case LifetimeTooLong =>
      || LivesTooLong(intent.issuedAt, intent.expiresAt, 2_592_000_000) || LivesTooLong(cart.issuedAt, cart.expiresAt, 3_600_000)
      || LivesTooLong(payment.issuedAt, payment.expiresAt, 900_000)
    case NotYetValid => Early(intent.issuedAt, o.now, o.skew) || Early(cart.issuedAt, o.now, o.skew) || Early(payment.issuedAt, o.now, o.skew)
    case IntentExpired => Late(intent.expiresAt, o.now)
    case CartExpired => Late(cart.expiresAt, o.now)
    case PaymentExpired => Late(payment.expiresAt, o.now)
    case PayerMismatch => intent.payer != o.expectedPayer
    case MerchantMismatch => cart.merchant != o.expectedMerchant || payment.merchant != o.expectedMerchant
    case AgentMismatch => payment.agent != intent.agent
    case IntentMismatch => cart.intentId != intent.id || payment.intentId != intent.id
    case CartMismatch => payment.cartId != cart.id || payment.cartDigest != k.cartDigest(cart)
    case CurrencyMismatch => cart.currency != c.currency || payment.currency != c.currency
    case NoPayerKey => !Found(k.payerKey(intent.payer))
    case NoMerchantKey => !Found(k.merchantKey(cart.merchant))
    case NoAgentKey => !Found(k.agentKey(payment.agent))
    case InvalidIntentSignature => !Verifies(k.payerKey(intent.payer), intent, k.intentSigned)
    case InvalidCartSignature => !Verifies(k.merchantKey(cart.merchant), cart, k.cartSigned)
    case InvalidPaymentSignature => !Verifies(k.agentKey(payment.agent), payment, k.paySigned)
    case CartTotalWrong => (match CartTotal(cart.items) { case None => true case Some(total) => cart.totalMinor != Whole(total) })
    case AmountMismatch => payment.amountMinor != cart.totalMinor
    case MerchantNotAllowed => c.merchants.Some? && cart.merchant !in c.merchants.value
    case CategoryNotAllowed =>
      c.categories.Some? && exists it | it in cart.items :: it.category.None? || it.category.value !in c.categories.value
    case ExceedsPerPurchaseLimit =>
      c.maxPerPurchaseMinor.Some? && payment.amountMinor.Whole? && payment.amountMinor.n as real > c.maxPerPurchaseMinor.value
    case ExceedsTotalLimit => payment.amountMinor.Whole? && c.maxTotalMinor.Whole? && payment.amountMinor.n > c.maxTotalMinor.n
    case _ => false
  }

  /** Where in the order of checks a reason comes up: the cart is named before the signatures are checked and its digest
      after. */
  function Rank(o: Options, reason: PaymentFailure): nat {
    match reason
    case Malformed => 0
    case UnsupportedVersion => 1
    case LifetimeTooLong => 2
    case NotYetValid => 3
    case IntentExpired => 4
    case CartExpired => 5
    case PaymentExpired => 6
    case PayerMismatch => 7
    case MerchantMismatch => 8
    case AgentMismatch => 9
    case IntentMismatch => 10
    case CartMismatch => if o.payment.cartId != o.cart.id then 11 else 20
    case CurrencyMismatch => 12
    case NoPayerKey => 13
    case NoMerchantKey => 14
    case NoAgentKey => 15
    case InvalidIntentSignature => 16
    case InvalidCartSignature => 17
    case InvalidPaymentSignature => 18
    case CartTotalWrong => 19
    case AmountMismatch => 21
    case MerchantNotAllowed => 22
    case CategoryNotAllowed => 23
    case ExceedsPerPurchaseLimit => 24
    case ExceedsTotalLimit => 25
    case _ => 26
  }

  /** A refusal before the reservation names the first thing that is wrong. */
  lemma RefusalIsFirst(k: Crypto, o: Options)
    ensures var f := Precheck(k, o);
            f.Some? ==> Violates(k, o, f.value) && forall g | Rank(o, g) < Rank(o, f.value) :: !Violates(k, o, g)
  {
    RefusalIsTrue(k, o);
    hide Violates;
    hide Rank;
    hide Precheck;
    forall g
      ensures Precheck(k, o).Some? && Rank(o, g) < Rank(o, Precheck(k, o).value) ==> !Violates(k, o, g)
    {
      if Rank(o, g) < 12 {
        NoDocumentEarlier(k, o, g);
      } else {
        NoKeyEarlier(k, o, g);
      }
    }
  }

  lemma RefusalIsTrue(k: Crypto, o: Options)
    ensures Precheck(k, o).Some? ==> Violates(k, o, Precheck(k, o).value)
  {
    hide CartTotal;
  }

  lemma NoDocumentEarlier(k: Crypto, o: Options, g: PaymentFailure)
    requires Rank(o, g) < 12
    ensures Precheck(k, o).Some? && Rank(o, g) < Rank(o, Precheck(k, o).value) ==> !Violates(k, o, g)
  {
    hide CartTotal;
    hide CategoriesOk;
    hide Verifies;
    hide Found;
  }

  lemma NoKeyEarlier(k: Crypto, o: Options, g: PaymentFailure)
    requires Rank(o, g) >= 12
    ensures Precheck(k, o).Some? && Rank(o, g) < Rank(o, Precheck(k, o).value) ==> !Violates(k, o, g)
  {
    hide CartTotal;
    hide LivesTooLong;
    hide LifetimeOk;
    hide Early;
    hide Late;
  }

  // ---------------------------------------------------------------------------
  // Calls
  // ---------------------------------------------------------------------------

  /** A call gets its reservation exactly when its payment is in order, is not charged yet, and fits under the ceiling
      with what is charged already. */
  lemma ReservesExactly(k: Crypto, ledger: Ledger, o: Options)
    ensures Begin(k, ledger, o).0 == Held <==>
              && InOrder(k, o)
              && (forall p | p in Payments(ledger, o.intent.id) :: p.id != o.payment.id)
              && Sum(Payments(ledger, o.intent.id)) + o.payment.amountMinor.n <= o.intent.constraints.maxTotalMinor.n
  {
    PassesExactly(k, o);
    if Precheck(k, o) == None {
      PassedShape(k, o);
    }
    hide Precheck;
    hide InOrder;
    hide Sum;
  }

  /** A payment in order is refused its reservation as a duplicate exactly when its id is charged under the intent, and else
      for the ceiling exactly when it does not fit. */
  lemma ReservationRefusals(k: Crypto, ledger: Ledger, o: Options)
    requires InOrder(k, o)
    ensures var charged := exists p | p in Payments(ledger, o.intent.id) :: p.id == o.payment.id;
            var full := Sum(Payments(ledger, o.intent.id)) + o.payment.amountMinor.n > o.intent.constraints.maxTotalMinor.n;
            && (Begin(k, ledger, o).0 == Refused(AlreadyCharged) <==> charged)
            && (Begin(k, ledger, o).0 == Refused(ExceedsTotalLimit) <==> !charged && full)
            && (charged || full ==> Payments(Begin(k, ledger, o).1, o.intent.id) == Payments(ledger, o.intent.id))
  {
    PassesExactly(k, o);
    PassedShape(k, o);
    hide Precheck;
    hide InOrder;
    hide Sum;
  }

  /** A reserved payment above the limit that needs no human is refused without a grant, and with one that is not accepted;
      both times its reservation is handed back. */
  lemma ApprovalRefusals(o: Options, ledger: Ledger, approval: Approval)
    requires Shape(o)
    ensures var (phase, after) := Conclude(ledger, o, approval);
            var c := o.intent.constraints;
            var above := c.requireApprovalAboveMinor.Some? && o.payment.amountMinor.n as real > c.requireApprovalAboveMinor.value;
            && (phase == Refused(ApprovalRequired) <==> above && !o.hasGrant)
            && (phase == Refused(ApprovalInvalid) <==> above && o.hasGrant && o.allowedApprovers != [] && approval == Denied)
            && (phase == Leaked <==> above && o.hasGrant && (o.allowedApprovers == [] || approval == Throws))
            && (phase == Accepted <==> !above || (o.hasGrant && o.allowedApprovers != [] && approval == Granted))
            && (phase.Refused? ==> forall p | p in Payments(after, o.intent.id) :: p.id != o.payment.id)
            && (!phase.Refused? ==> after == ledger)
  {
    RemoveMembers(Payments(ledger, o.intent.id), o.payment.id);
    hide Shape;
    hide Remove;
  }

  /** On its own a call returns ok exactly then, if it needs no approval or gets one from an allowed approver. */
  lemma AcceptedAloneExactly(k: Crypto, ledger: Ledger, o: Options, approval: Approval)
    ensures var (phase, after) := Begin(k, ledger, o);
            (phase == Held && Shape(o) && Conclude(after, o, approval).0 == Accepted) <==>
              && InOrder(k, o)
              && (forall p | p in Payments(ledger, o.intent.id) :: p.id != o.payment.id)
              && Sum(Payments(ledger, o.intent.id)) + o.payment.amountMinor.n <= o.intent.constraints.maxTotalMinor.n
              && (match o.intent.constraints.requireApprovalAboveMinor {
                    case None => true
                    case Some(limit) =>
                      o.payment.amountMinor.n as real > limit ==> o.hasGrant && o.allowedApprovers != [] && approval == Granted
                  })
  {
    ReservesExactly(k, ledger, o);
    PassesExactly(k, o);
    if Precheck(k, o) == None {
      PassedShape(k, o);
    }
    hide Begin;
    hide Precheck;
    hide InOrder;
    hide Sum;
    hide Release;
  }

  /** In every reachable state every call that holds money or returned ok presented a payment in order, and its amount is
      in the ledger. */
  lemma HoldersAreInOrder(k: Crypto, os: seq<Options>, steps: seq<Step>, i: nat)
    requires OneCeiling(k, os) && i < |os|
    requires var s := Run(k, Initial(os), steps); i < |s.sessions| && Holding(s.sessions[i])
    ensures InOrder(k, os[i])
    ensures Payment(os[i].payment.id, os[i].payment.amountMinor.n) in Payments(Run(k, Initial(os), steps).ledger, os[i].intent.id)
  {
    RunKeeps(k, os, steps);
    var s := Run(k, Initial(os), steps);
    hide Run;
    hide Precheck;
    hide InOrder;
    assert Recorded(k, s.ledger, s.sessions[i]);
    PassesExactly(k, os[i]);
  }
}
