/** Payment mandates (src/mandate.ts): money in doubles that never rounds, the checks a payment must pass, and the
    spend ledger. `MandateSessions.dfy` interleaves many verifications over one ledger. */
module Mandate {
  import opened Prelude
  import opened Bytes

  // ---------------------------------------------------------------------------
  // Money
  // ---------------------------------------------------------------------------

  /** A number received from outside: an integer, or something else that is no amount of money. */
  datatype Amount = Whole(n: int) | NotWhole

  predicate IsMoney(a: Amount) { a.Whole? && 0 <= a.n <= MAX_SAFE }

  predicate IsPositive(a: Amount) { IsMoney(a) && a.n > 0 }

  datatype CartItem = CartItem(sku: string, category: Option<string>, quantity: Amount, unitMinor: Amount)

  function LineTotal(it: CartItem): nat
    requires IsPositive(it.quantity) && IsMoney(it.unitMinor)
  {
    var q: nat, u: nat := it.quantity.n, it.unitMinor.n;
    q * u
  }

  /** The exact total of the items, over the integers. */
  function ExactTotal(items: seq<CartItem>): (total: nat)
    requires forall it | it in items :: IsPositive(it.quantity) && IsMoney(it.unitMinor)
  {
    if items == [] then 0
    else
      var it := items[|items| - 1];
      assert it in items;
      assert forall x | x in items[..|items| - 1] :: x in items;
      ExactTotal(items[..|items| - 1]) + LineTotal(it)
  }

  lemma {:induction false} TotalGrows(items: seq<CartItem>, n: nat)
    requires (forall it | it in items :: IsPositive(it.quantity) && IsMoney(it.unitMinor)) && n <= |items|
    ensures ExactTotal(items[..n]) <= ExactTotal(items)
    decreases |items|
  {
    if n == |items| {
      assert items[..n] == items;
    } else {
      var init := items[..|items| - 1];
      assert init[..n] == items[..n] && items[|items| - 1] in items;
      TotalGrows(init, n);
    }
  }

  /** The exact total is the sum of quantity times price. */
  lemma TotalIsSumOfProducts(items: seq<CartItem>, it: CartItem)
    requires forall x | x in items + [it] :: IsPositive(x.quantity) && IsMoney(x.unitMinor)
    ensures it in items + [it] && forall x | x in items :: x in items + [it]
    ensures ExactTotal([]) == 0 && ExactTotal(items + [it]) == ExactTotal(items) + it.quantity.n * it.unitMinor.n
  {
    var all := items + [it];
    assert all[|all| - 1] == it && all[..|all| - 1] == items;
  }

  /** What a cart is worth: its exact total, if every quantity and price is money and the total is safe. */
  function CartTotal(items: seq<CartItem>): Option<nat> {
    if (forall it | it in items :: IsPositive(it.quantity) && IsMoney(it.unitMinor)) && ExactTotal(items) <= MAX_SAFE
    then Some(ExactTotal(items)) else None
  }

  /** `checkedTotal`: products and sums in doubles accept a cart exactly when the integers do, and agree. */
  method CheckedTotal(items: seq<CartItem>) returns (r: Option<nat>)
    ensures r == CartTotal(items)
  {
    var total: nat := 0;
    for i := 0 to |items|
      invariant forall it | it in items[..i] :: IsPositive(it.quantity) && IsMoney(it.unitMinor)
      invariant total == ExactTotal(items[..i]) <= MAX_SAFE
    {
      var it := items[i];
      assert it in items;
      if !IsPositive(it.quantity) || !IsMoney(it.unitMinor) {
        return None;
      }
      var line := ToDouble(LineTotal(it));
      ToDoubleExact(LineTotal(it));
      assert items[..i + 1] == items[..i] + [it];
      assert items[..i + 1][..i] == items[..i];
      assert ExactTotal(items[..i + 1]) == total + LineTotal(it);
      if line > MAX_SAFE {
        Overflows(items, i + 1);
        return None;
      }
      ToDoubleExact(total + line);
      total := ToDouble(total + line);
      if total > MAX_SAFE {
        Overflows(items, i + 1);
        return None;
      }
    }
    assert items[..|items|] == items;
    return Some(total);
  }

  lemma Overflows(items: seq<CartItem>, n: nat)
    requires n <= |items| && forall it | it in items[..n] :: IsPositive(it.quantity) && IsMoney(it.unitMinor)
    requires ExactTotal(items[..n]) > MAX_SAFE
    ensures CartTotal(items) == None
  {
    if forall it | it in items :: IsPositive(it.quantity) && IsMoney(it.unitMinor) {
      TotalGrows(items, n);
    }
  }

  // ---------------------------------------------------------------------------
  // The ledger
  // ---------------------------------------------------------------------------

  /** A reservation; a `Map` keeps them in insertion order. */
  datatype Payment = Payment(id: string, amount: nat)

  type Ledger = map<string, seq<Payment>>

  function Payments(ledger: Ledger, intentId: string): seq<Payment> {
    if intentId in ledger then ledger[intentId] else []
  }

  function Sum(ps: seq<Payment>): nat {
    if ps == [] then 0 else Sum(ps[..|ps| - 1]) + ps[|ps| - 1].amount
  }

  predicate Has(ps: seq<Payment>, id: string) { exists p | p in ps :: p.id == id }

  predicate Distinct(ps: seq<Payment>) { forall i, j | 0 <= i < j < |ps| :: ps[i].id != ps[j].id }

  predicate WellKept(ledger: Ledger) {
    forall x | x in ledger :: Distinct(ledger[x]) && forall p | p in ledger[x] :: p.amount <= MAX_SAFE
  }

  function Remove(ps: seq<Payment>, id: string): seq<Payment> {
    if ps == [] then [] else (if ps[0].id == id then [] else [ps[0]]) + Remove(ps[1..], id)
  }

  lemma {:induction false} RemoveMembers(ps: seq<Payment>, id: string)
    ensures forall p :: p in Remove(ps, id) <==> p in ps && p.id != id
    ensures Distinct(ps) ==> Distinct(Remove(ps, id))
  {
    if ps != [] {
      RemoveMembers(ps[1..], id);
      var rest := Remove(ps[1..], id);
      assert forall p :: p in ps <==> p == ps[0] || p in ps[1..];
      if Distinct(ps) {
        forall j | 0 <= j < |rest|
          ensures rest[j].id != ps[0].id
        {
          assert rest[j] in rest;
          var k :| 0 <= k < |ps[1..]| && ps[1..][k] == rest[j];
          assert ps[k + 1] == rest[j];
        }
      }
    }
  }

  datatype ReserveOutcome = Reserved | Duplicate | ExceedsCeiling

  /** What `reserve` decides over the integers; `None` where it throws. */
  function Reserve(ledger: Ledger, intentId: string, paymentId: string, amount: Amount, ceiling: Amount)
    : Option<(ReserveOutcome, Ledger)>
  {
    if !IsMoney(amount) || !IsPositive(ceiling) then None
    else
      var ps := Payments(ledger, intentId);
      if Has(ps, paymentId) then Some((Duplicate, ledger))
      else if Sum(ps) + amount.n > ceiling.n then Some((ExceedsCeiling, ledger[intentId := ps]))
      else Some((Reserved, ledger[intentId := ps + [Payment(paymentId, amount.n)]]))
  }

  function Release(ledger: Ledger, intentId: string, paymentId: string): Ledger {
    if intentId in ledger then ledger[intentId := Remove(ledger[intentId], paymentId)] else ledger
  }

  class MemorySpendLedger {
    var byIntent: Ledger

    constructor ()
      ensures byIntent == map[] && Valid()
    {
      byIntent := map[];
    }

    ghost predicate Valid() reads this { WellKept(byIntent) }

    /** The sum in doubles, from `start`: exact while it is safe, and never back in range once it is not. */
    method FloatSum(ps: seq<Payment>, start: nat) returns (total: nat)
      requires start <= MAX_SAFE && forall p | p in ps :: p.amount <= MAX_SAFE
      ensures start + Sum(ps) <= MAX_SAFE ==> total == start + Sum(ps)
      ensures start + Sum(ps) > MAX_SAFE ==> total > MAX_SAFE
    {
      total := start;
      for i := 0 to |ps|
        invariant start + Sum(ps[..i]) <= MAX_SAFE ==> total == start + Sum(ps[..i])
        invariant start + Sum(ps[..i]) > MAX_SAFE ==> total > MAX_SAFE
      {
        assert ps[..i + 1][..i] == ps[..i];
        assert Sum(ps[..i + 1]) == Sum(ps[..i]) + ps[i].amount;
        ToDoubleExact(total + ps[i].amount);
        total := ToDouble(total + ps[i].amount);
      }
      assert ps[..|ps|] == ps;
    }

    /** `reserve`: sums in doubles, and accepts exactly when the exact integers fit under the ceiling. */
    method ReservePayment(intentId: string, paymentId: string, amount: Amount, ceiling: Amount) returns (r: Option<ReserveOutcome>)
      requires Valid()
      modifies this
      ensures Valid()
      ensures match Reserve(old(byIntent), intentId, paymentId, amount, ceiling)
              case None => r == None && byIntent == old(byIntent)
              case Some((outcome, ledger)) => r == Some(outcome) && byIntent == ledger
    {
      if !IsMoney(amount) || !IsPositive(ceiling) {
        return None;
      }
      ghost var before := byIntent;
      if intentId !in byIntent {
        byIntent := byIntent[intentId := []];
      }
      var payments := byIntent[intentId];
      assert payments == Payments(before, intentId) && byIntent == before[intentId := payments];
      if exists p | p in payments :: p.id == paymentId {
        assert byIntent == before;
        return Some(Duplicate);
      }
      var total := FloatSum(payments, amount.n);
      if total > MAX_SAFE || total > ceiling.n {
        return Some(ExceedsCeiling);
      }
      byIntent := byIntent[intentId := payments + [Payment(paymentId, amount.n)]];
      return Some(Reserved);
    }

    /** `release`. */
    method ReleasePayment(intentId: string, paymentId: string)
      requires Valid()
      modifies this
      ensures Valid() && byIntent == Release(old(byIntent), intentId, paymentId)
    {
      if intentId in byIntent {
        RemoveMembers(byIntent[intentId], paymentId);
        byIntent := byIntent[intentId := Remove(byIntent[intentId], paymentId)];
      }
    }

    /** `spent`. */
    method Spent(intentId: string) returns (total: nat)
      requires Valid()
      ensures Sum(Payments(byIntent, intentId)) <= MAX_SAFE ==> total == Sum(Payments(byIntent, intentId))
    {
      total := FloatSum(Payments(byIntent, intentId), 0);
    }
  }

  // ---------------------------------------------------------------------------
  // Mandates
  // ---------------------------------------------------------------------------

  const MANDATE_VERSION: string := "7h3-mandate/1"
  const MAX_CART_LIFETIME_MS: int := 3_600_000
  const MAX_PAYMENT_LIFETIME_MS: int := 900_000
  const MAX_INTENT_LIFETIME_MS: int := 2_592_000_000

  datatype Constraints = Constraints(
    currency: string, maxTotalMinor: Amount, maxPerPurchaseMinor: Option<real>, merchants: Option<seq<string>>,
    categories: Option<seq<string>>, requireApprovalAboveMinor: Option<real>)

  /** Times are integers; `NotWhole` times make a document malformed. */
  datatype Intent = Intent(
    version: string, id: string, payer: string, agent: string, constraints: Constraints, issuedAt: Amount, expiresAt: Amount,
    keyId: string, signature: string)

  datatype Cart = Cart(
    version: string, id: string, intentId: string, merchant: string, currency: string, items: seq<CartItem>, totalMinor: Amount,
    issuedAt: Amount, expiresAt: Amount, keyId: string, signature: string)

  datatype Pay = Pay(
    version: string, id: string, intentId: string, cartId: string, cartDigest: string, merchant: string, agent: string,
    amountMinor: Amount, currency: string, issuedAt: Amount, expiresAt: Amount, keyId: string, signature: string)

  /** Key lookups, signature checks over the canonical forms, and the digest of a cart. */
  datatype Crypto = Crypto(
    payerKey: string -> Option<string>, merchantKey: string -> Option<string>, agentKey: string -> Option<string>,
    intentSigned: (Intent, string) -> bool, cartSigned: (Cart, string) -> bool, paySigned: (Pay, string) -> bool,
    cartDigest: Cart -> string)

  datatype Options = Options(
    intent: Intent, cart: Cart, payment: Pay, expectedPayer: string, expectedMerchant: string, hasGrant: bool, allowedApprovers: seq<string>,
    now: int, skew: int)

  datatype PaymentFailure =
    | Malformed | UnsupportedVersion | NoPayerKey | NoMerchantKey | NoAgentKey | InvalidIntentSignature | InvalidCartSignature
    | InvalidPaymentSignature | IntentExpired | CartExpired | PaymentExpired | NotYetValid | LifetimeTooLong | PayerMismatch
    | AgentMismatch | MerchantMismatch | IntentMismatch | CartMismatch | CurrencyMismatch | CartTotalWrong | AmountMismatch
    | MerchantNotAllowed | CategoryNotAllowed | ExceedsPerPurchaseLimit | ExceedsTotalLimit | ApprovalRequired | ApprovalInvalid
    | AlreadyCharged

  predicate SafeTime(a: Amount) { a.Whole? && SafeInteger(a.n) }

  predicate IsCurrency(s: string) { |s| == 3 && forall c | c in s :: 'A' <= c <= 'Z' }

  predicate Shape(o: Options) {
    && SafeTime(o.intent.issuedAt) && SafeTime(o.intent.expiresAt) && SafeTime(o.cart.issuedAt) && SafeTime(o.cart.expiresAt)
    && SafeTime(o.payment.issuedAt) && SafeTime(o.payment.expiresAt)
    && IsMoney(o.cart.totalMinor) && IsMoney(o.payment.amountMinor)
    && IsCurrency(o.intent.constraints.currency) && IsPositive(o.intent.constraints.maxTotalMinor)
  }

  predicate LifetimeOk(issuedAt: Amount, expiresAt: Amount, max: int)
    requires issuedAt.Whole? && expiresAt.Whole?
  {
    issuedAt.n < expiresAt.n <= issuedAt.n + max
  }

  predicate CategoriesOk(categories: seq<string>, items: seq<CartItem>) {
    forall it | it in items :: it.category.Some? && it.category.value in categories
  }

  /** A key counts as found when it is neither missing nor empty. */
  predicate Usable(key: Option<string>) { key.Some? && key.value != "" }

  /** Everything `verifyPayment` checks before it touches the ledger, in its order. */
  function Precheck(k: Crypto, o: Options): Option<PaymentFailure> {
    var (intent, cart, payment) := (o.intent, o.cart, o.payment);
    var c := intent.constraints;
    if !Shape(o) then Some(Malformed)
    else if intent.version != MANDATE_VERSION || cart.version != MANDATE_VERSION || payment.version != MANDATE_VERSION then
      Some(UnsupportedVersion)
    else if !LifetimeOk(intent.issuedAt, intent.expiresAt, MAX_INTENT_LIFETIME_MS) then Some(LifetimeTooLong)
    else if !LifetimeOk(cart.issuedAt, cart.expiresAt, MAX_CART_LIFETIME_MS) then Some(LifetimeTooLong)
    else if !LifetimeOk(payment.issuedAt, payment.expiresAt, MAX_PAYMENT_LIFETIME_MS) then Some(LifetimeTooLong)
    else if intent.issuedAt.n > o.now + o.skew || cart.issuedAt.n > o.now + o.skew || payment.issuedAt.n > o.now + o.skew then
      Some(NotYetValid)
    else if o.now >= intent.expiresAt.n then Some(IntentExpired)
    else if o.now >= cart.expiresAt.n then Some(CartExpired)
    else if o.now >= payment.expiresAt.n then Some(PaymentExpired)
    else if intent.payer != o.expectedPayer then Some(PayerMismatch)
    else if cart.merchant != o.expectedMerchant || payment.merchant != o.expectedMerchant then Some(MerchantMismatch)
    else if payment.agent != intent.agent then Some(AgentMismatch)
    else if cart.intentId != intent.id || payment.intentId != intent.id then Some(IntentMismatch)
    else if payment.cartId != cart.id then Some(CartMismatch)
    else if cart.currency != c.currency || payment.currency != c.currency then Some(CurrencyMismatch)
    else if !Usable(k.payerKey(intent.payer)) then Some(NoPayerKey)
    else if !Usable(k.merchantKey(cart.merchant)) then Some(NoMerchantKey)
    else if !Usable(k.agentKey(payment.agent)) then Some(NoAgentKey)
    else if !k.intentSigned(intent, k.payerKey(intent.payer).value) then Some(InvalidIntentSignature)
    else if !k.cartSigned(cart, k.merchantKey(cart.merchant).value) then Some(InvalidCartSignature)
    else if !k.paySigned(payment, k.agentKey(payment.agent).value) then Some(InvalidPaymentSignature)
    else if CartTotal(cart.items).None? || CartTotal(cart.items).value != cart.totalMinor.n then Some(CartTotalWrong)
    else if payment.cartDigest != k.cartDigest(cart) then Some(CartMismatch)
    else if payment.amountMinor != cart.totalMinor then Some(AmountMismatch)
    else if c.merchants.Some? && cart.merchant !in c.merchants.value then Some(MerchantNotAllowed)
    else if c.categories.Some? && !CategoriesOk(c.categories.value, cart.items) then Some(CategoryNotAllowed)
    else if c.maxPerPurchaseMinor.Some? && payment.amountMinor.n as real > c.maxPerPurchaseMinor.value then Some(ExceedsPerPurchaseLimit)
    else if payment.amountMinor.n > c.maxTotalMinor.n then Some(ExceedsTotalLimit)
    else None
  }

  predicate NeedsApproval(o: Options)
    requires Shape(o)
  {
    var limit := o.intent.constraints.requireApprovalAboveMinor;
    limit.Some? && o.payment.amountMinor.n as real > limit.value
  }
}
