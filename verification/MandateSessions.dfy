/** Many `verifyPayment` calls (src/mandate.ts) interleaved over one ledger: the ceiling and conservation hold in
    every reachable state, whatever the order of their steps. */
module MandateSessions {
  import opened Prelude
  import opened Bytes
  import opened Mandate

  /** Where a call is: before its reservation, holding one while it waits for the approval, or finished.
      `Threw` is a call that threw before its reservation, `Leaked` one that threw while it held it. */
  datatype Phase = Waiting | Held | Accepted | Refused(reason: PaymentFailure) | Threw | Leaked

  datatype Session = Session(options: Options, phase: Phase)

  datatype State = State(ledger: Ledger, sessions: seq<Session>)

  /** Up to the outcome of `reserve`: the checks touch nothing shared, and the reservation is one step. */
  function Begin(k: Crypto, ledger: Ledger, o: Options): (Phase, Ledger) {
    match Precheck(k, o)
    case Some(reason) => (Refused(reason), ledger)
    case None =>
      match Reserve(ledger, o.intent.id, o.payment.id, o.payment.amountMinor, o.intent.constraints.maxTotalMinor)
      case None => (Threw, ledger)
      case Some((Duplicate, after)) => (Refused(AlreadyCharged), after)
      case Some((ExceedsCeiling, after)) => (Refused(ExceedsTotalLimit), after)
      case Some((Reserved, after)) => (Held, after)
  }

  /** What `verifyApproval` does with a list of approvers that is not empty; `Throws` is a callback that throws. */
  datatype Approval = Granted | Denied | Throws

  /** An empty list of approvers makes `verifyApproval` throw (src/approval.ts:215-218). */
  predicate ApprovalThrows(o: Options, approval: Approval)
    requires Shape(o)
  {
    NeedsApproval(o) && o.hasGrant && (o.allowedApprovers == [] || approval == Throws)
  }

  /** From the reservation to the result. */
  function Conclude(ledger: Ledger, o: Options, approval: Approval): (Phase, Ledger)
    requires Shape(o)
  {
    if !NeedsApproval(o) then (Accepted, ledger)
    else if !o.hasGrant then (Refused(ApprovalRequired), Release(ledger, o.intent.id, o.payment.id))
    else if ApprovalThrows(o, approval) then (Leaked, ledger)
    else if approval == Denied then (Refused(ApprovalInvalid), Release(ledger, o.intent.id, o.payment.id))
    else (Accepted, ledger)
  }

  /** `verifyPayment` on its own; a result `Leaked` is its exception. */
  method VerifyPayment(k: Crypto, ledger: MemorySpendLedger, o: Options, approval: Approval) returns (result: Phase, spent: nat)
    requires ledger.Valid()
    modifies ledger
    ensures ledger.Valid()
    ensures var (phase, after) := Begin(k, old(ledger.byIntent), o);
            (result, ledger.byIntent) == if phase == Held && Shape(o) then Conclude(after, o, approval) else (phase, after)
    ensures result == Accepted ==> spent == Sum(Payments(ledger.byIntent, o.intent.id)) <= o.intent.constraints.maxTotalMinor.n
  {
    spent := 0;
    var failure := Precheck(k, o);
    if failure.Some? {
      return Refused(failure.value), 0;
    }
    ghost var before := Payments(ledger.byIntent, o.intent.id);
    var outcome := ledger.ReservePayment(o.intent.id, o.payment.id, o.payment.amountMinor, o.intent.constraints.maxTotalMinor);
    if outcome == Some(Duplicate) {
      return Refused(AlreadyCharged), 0;
    }
    if outcome == Some(ExceedsCeiling) {
      return Refused(ExceedsTotalLimit), 0;
    }
    SumAppend(before, Payment(o.payment.id, o.payment.amountMinor.n));
    if NeedsApproval(o) {
      if !o.hasGrant {
        ledger.ReleasePayment(o.intent.id, o.payment.id);
        return Refused(ApprovalRequired), 0;
      }
      if o.allowedApprovers == [] || approval == Throws {
        return Leaked, 0;
      }
      if approval == Denied {
        ledger.ReleasePayment(o.intent.id, o.payment.id);
        return Refused(ApprovalInvalid), 0;
      }
    }
    spent := ledger.Spent(o.intent.id);
    return Accepted, spent;
  }

  lemma SumAppend(ps: seq<Payment>, p: Payment)
    ensures Sum(ps + [p]) == Sum(ps) + p.amount
  {
    assert (ps + [p])[..|ps|] == ps;
  }

  // ---------------------------------------------------------------------------
  // Interleaving
  // ---------------------------------------------------------------------------

  /** `Abort` is a key lookup or a digest that throws before the reservation. */
  datatype Step = Start(i: nat) | Abort(i: nat) | Finish(i: nat, approval: Approval)

  function Set(s: State, i: nat, phase: Phase, ledger: Ledger): State
    requires i < |s.sessions|
  {
    State(ledger, s.sessions[i := s.sessions[i].(phase := phase)])
  }

  /** A step of one session; a step it cannot take changes nothing. */
  function Take(k: Crypto, s: State, step: Step): State {
    if step.i >= |s.sessions| then s
    else
      var x := s.sessions[step.i];
      match step
      case Start(i) =>
        if x.phase != Waiting then s
        else
          var (phase, ledger) := Begin(k, s.ledger, x.options);
          Set(s, i, phase, ledger)
      case Abort(i) => if x.phase != Waiting then s else Set(s, i, Threw, s.ledger)
      case Finish(i, approval) =>
        if x.phase != Held || !Shape(x.options) then s
        else
          var (phase, ledger) := Conclude(s.ledger, x.options, approval);
          Set(s, i, phase, ledger)
  }

  function Run(k: Crypto, s: State, steps: seq<Step>): State {
    if steps == [] then s else Take(k, Run(k, s, steps[..|steps| - 1]), steps[|steps| - 1])
  }

  function Initial(os: seq<Options>): State {
    State(map[], seq(|os|, i requires 0 <= i < |os| => Session(os[i], Waiting)))
  }

  // ---------------------------------------------------------------------------
  // What every reachable state keeps
  // ---------------------------------------------------------------------------

  predicate Holding(x: Session) { x.phase == Held || x.phase == Accepted || x.phase == Leaked }

  predicate SameCharge(a: Options, b: Options) { a.intent.id == b.intent.id && a.payment.id == b.payment.id }

  /** Money a session holds under an intent. */
  function Charge(x: Session, intentId: string): nat {
    if Holding(x) && x.options.intent.id == intentId && IsMoney(x.options.payment.amountMinor) then x.options.payment.amountMinor.n else 0
  }

  function Charged(xs: seq<Session>, intentId: string): nat {
    if xs == [] then 0 else Charged(xs[..|xs| - 1], intentId) + Charge(xs[|xs| - 1], intentId)
  }

  /** The session holds this reservation. */
  predicate Holds(x: Session, intentId: string, p: Payment) {
    Holding(x) && x.options.intent.id == intentId && x.options.payment.id == p.id && x.options.payment.amountMinor == Whole(p.amount)
  }

  predicate HeldBy(xs: seq<Session>, intentId: string, p: Payment) {
    exists i | 0 <= i < |xs| :: Holds(xs[i], intentId, p)
  }

  /** A session that holds money passed every check, and its reservation is in the ledger. */
  predicate Recorded(k: Crypto, ledger: Ledger, x: Session) {
    Holding(x) ==>
      && Precheck(k, x.options) == None && IsMoney(x.options.payment.amountMinor)
      && Payment(x.options.payment.id, x.options.payment.amountMinor.n) in Payments(ledger, x.options.intent.id)
  }

  predicate Apart(x: Session, y: Session) {
    Holding(x) && Holding(y) ==> !SameCharge(x.options, y.options)
  }

  /** Reservations and holding sessions correspond one to one. */
  ghost predicate Matched(k: Crypto, s: State) {
    && WellKept(s.ledger)
    && (forall i | 0 <= i < |s.sessions| :: Recorded(k, s.ledger, s.sessions[i]))
    && (forall id, p | p in Payments(s.ledger, id) :: HeldBy(s.sessions, id, p))
    && (forall i, j | 0 <= i < j < |s.sessions| :: Apart(s.sessions[i], s.sessions[j]))
  }

  /** What is reserved under the session's intent stays within the ceiling its mandate states. */
  predicate WithinCeiling(k: Crypto, ledger: Ledger, x: Session) {
    Precheck(k, x.options) == None ==>
      Sum(Payments(ledger, x.options.intent.id)) <= x.options.intent.constraints.maxTotalMinor.n
  }

  /** No intent is charged above its ceiling, and what the ledger holds is what the sessions hold. */
  ghost predicate Conserved(k: Crypto, s: State) {
    && (forall i | 0 <= i < |s.sessions| :: WithinCeiling(k, s.ledger, s.sessions[i]))
    && (forall id: string :: Sum(Payments(s.ledger, id)) == Charged(s.sessions, id))
  }

  /** Every mandate for one intent id states one ceiling. */
  predicate OneCeiling(k: Crypto, os: seq<Options>) {
    forall a, b | a in os && b in os && a.intent.id == b.intent.id && Precheck(k, a) == None && Precheck(k, b) == None ::
      a.intent.constraints.maxTotalMinor == b.intent.constraints.maxTotalMinor
  }

  predicate Presents(s: State, os: seq<Options>) {
    |s.sessions| == |os| && forall i | 0 <= i < |os| :: s.sessions[i].options == os[i]
  }

  lemma {:induction false} ChargedUpdate(xs: seq<Session>, i: nat, y: Session, id: string)
    requires i < |xs|
    ensures Charged(xs[i := y], id) == Charged(xs, id) - Charge(xs[i], id) + Charge(y, id)
    ensures Charged(xs, id) >= Charge(xs[i], id)
    decreases |xs|
  {
    var n := |xs| - 1;
    if i < n {
      assert xs[i := y][..n] == xs[..n][i := y];
      ChargedUpdate(xs[..n], i, y, id);
    } else {
      assert xs[i := y][..n] == xs[..n];
    }
  }

  lemma {:induction false} SumRemove(ps: seq<Payment>, p: Payment)
    requires Distinct(ps) && p in ps
    ensures Sum(Remove(ps, p.id)) == Sum(ps) - p.amount
  {
    if ps[0] == p {
      RemoveNone(ps[1..], p.id);
      assert Remove(ps, p.id) == ps[1..];
      SumFront(ps);
    } else {
      SumRemove(ps[1..], p);
      SumFront(ps);
      var rest := Remove(ps[1..], p.id);
      assert ([ps[0]] + rest)[1..] == rest;
      SumFront([ps[0]] + rest);
    }
  }

  lemma {:induction false} RemoveNone(ps: seq<Payment>, id: string)
    requires forall p | p in ps :: p.id != id
    ensures Remove(ps, id) == ps
  {
    if ps != [] {
      RemoveNone(ps[1..], id);
    }
  }

  lemma {:induction false} SumFront(ps: seq<Payment>)
    requires ps != []
    ensures Sum(ps) == ps[0].amount + Sum(ps[1..])
  {
    if |ps| > 1 {
      assert ps[..|ps| - 1][1..] == ps[1..][..|ps| - 2];
      SumFront(ps[..|ps| - 1]);
    } else {
      assert ps[..0] == [] && ps[1..] == [];
    }
  }

  // ---------------------------------------------------------------------------
  // One step
  // ---------------------------------------------------------------------------

  predicate SamePayments(a: Ledger, b: Ledger, id: string) { Payments(a, id) == Payments(b, id) }

  /** A step that neither takes nor gives back money. */
  lemma StillKept(k: Crypto, s: State, i: nat, phase: Phase, ledger: Ledger)
    requires i < |s.sessions| && Matched(k, s) && Conserved(k, s) && WellKept(ledger)
    requires Holding(s.sessions[i].(phase := phase)) == Holding(s.sessions[i])
    requires forall id :: SamePayments(s.ledger, ledger, id)
    ensures Matched(k, Set(s, i, phase, ledger)) && Conserved(k, Set(s, i, phase, ledger))
  {
    hide Precheck;
    hide Charge;
    hide WellKept;
    var t := Set(s, i, phase, ledger);
    var y := t.sessions[i];
    forall id, p | p in Payments(t.ledger, id)
      ensures HeldBy(t.sessions, id, p)
    {
      assert SamePayments(s.ledger, ledger, id);
      var j :| 0 <= j < |s.sessions| && Holds(s.sessions[j], id, p);
      assert Holds(t.sessions[j], id, p);
    }
    forall j | 0 <= j < |t.sessions|
      ensures Recorded(k, t.ledger, t.sessions[j]) && WithinCeiling(k, t.ledger, t.sessions[j])
    {
      assert Recorded(k, s.ledger, s.sessions[j]) && WithinCeiling(k, s.ledger, s.sessions[j]);
      assert SamePayments(s.ledger, ledger, s.sessions[j].options.intent.id);
    }
    forall j, l | 0 <= j < l < |t.sessions|
      ensures Apart(t.sessions[j], t.sessions[l])
    {
      assert Apart(s.sessions[j], s.sessions[l]);
    }
    forall id: string
      ensures Sum(Payments(t.ledger, id)) == Charged(t.sessions, id)
    {
      assert SamePayments(s.ledger, ledger, id);
      ChargedUpdate(s.sessions, i, y, id);
      SameCharged(s.sessions[i], y, id);
    }
  }

  lemma SameCharged(x: Session, y: Session, id: string)
    requires x.options == y.options && Holding(x) == Holding(y)
    ensures Charge(x, id) == Charge(y, id)
  {
  }

  /** The reservation step. */
  lemma ReserveKept(k: Crypto, s: State, i: nat)
    requires i < |s.sessions| && Matched(k, s) && Conserved(k, s) && s.sessions[i].phase == Waiting
    requires Begin(k, s.ledger, s.sessions[i].options).0 == Held
    requires forall j | 0 <= j < |s.sessions| :: Agree(k, s.sessions[i].options, s.sessions[j].options)
    ensures var (phase, ledger) := Begin(k, s.ledger, s.sessions[i].options);
            Matched(k, Set(s, i, phase, ledger)) && Conserved(k, Set(s, i, phase, ledger))
  {
    var o := s.sessions[i].options;
    PassedShape(k, o);
    hide Precheck;
    hide Matched;
    hide Conserved;
    ReserveMatched(k, s, i);
    ReserveConserved(k, s, i);
  }

  function Reserving(o: Options): Payment
    requires IsMoney(o.payment.amountMinor)
  {
    Payment(o.payment.id, o.payment.amountMinor.n)
  }

  lemma ReserveMatched(k: Crypto, s: State, i: nat)
    requires i < |s.sessions| && Matched(k, s) && s.sessions[i].phase == Waiting
    requires var o := s.sessions[i].options;
             && Precheck(k, o) == None && IsMoney(o.payment.amountMinor) && !Has(Payments(s.ledger, o.intent.id), o.payment.id)
    ensures var o := s.sessions[i].options;
            Matched(k, Set(s, i, Held, s.ledger[o.intent.id := Payments(s.ledger, o.intent.id) + [Reserving(o)]]))
  {
    hide Precheck;
    var o := s.sessions[i].options;
    var x, p := o.intent.id, Reserving(o);
    var ps := Payments(s.ledger, x);
    var ledger := s.ledger[x := ps + [p]];
    var t := Set(s, i, Held, ledger);
    AppendWellKept(s.ledger, x, p);
    hide WellKept;
    forall id, q | q in Payments(ledger, id)
      ensures HeldBy(t.sessions, id, q)
    {
      if id == x && q == p {
        assert Holds(t.sessions[i], id, q);
      } else {
        assert q in Payments(s.ledger, id);
        var j :| 0 <= j < |s.sessions| && Holds(s.sessions[j], id, q);
        assert Holds(t.sessions[j], id, q);
      }
    }
    forall j | 0 <= j < |t.sessions|
      ensures Recorded(k, ledger, t.sessions[j])
    {
      assert Recorded(k, s.ledger, s.sessions[j]);
    }
    forall j, l | 0 <= j < l < |t.sessions|
      ensures Apart(t.sessions[j], t.sessions[l])
    {
      assert Apart(s.sessions[j], s.sessions[l]);
      assert Recorded(k, s.ledger, s.sessions[j]) && Recorded(k, s.ledger, s.sessions[l]);
    }
  }

  lemma ReserveConserved(k: Crypto, s: State, i: nat)
    requires i < |s.sessions| && Conserved(k, s) && s.sessions[i].phase == Waiting
    requires var o := s.sessions[i].options;
             && Precheck(k, o) == None && IsMoney(o.payment.amountMinor) && IsPositive(o.intent.constraints.maxTotalMinor)
             && Sum(Payments(s.ledger, o.intent.id)) + o.payment.amountMinor.n <= o.intent.constraints.maxTotalMinor.n
    requires forall j | 0 <= j < |s.sessions| :: Agree(k, s.sessions[i].options, s.sessions[j].options)
    ensures var o := s.sessions[i].options;
            Conserved(k, Set(s, i, Held, s.ledger[o.intent.id := Payments(s.ledger, o.intent.id) + [Reserving(o)]]))
  {
    hide Precheck;
    var o := s.sessions[i].options;
    var x, p := o.intent.id, Reserving(o);
    var ps := Payments(s.ledger, x);
    var ledger := s.ledger[x := ps + [p]];
    var t := Set(s, i, Held, ledger);
    SumAppend(ps, p);
    hide Sum;
    forall j | 0 <= j < |t.sessions|
      ensures WithinCeiling(k, ledger, t.sessions[j])
    {
      assert WithinCeiling(k, s.ledger, s.sessions[j]);
      assert Agree(k, o, s.sessions[j].options);
    }
    forall id: string
      ensures Sum(Payments(ledger, id)) == Charged(t.sessions, id)
    {
      ChargedUpdate(s.sessions, i, t.sessions[i], id);
    }
  }

  /** Two mandates that pass the checks under one intent id state one ceiling. */
  predicate Agree(k: Crypto, a: Options, b: Options) {
    a.intent.id == b.intent.id && Precheck(k, a) == None && Precheck(k, b) == None ==>
      a.intent.constraints.maxTotalMinor == b.intent.constraints.maxTotalMinor
  }

  lemma PassedShape(k: Crypto, o: Options)
    requires Precheck(k, o) == None
    ensures Shape(o) && IsMoney(o.payment.amountMinor) && IsPositive(o.intent.constraints.maxTotalMinor)
  {
  }

  lemma AppendWellKept(ledger: Ledger, x: string, p: Payment)
    requires WellKept(ledger) && p.amount <= MAX_SAFE && !Has(Payments(ledger, x), p.id)
    ensures WellKept(ledger[x := Payments(ledger, x) + [p]])
  {
  }

  /** The step that gives a reservation back. */
  lemma ReleaseKept(k: Crypto, s: State, i: nat, phase: Phase)
    requires i < |s.sessions| && Matched(k, s) && Conserved(k, s) && s.sessions[i].phase == Held && phase.Refused?
    ensures var o := s.sessions[i].options;
            var t := Set(s, i, phase, Release(s.ledger, o.intent.id, o.payment.id));
            Matched(k, t) && Conserved(k, t)
  {
    hide Precheck;
    hide Conserved;
    var o := s.sessions[i].options;
    assert Recorded(k, s.ledger, s.sessions[i]);
    assert o.intent.id in s.ledger && Distinct(s.ledger[o.intent.id]);
    hide Matched;
    hide Remove;
    ReleaseMatched(k, s, i, phase);
    ReleaseConserved(k, s, i, phase);
  }

  lemma ReleaseMatched(k: Crypto, s: State, i: nat, phase: Phase)
    requires i < |s.sessions| && Matched(k, s) && s.sessions[i].phase == Held && phase.Refused?
    ensures var o := s.sessions[i].options;
            Matched(k, Set(s, i, phase, Release(s.ledger, o.intent.id, o.payment.id)))
  {
    hide Precheck;
    var o := s.sessions[i].options;
    assert Recorded(k, s.ledger, s.sessions[i]);
    var x, p := o.intent.id, Reserving(o);
    var ps := Payments(s.ledger, x);
    RemoveMembers(ps, p.id);
    hide Remove;
    var ledger := s.ledger[x := Remove(ps, p.id)];
    assert WellKept(ledger) && Release(s.ledger, x, p.id) == ledger;
    hide WellKept;
    var t := Set(s, i, phase, ledger);
    forall id, q | q in Payments(ledger, id)
      ensures HeldBy(t.sessions, id, q)
    {
      assert q in Payments(s.ledger, id);
      var j :| 0 <= j < |s.sessions| && Holds(s.sessions[j], id, q);
      assert Holds(t.sessions[j], id, q);
    }
    forall j | 0 <= j < |t.sessions|
      ensures Recorded(k, ledger, t.sessions[j])
    {
      assert Recorded(k, s.ledger, s.sessions[j]);
      assert j < i ==> Apart(s.sessions[j], s.sessions[i]);
      assert j > i ==> Apart(s.sessions[i], s.sessions[j]);
    }
    forall j, l | 0 <= j < l < |t.sessions|
      ensures Apart(t.sessions[j], t.sessions[l])
    {
      assert Apart(s.sessions[j], s.sessions[l]);
    }
  }

  lemma ReleaseConserved(k: Crypto, s: State, i: nat, phase: Phase)
    requires i < |s.sessions| && Conserved(k, s) && s.sessions[i].phase == Held && phase.Refused?
    requires Recorded(k, s.ledger, s.sessions[i]) && Distinct(Payments(s.ledger, s.sessions[i].options.intent.id))
    ensures var o := s.sessions[i].options;
            Conserved(k, Set(s, i, phase, Release(s.ledger, o.intent.id, o.payment.id)))
  {
    hide Precheck;
    hide Sum;
    hide Release;
    hide Payments;
    var o := s.sessions[i].options;
    var ledger := Release(s.ledger, o.intent.id, o.payment.id);
    var t := Set(s, i, phase, ledger);
    forall id: string
      ensures Sum(Payments(ledger, id)) == Sum(Payments(s.ledger, id)) - if id == o.intent.id then o.payment.amountMinor.n else 0
    {
      SumReleased(s.ledger, o, id);
    }
    forall j | 0 <= j < |t.sessions|
      ensures WithinCeiling(k, ledger, t.sessions[j])
    {
      assert WithinCeiling(k, s.ledger, s.sessions[j]);
    }
    forall id: string
      ensures Sum(Payments(ledger, id)) == Charged(t.sessions, id)
    {
      ChargedUpdate(s.sessions, i, t.sessions[i], id);
    }
  }

  lemma SumReleased(ledger: Ledger, o: Options, id: string)
    requires IsMoney(o.payment.amountMinor) && Reserving(o) in Payments(ledger, o.intent.id) && Distinct(Payments(ledger, o.intent.id))
    ensures Sum(Payments(Release(ledger, o.intent.id, o.payment.id), id))
            == Sum(Payments(ledger, id)) - if id == o.intent.id then o.payment.amountMinor.n else 0
  {
    SumRemove(Payments(ledger, o.intent.id), Reserving(o));
    hide Sum;
    hide Remove;
  }

  lemma BeginStill(k: Crypto, ledger: Ledger, o: Options, id: string)
    requires WellKept(ledger) && Begin(k, ledger, o).0 != Held
    ensures var (phase, after) := Begin(k, ledger, o);
            (phase.Refused? || phase == Threw) && WellKept(after) && SamePayments(ledger, after, id)
  {
    hide Precheck;
  }

  /** Every step keeps reservations matched with sessions and money conserved. */
  lemma StepKeeps(k: Crypto, s: State, step: Step)
    requires Matched(k, s) && Conserved(k, s)
    requires forall i, j | 0 <= i < |s.sessions| && 0 <= j < |s.sessions| :: Agree(k, s.sessions[i].options, s.sessions[j].options)
    ensures Matched(k, Take(k, s, step)) && Conserved(k, Take(k, s, step))
  {
    hide Matched;
    hide Conserved;
    hide Precheck;
    if step.i < |s.sessions| {
      var x, i := s.sessions[step.i], step.i;
      assert WellKept(s.ledger) by { MatchedLedger(k, s); }
      if step.Start? && x.phase == Waiting {
        var (phase, ledger) := Begin(k, s.ledger, x.options);
        if phase == Held {
          ReserveKept(k, s, i);
        } else {
          forall id
            ensures SamePayments(s.ledger, ledger, id)
          {
            BeginStill(k, s.ledger, x.options, id);
          }
          BeginStill(k, s.ledger, x.options, "");
          StillKept(k, s, i, phase, ledger);
        }
      } else if step.Finish? && x.phase == Held && Shape(x.options) {
        var (phase, ledger) := Conclude(s.ledger, x.options, step.approval);
        if phase == Accepted || phase == Leaked {
          StillKept(k, s, i, phase, ledger);
        } else {
          ReleaseKept(k, s, i, phase);
        }
      } else if step.Abort? && x.phase == Waiting {
        StillKept(k, s, i, Threw, s.ledger);
      }
    }
  }

  lemma MatchedLedger(k: Crypto, s: State)
    requires Matched(k, s)
    ensures WellKept(s.ledger)
  {
  }

  // ---------------------------------------------------------------------------
  // Every run
  // ---------------------------------------------------------------------------

  lemma TakePresents(k: Crypto, s: State, step: Step, os: seq<Options>)
    requires Presents(s, os)
    ensures Presents(Take(k, s, step), os)
  {
    hide Precheck;
  }

  lemma {:induction false} RunPresents(k: Crypto, os: seq<Options>, steps: seq<Step>)
    ensures Presents(Run(k, Initial(os), steps), os)
    decreases |steps|
  {
    hide Take;
    if steps != [] {
      RunPresents(k, os, steps[..|steps| - 1]);
      TakePresents(k, Run(k, Initial(os), steps[..|steps| - 1]), steps[|steps| - 1], os);
    }
  }

  lemma {:induction false} ChargedNothing(xs: seq<Session>, id: string)
    requires forall x | x in xs :: x.phase == Waiting
    ensures Charged(xs, id) == 0
  {
    if xs != [] {
      ChargedNothing(xs[..|xs| - 1], id);
    }
  }

  lemma InitialKept(k: Crypto, os: seq<Options>)
    ensures Matched(k, Initial(os)) && Conserved(k, Initial(os)) && Presents(Initial(os), os)
  {
    hide Precheck;
    var s := Initial(os);
    forall id: string
      ensures Sum(Payments(s.ledger, id)) == Charged(s.sessions, id)
    {
      ChargedNothing(s.sessions, id);
    }
    forall i | 0 <= i < |s.sessions|
      ensures WithinCeiling(k, s.ledger, s.sessions[i])
    {
      if Precheck(k, s.sessions[i].options) == None {
        PassedShape(k, s.sessions[i].options);
      }
    }
  }

  lemma AgreeAll(k: Crypto, s: State, os: seq<Options>)
    requires OneCeiling(k, os) && Presents(s, os)
    ensures forall i, j | 0 <= i < |s.sessions| && 0 <= j < |s.sessions| :: Agree(k, s.sessions[i].options, s.sessions[j].options)
  {
    hide Precheck;
    forall i, j | 0 <= i < |s.sessions| && 0 <= j < |s.sessions|
      ensures Agree(k, s.sessions[i].options, s.sessions[j].options)
    {
      assert os[i] in os && os[j] in os;
    }
  }

  /** In every reachable state of every interleaving the sum reserved under an intent is at most its ceiling
      and equals what the calls hold, reservation by reservation. */
  lemma {:induction false} RunKeeps(k: Crypto, os: seq<Options>, steps: seq<Step>)
    requires OneCeiling(k, os)
    ensures var s := Run(k, Initial(os), steps);
            Matched(k, s) && Conserved(k, s) && Presents(s, os)
    decreases |steps|
  {
    hide Matched;
    hide Conserved;
    hide OneCeiling;
    hide Take;
    if steps == [] {
      InitialKept(k, os);
    } else {
      var before := Run(k, Initial(os), steps[..|steps| - 1]);
      RunKeeps(k, os, steps[..|steps| - 1]);
      AgreeAll(k, before, os);
      StepKeeps(k, before, steps[|steps| - 1]);
      TakePresents(k, before, steps[|steps| - 1], os);
    }
  }

  /** A payment id is charged at most once per intent: no two calls that returned ok share both. */
  lemma ChargedAtMostOnce(k: Crypto, os: seq<Options>, steps: seq<Step>, i: nat, j: nat)
    requires OneCeiling(k, os)
    requires i < |Run(k, Initial(os), steps).sessions| && j < |Run(k, Initial(os), steps).sessions| && i != j
    requires Run(k, Initial(os), steps).sessions[i].phase == Accepted && Run(k, Initial(os), steps).sessions[j].phase == Accepted
    ensures i < |os| && j < |os| && !SameCharge(os[i], os[j])
  {
    RunKeeps(k, os, steps);
    var s := Run(k, Initial(os), steps);
    hide Run;
    if i < j {
      assert Apart(s.sessions[i], s.sessions[j]);
    } else {
      assert Apart(s.sessions[j], s.sessions[i]);
    }
  }

  predicate Done(x: Session) { x.phase != Waiting && x.phase != Held }

  /** The ledger holds the payments of the calls that returned ok, and no others. */
  ghost predicate HoldsOkPayments(s: State) {
    forall id, p :: p in Payments(s.ledger, id) <==> Paid(s.sessions, id, p)
  }

  predicate Paid(xs: seq<Session>, id: string, p: Payment) {
    exists i | 0 <= i < |xs| :: xs[i].phase == Accepted && Holds(xs[i], id, p)
  }

  /** The step at which `verifyApproval` throws for a call that holds money. */
  predicate Leaks(s: State, step: Step) {
    && step.Finish? && step.i < |s.sessions|
    && var x := s.sessions[step.i]; x.phase == Held && Shape(x.options) && ApprovalThrows(x.options, step.approval)
  }

  /** Some step of the run leaks. */
  predicate SomeLeaks(k: Crypto, s: State, steps: seq<Step>) {
    exists n | 0 <= n < |steps| :: Leaks(Run(k, s, steps[..n]), steps[n])
  }

  predicate AnyLeaked(s: State) { exists x | x in s.sessions :: x.phase == Leaked }

  lemma TakeLeaks(k: Crypto, s: State, step: Step)
    ensures AnyLeaked(Take(k, s, step)) <==> AnyLeaked(s) || Leaks(s, step)
  {
    hide Precheck;
    hide Reserve;
    hide Release;
    var t := Take(k, s, step);
    if AnyLeaked(s) {
      var i :| 0 <= i < |s.sessions| && s.sessions[i].phase == Leaked;
      assert t.sessions[i] in t.sessions;
    }
    if Leaks(s, step) {
      assert t.sessions[step.i] in t.sessions;
    }
    if AnyLeaked(t) {
      var i :| 0 <= i < |t.sessions| && t.sessions[i].phase == Leaked;
      assert s.sessions[i] in s.sessions;
    }
  }

  lemma {:induction false} LeakedExactly(k: Crypto, s: State, steps: seq<Step>)
    ensures AnyLeaked(Run(k, s, steps)) <==> AnyLeaked(s) || SomeLeaks(k, s, steps)
    decreases |steps|
  {
    hide Take;
    hide Leaks;
    hide AnyLeaked;
    if steps != [] {
      var n := |steps| - 1;
      var init := steps[..n];
      LeakedExactly(k, s, init);
      TakeLeaks(k, Run(k, s, init), steps[n]);
      assert forall m | 0 <= m < n :: init[..m] == steps[..m] && init[m] == steps[m];
      SomeLeaksLast(k, s, steps);
    }
  }

  lemma SomeLeaksLast(k: Crypto, s: State, steps: seq<Step>)
    requires steps != []
    ensures var n := |steps| - 1;
            SomeLeaks(k, s, steps) <==> SomeLeaks(k, s, steps[..n]) || Leaks(Run(k, s, steps[..n]), steps[n])
  {
    hide Take;
    hide Leaks;
    hide Run;
    var n := |steps| - 1;
    var init := steps[..n];
    assert forall m | 0 <= m < n :: init[..m] == steps[..m] && init[m] == steps[m];
    if SomeLeaks(k, s, init) {
      var m :| 0 <= m < n && Leaks(Run(k, s, init[..m]), init[m]);
      assert Leaks(Run(k, s, steps[..m]), steps[m]);
    }
  }

  /** Once every call has finished, the ledger holds exactly the payments that returned ok if and only if at no step
      `verifyApproval` threw for a call that held money. */
  lemma LedgerIsOkPaymentsExactly(k: Crypto, os: seq<Options>, steps: seq<Step>)
    requires OneCeiling(k, os)
    requires forall x | x in Run(k, Initial(os), steps).sessions :: Done(x)
    ensures HoldsOkPayments(Run(k, Initial(os), steps)) <==> !SomeLeaks(k, Initial(os), steps)
  {
    RunKeeps(k, os, steps);
    LeakedExactly(k, Initial(os), steps);
    var s := Run(k, Initial(os), steps);
    hide Run;
    hide SomeLeaks;
    hide HoldsOkPayments;
    if AnyLeaked(s) {
      var x :| x in s.sessions && x.phase == Leaked;
      LeakHoldsMore(k, s, x);
    } else {
      NoLeakHoldsOk(k, s);
    }
  }

  lemma NoLeakHoldsOk(k: Crypto, s: State)
    requires Matched(k, s) && forall x | x in s.sessions :: Done(x) && x.phase != Leaked
    ensures HoldsOkPayments(s)
  {
    hide Precheck;
    hide WellKept;
    forall id, p
      ensures p in Payments(s.ledger, id) <==> Paid(s.sessions, id, p)
    {
      if p in Payments(s.ledger, id) {
        var i :| 0 <= i < |s.sessions| && Holds(s.sessions[i], id, p);
        assert s.sessions[i] in s.sessions;
      }
      if i :| 0 <= i < |s.sessions| && s.sessions[i].phase == Accepted && Holds(s.sessions[i], id, p) {
        assert Recorded(k, s.ledger, s.sessions[i]);
      }
    }
  }

  /** What a leaking call holds, no other call does. */
  lemma LeakHoldsMore(k: Crypto, s: State, x: Session)
    requires Matched(k, s) && x in s.sessions && x.phase == Leaked
    ensures !HoldsOkPayments(s)
  {
    hide Precheck;
    hide WellKept;
    var i :| 0 <= i < |s.sessions| && s.sessions[i] == x;
    assert Recorded(k, s.ledger, s.sessions[i]);
    var id, p := x.options.intent.id, Reserving(x.options);
    forall j | 0 <= j < |s.sessions| && s.sessions[j].phase == Accepted
      ensures !Holds(s.sessions[j], id, p)
    {
      assert if i < j then Apart(s.sessions[i], s.sessions[j]) else Apart(s.sessions[j], s.sessions[i]);
    }
    assert p in Payments(s.ledger, id) && !Paid(s.sessions, id, p);
  }

  // ---------------------------------------------------------------------------
  // Which calls leak, and for how long
  // ---------------------------------------------------------------------------

  /** The call needs an approval, has a grant for it, and allows no approver. */
  predicate Trapped(o: Options) { Shape(o) && NeedsApproval(o) && o.hasGrant && o.allowedApprovers == [] }

  /** Some state of the run has the i-th call holding its reservation. */
  predicate GotReservation(k: Crypto, os: seq<Options>, steps: seq<Step>, i: nat)
    requires i < |os|
  {
    exists n | 0 <= n <= |steps| :: HeldAt(Run(k, Initial(os), steps[..n]), i)
  }

  predicate HeldAt(s: State, i: nat) { i < |s.sessions| && s.sessions[i].phase == Held }

  predicate NoCallbackThrows(steps: seq<Step>) { forall st | st in steps :: st.Finish? ==> st.approval != Throws }

  /** When no callback throws, the ledger ends up with exactly the payments that returned ok if and only if no call
      that got its reservation needed an approval, had a grant and allowed no approver. */
  lemma EmptyApproversExactly(k: Crypto, os: seq<Options>, steps: seq<Step>)
    requires OneCeiling(k, os) && NoCallbackThrows(steps)
    requires forall x | x in Run(k, Initial(os), steps).sessions :: Done(x)
    ensures HoldsOkPayments(Run(k, Initial(os), steps))
            <==> forall i | 0 <= i < |os| && GotReservation(k, os, steps, i) :: !Trapped(os[i])
  {
    hide HoldsOkPayments;
    hide Trapped;
    hide GotReservation;
    hide Run;
    LedgerIsOkPaymentsExactly(k, os, steps);
    var s0 := Initial(os);
    if SomeLeaks(k, s0, steps) {
      var n :| 0 <= n < |steps| && Leaks(Run(k, s0, steps[..n]), steps[n]);
      LeakIsTrapped(k, os, steps, n);
    }
    if i :| 0 <= i < |os| && GotReservation(k, os, steps, i) && Trapped(os[i]) {
      TrappedLeaks(k, os, steps, i);
    }
  }

  /** A call that leaks without a callback that throws held a reservation and is trapped. */
  lemma LeakIsTrapped(k: Crypto, os: seq<Options>, steps: seq<Step>, n: nat)
    requires NoCallbackThrows(steps) && n < |steps| && Leaks(Run(k, Initial(os), steps[..n]), steps[n])
    ensures var i := steps[n].i;
            i < |os| && os[i] in os && GotReservation(k, os, steps, i) && Trapped(os[i])
  {
    hide NeedsApproval;
    hide Shape;
    RunPresents(k, os, steps[..n]);
    hide Run;
    assert steps[n] in steps;
    assert HeldAt(Run(k, Initial(os), steps[..n]), steps[n].i);
  }

  /** A trapped call that got its reservation and has finished has leaked. */
  lemma TrappedLeaks(k: Crypto, os: seq<Options>, steps: seq<Step>, i: nat)
    requires i < |os| && GotReservation(k, os, steps, i) && Trapped(os[i])
    requires forall x | x in Run(k, Initial(os), steps).sessions :: Done(x)
    ensures SomeLeaks(k, Initial(os), steps)
  {
    hide Trapped;
    hide SomeLeaks;
    var s0 := Initial(os);
    var n :| 0 <= n <= |steps| && HeldAt(Run(k, s0, steps[..n]), i);
    RunPresents(k, os, steps[..n]);
    RunSplit(k, s0, steps, n);
    LeakedExactly(k, s0, steps);
    hide Run;
    TrappedStays(k, Run(k, s0, steps[..n]), steps[n..], i);
    var t := Run(k, s0, steps);
    assert t.sessions[i] in t.sessions;
    assert AnyLeaked(t);
  }

  lemma {:induction false} RunSplit(k: Crypto, s: State, steps: seq<Step>, n: nat)
    requires n <= |steps|
    ensures Run(k, s, steps) == Run(k, Run(k, s, steps[..n]), steps[n..])
    decreases |steps|
  {
    hide Take;
    if n == |steps| {
      assert steps[..n] == steps;
    } else {
      var init := steps[..|steps| - 1];
      RunSplit(k, s, init, n);
      assert init[..n] == steps[..n] && init[n..] == steps[n..][..|steps| - 1 - n];
    }
  }

  /** A trapped call that holds a reservation holds it until it leaks, and then for good. */
  lemma {:induction false} TrappedStays(k: Crypto, s: State, steps: seq<Step>, i: nat)
    requires i < |s.sessions| && Trapped(s.sessions[i].options) && (s.sessions[i].phase == Held || s.sessions[i].phase == Leaked)
    ensures var t := Run(k, s, steps);
            i < |t.sessions| && Trapped(t.sessions[i].options) && (t.sessions[i].phase == Held || t.sessions[i].phase == Leaked)
    decreases |steps|
  {
    hide Precheck;
    hide Shape;
    hide NeedsApproval;
    hide Begin;
    if steps != [] {
      TrappedStays(k, s, steps[..|steps| - 1], i);
    }
  }

  lemma {:induction false} LeakedStays(k: Crypto, s: State, steps: seq<Step>, i: nat)
    requires i < |s.sessions| && s.sessions[i].phase == Leaked
    ensures i < |Run(k, s, steps).sessions| && Run(k, s, steps).sessions[i] == s.sessions[i]
    decreases |steps|
  {
    hide Precheck;
    if steps != [] {
      LeakedStays(k, s, steps[..|steps| - 1], i);
    }
  }

  /** A leak is for good: whatever steps follow, the payment stays charged, and no other call with the same intent and
      payment id holds money or returns ok. */
  lemma LeakIsForever(k: Crypto, os: seq<Options>, steps: seq<Step>, later: seq<Step>, i: nat)
    requires OneCeiling(k, os) && i < |os| && IsMoney(os[i].payment.amountMinor)
    requires var s := Run(k, Initial(os), steps); i < |s.sessions| && s.sessions[i].phase == Leaked
    ensures var s := Run(k, Initial(os), steps + later);
            && Presents(s, os) && s.sessions[i].phase == Leaked
            && Reserving(os[i]) in Payments(s.ledger, os[i].intent.id) && !HoldsOkPayments(s)
            && forall j | 0 <= j < |os| && j != i && SameCharge(os[j], os[i]) :: !Holding(s.sessions[j])
  {
    var all := steps + later;
    assert all[..|steps|] == steps && all[|steps|..] == later;
    RunSplit(k, Initial(os), all, |steps|);
    LeakedStays(k, Run(k, Initial(os), steps), later, i);
    RunKeeps(k, os, all);
    var s := Run(k, Initial(os), all);
    hide Run;
    hide Precheck;
    hide HoldsOkPayments;
    LeakHoldsMore(k, s, s.sessions[i]);
    assert Recorded(k, s.ledger, s.sessions[i]);
    forall j | 0 <= j < |os| && j != i && SameCharge(os[j], os[i])
      ensures !Holding(s.sessions[j])
    {
      assert if i < j then Apart(s.sessions[i], s.sessions[j]) else Apart(s.sessions[j], s.sessions[i]);
    }
  }

  /** It happens: a call that passes every check, needs an approval, has a grant and allows no approver throws after its
      reservation. Whatever steps follow, its payment stays charged, and no call for it is ever ok. */
  lemma EmptyApproversLeak(k: Crypto, os: seq<Options>, i: nat, approval: Approval, later: seq<Step>)
    requires OneCeiling(k, os) && i < |os| && Precheck(k, os[i]) == None && Trapped(os[i])
    ensures var s := Run(k, Initial(os), [Start(i), Finish(i, approval)] + later);
            && Presents(s, os) && s.sessions[i].phase == Leaked
            && Reserving(os[i]) in Payments(s.ledger, os[i].intent.id) && !HoldsOkPayments(s)
            && forall j | 0 <= j < |os| && SameCharge(os[j], os[i]) :: s.sessions[j].phase != Accepted
  {
    hide Precheck;
    hide Shape;
    hide OneCeiling;
    hide HoldsOkPayments;
    hide Trapped;
    hide Run;
    hide SameCharge;
    hide Payments;
    PassedShape(k, os[i]);
    FirstLeaks(k, os, i, approval);
    LeakIsForever(k, os, [Start(i), Finish(i, approval)], later, i);
  }

  lemma FirstLeaks(k: Crypto, os: seq<Options>, i: nat, approval: Approval)
    requires i < |os| && Precheck(k, os[i]) == None && Trapped(os[i])
    ensures var s := Run(k, Initial(os), [Start(i), Finish(i, approval)]);
            i < |s.sessions| && s.sessions[i].phase == Leaked
  {
    var o, s0 := os[i], Initial(os);
    PassedShape(k, o);
    PassedCeiling(k, o);
    hide Precheck;
    hide Shape;
    hide NeedsApproval;
    BeginEmpty(k, o);
    hide Begin;
    var ledger: Ledger := map[o.intent.id := [Reserving(o)]];
    var s1 := Set(s0, i, Held, ledger);
    assert s0.sessions[i] == Session(o, Waiting);
    assert Take(k, s0, Start(i)) == s1;
    assert Take(k, s1, Finish(i, approval)) == Set(s1, i, Leaked, ledger);
    TwoSteps(k, s0, Start(i), Finish(i, approval));
  }

  lemma TwoSteps(k: Crypto, s: State, a: Step, b: Step)
    ensures Run(k, s, [a, b]) == Take(k, Take(k, s, a), b)
  {
    hide Take;
    assert [a, b][..1] == [a] && [a][..0] == [];
    assert Run(k, s, []) == s && Run(k, s, [a]) == Take(k, s, a);
  }

  lemma PassedCeiling(k: Crypto, o: Options)
    requires Precheck(k, o) == None && Shape(o)
    ensures o.payment.amountMinor.n <= o.intent.constraints.maxTotalMinor.n
  {
  }

  lemma BeginEmpty(k: Crypto, o: Options)
    requires Precheck(k, o) == None && IsMoney(o.payment.amountMinor) && IsPositive(o.intent.constraints.maxTotalMinor)
    requires o.payment.amountMinor.n <= o.intent.constraints.maxTotalMinor.n
    ensures Begin(k, map[], o) == (Held, map[o.intent.id := [Reserving(o)]])
  {
    hide Precheck;
    var none: Ledger := map[];
    assert Payments(none, o.intent.id) == [] && [] + [Reserving(o)] == [Reserving(o)];
    assert none[o.intent.id := [Reserving(o)]] == map[o.intent.id := [Reserving(o)]];
  }

  /** When no callback throws and no call is trapped, nothing leaks, finished or not. */
  lemma NoThrowNoLeak(k: Crypto, os: seq<Options>, steps: seq<Step>)
    requires NoCallbackThrows(steps) && forall o | o in os :: !Trapped(o)
    ensures !AnyLeaked(Run(k, Initial(os), steps))
  {
    hide Trapped;
    LeakedExactly(k, Initial(os), steps);
    hide Run;
    if SomeLeaks(k, Initial(os), steps) {
      var n :| 0 <= n < |steps| && Leaks(Run(k, Initial(os), steps[..n]), steps[n]);
      LeakIsTrapped(k, os, steps, n);
    }
  }
}
