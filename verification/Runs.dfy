/** The theorems over whole runs of the ledger operations. */
module Runs {
  import opened Wrappers
  import opened Ledger
  import opened Operations
  import opened Effects
  import opened Books

  // --- the software fee -------------------------------------------------------------------

  predicate PaidFor(charges: seq<Charge>, m: string, period: string) {
    var at := ChargeFor(charges, m, period);
    at.Some? && charges[at.value].status == Paid
  }

  function FeePostings(s: Store, m: string, period: string): nat {
    Count(s.entries, Tagged(FeeDebit, m, FeeTag(period)))
  }

  /** A shop's period has one fee posting when its charge is paid, and none otherwise. */
  ghost predicate FeesTally(s: Store) {
    forall m, period :: FeePostings(s, m, period) == if PaidFor(s.charges, m, period) then 1 else 0
  }

  lemma TagInjective(p: string, q: string)
    ensures FeeTag(p) == FeeTag(q) <==> p == q
  {
    assert FeeTag(p)[|"software-fee-"|..] == p && FeeTag(q)[|"software-fee-"|..] == q;
  }

  predicate ChargesFor(s: Store, op: Op, m: string, period: string) {
    op.ChargeFee? && TakesFee(s, op.input) && op.input.merchant == m && op.input.period == period
  }

  lemma FeeLinesTagged(s: Store, op: Op, m: string, period: string)
    ensures var ds, f := LinesOf(s, op), Tagged(FeeDebit, m, FeeTag(period));
            && LinesCount(ds, f) == If(ChargesFor(s, op, m, period), 1)
            && LinesTotal(ds, f) == -(if ChargesFor(s, op, m, period) then op.input.amount else 0)
  {
    LinesWeight(s, op, Tagged(FeeDebit, m, FeeTag(period)));
    if op.ChargeFee? {
      TagInjective(period, op.input.period);
    }
  }

  lemma FeeCountEffect(s: Store, op: Op, m: string, period: string)
    requires Valid(s) && Commits(s, op)
    ensures FeePostings(Next(s, op), m, period) == FeePostings(s, m, period) + If(ChargesFor(s, op, m, period), 1)
    ensures Total(Next(s, op).entries, Tagged(FeeDebit, m, FeeTag(period))) ==
            Total(s.entries, Tagged(FeeDebit, m, FeeTag(period))) - (if ChargesFor(s, op, m, period) then op.input.amount else 0)
  {
    TotalsStep(s, op, Tagged(FeeDebit, m, FeeTag(period)));
    FeeLinesTagged(s, op, m, period);
  }

  lemma ChargeIsUnique(charges: seq<Charge>, i: nat)
    requires ValidCharges(charges) && i < |charges|
    ensures ChargeFor(charges, charges[i].merchant, charges[i].period) == Some(i)
  {
  }

  /** A charge row keeps its shop, period and amount for ever, and its status once it is paid. */
  ghost predicate ChargesOnlyAdvance(before: seq<Charge>, after: seq<Charge>) {
    && |before| <= |after|
    && forall i :: 0 <= i < |before| ==>
         && after[i].merchant == before[i].merchant && after[i].period == before[i].period
         && after[i].amount == before[i].amount && after[i].id == before[i].id
         && (before[i].status != Arrears ==> after[i] == before[i])
  }

  lemma ChargeStep(s: Store, op: Op)
    requires Valid(s)
    ensures ChargesOnlyAdvance(s.charges, Next(s, op).charges)
  {
    if Commits(s, op) {
      CommitCharges(s, op);
    }
  }

  lemma FeeRowEffect(charges: seq<Charge>, f: FeeInput, m: string, period: string)
    requires ValidCharges(charges) && InsertPaid(charges, f).Success?
    requires !(ChargeFor(charges, f.merchant, f.period).Some? &&
               charges[ChargeFor(charges, f.merchant, f.period).value].status != Arrears)
    ensures var after := InsertPaid(charges, f).value;
            PaidFor(after, m, period) <==> PaidFor(charges, m, period) || (f.merchant == m && f.period == period)
  {
    var after := InsertPaid(charges, f).value;
    var at := ChargeFor(charges, m, period);
    var j := ChargeFor(after, m, period);
    assert f.merchant == m && f.period == period ==> j.Some? by {
      var k := ChargeFor(charges, f.merchant, f.period);
      assert after[if k.Some? then k.value else |charges|].merchant == f.merchant;
    }
    assert at.Some? ==> after[at.value].merchant == m && after[at.value].period == period;
  }

  lemma ArrearsRowEffect(charges: seq<Charge>, f: FeeInput, m: string, period: string)
    requires ValidCharges(charges) && InsertArrears(charges, f).Success?
    ensures PaidFor(InsertArrears(charges, f).value, m, period) <==> PaidFor(charges, m, period)
  {
    var after := InsertArrears(charges, f).value;
    var at := ChargeFor(charges, m, period);
    assert at.Some? ==> after[at.value] == charges[at.value];
  }

  lemma WaivedRowEffect(charges: seq<Charge>, shop: string, due: string, reason: string, m: string, period: string)
    requires ValidCharges(charges)
    ensures PaidFor(Waive(charges, shop, due, reason), m, period) <==> PaidFor(charges, m, period)
  {
    var after := Waive(charges, shop, due, reason);
    var at, j := ChargeFor(charges, m, period), ChargeFor(after, m, period);
    assert at.Some? ==> after[at.value].merchant == m && after[at.value].period == period;
    assert j.Some? ==> charges[j.value].merchant == m && charges[j.value].period == period;
  }

  lemma PaidEffect(s: Store, op: Op, m: string, period: string)
    requires Valid(s) && Commits(s, op)
    ensures PaidFor(Next(s, op).charges, m, period) <==> PaidFor(s.charges, m, period) || ChargesFor(s, op, m, period)
    ensures ChargesFor(s, op, m, period) ==> !PaidFor(s.charges, m, period)
  {
    CommitCharges(s, op);
    if op.ChargeFee? && TakesFee(s, op.input) {
      FeeRowEffect(s.charges, op.input, m, period);
    } else if op.ChargeFee? && !FeeClosed(s, op.input) {
      ArrearsRowEffect(s.charges, op.input, m, period);
    } else if op.WaiveFee? {
      WaivedRowEffect(s.charges, op.merchant, op.period, op.reason, m, period);
    }
  }

  lemma FeesStayTallied(s: Store, op: Op)
    requires Valid(s) && FeesTally(s)
    ensures FeesTally(Next(s, op))
  {
    if Commits(s, op) {
      forall m, period
        ensures FeePostings(Next(s, op), m, period) == if PaidFor(Next(s, op).charges, m, period) then 1 else 0
      {
        FeeCountEffect(s, op, m, period);
        PaidEffect(s, op, m, period);
      }
    }
  }

  /** The amount a paid charge records is the amount that was taken for it. */
  ghost predicate PaidAmountsPosted(s: Store) {
    forall i :: 0 <= i < |s.charges| && s.charges[i].status == Paid ==> PaidAmountPosted(s, i)
  }

  ghost predicate PaidAmountPosted(s: Store, i: nat)
    requires i < |s.charges|
  {
    Total(s.entries, Tagged(FeeDebit, s.charges[i].merchant, FeeTag(s.charges[i].period))) == -s.charges[i].amount
  }

  /** Collecting arrears for the amount that was recorded as due. */
  predicate CollectsWhatIsDue(s: Store, op: Op) {
    op.ChargeFee? && TakesFee(s, op.input) ==>
      var at := ChargeFor(s.charges, op.input.merchant, op.input.period);
      at.Some? ==> s.charges[at.value].amount == op.input.amount
  }

  /** Nothing was taken for a period whose charge is not paid. */
  ghost predicate UnpaidPostNothing(s: Store) {
    forall m, period :: !PaidFor(s.charges, m, period) ==> Total(s.entries, Tagged(FeeDebit, m, FeeTag(period))) == 0
  }

  lemma PaidRowEffect(s: Store, op: Op, i: nat)
    requires Valid(s) && PaidAmountsPosted(s) && UnpaidPostNothing(s) && Commits(s, op)
    requires i < |Next(s, op).charges| && Next(s, op).charges[i].status == Paid
    ensures var c := Next(s, op).charges[i];
            PaidAmountPosted(Next(s, op), i) <==> !ChargesFor(s, op, c.merchant, c.period) || c.amount == op.input.amount
  {
    var c := Next(s, op).charges[i];
    ValidIsKept(s, op);
    ChargeStep(s, op);
    ChargeIsUnique(Next(s, op).charges, i);
    PaidEffect(s, op, c.merchant, c.period);
    FeeCountEffect(s, op, c.merchant, c.period);
    if !ChargesFor(s, op, c.merchant, c.period) {
      var at := ChargeFor(s.charges, c.merchant, c.period).value;
      ChargeIsUnique(Next(s, op).charges, at);
      assert PaidAmountPosted(s, at);
    }
  }

  lemma UnpaidStaysEmpty(s: Store, op: Op)
    requires Valid(s) && UnpaidPostNothing(s)
    ensures UnpaidPostNothing(Next(s, op))
  {
    if Commits(s, op) {
      forall m, period | !PaidFor(Next(s, op).charges, m, period)
        ensures Total(Next(s, op).entries, Tagged(FeeDebit, m, FeeTag(period))) == 0
      {
        FeeCountEffect(s, op, m, period);
        PaidEffect(s, op, m, period);
      }
    }
  }

  lemma OtherPaidRows(s: Store, op: Op, i: nat)
    requires Valid(s) && PaidAmountsPosted(s) && UnpaidPostNothing(s) && Commits(s, op)
    requires i < |Next(s, op).charges| && Next(s, op).charges[i].status == Paid
    requires op.ChargeFee? && TakesFee(s, op.input) ==> ChargeFor(Next(s, op).charges, op.input.merchant, op.input.period) != Some(i)
    ensures PaidAmountPosted(Next(s, op), i)
  {
    ValidIsKept(s, op);
    ChargeIsUnique(Next(s, op).charges, i);
    PaidRowEffect(s, op, i);
  }

  lemma FeeJustTaken(s: Store, f: FeeInput)
    requires Valid(s) && PaidAmountsPosted(s) && UnpaidPostNothing(s) && Commits(s, ChargeFee(f)) && TakesFee(s, f)
    ensures var t := Next(s, ChargeFee(f));
            var j := ChargeFor(t.charges, f.merchant, f.period);
            && j.Some? && t.charges[j.value].status == Paid
            && (PaidAmountPosted(t, j.value) <==> CollectsWhatIsDue(s, ChargeFee(f)))
  {
    var op := ChargeFee(f);
    var t := Next(s, op);
    ValidIsKept(s, op);
    ChargeStep(s, op);
    CommitCharges(s, op);
    PaidEffect(s, op, f.merchant, f.period);
    PaidRowEffect(s, op, ChargeFor(t.charges, f.merchant, f.period).value);
    var at := ChargeFor(s.charges, f.merchant, f.period);
    if at.Some? {
      ChargeIsUnique(t.charges, at.value);
    }
  }

  /**
   * An ARREARS row keeps the amount first recorded, whatever is later collected, so the charges table
   * goes on telling what was taken exactly while arrears are collected at the recorded amount.
   */
  lemma PaidAmountsExactly(s: Store, op: Op)
    requires Valid(s) && PaidAmountsPosted(s) && UnpaidPostNothing(s)
    ensures UnpaidPostNothing(Next(s, op))
    ensures PaidAmountsPosted(Next(s, op)) <==> (Commits(s, op) ==> CollectsWhatIsDue(s, op))
  {
    UnpaidStaysEmpty(s, op);
    if Commits(s, op) {
      var t := Next(s, op);
      if op.ChargeFee? && TakesFee(s, op.input) {
        FeeJustTaken(s, op.input);
      }
      forall i: nat | i < |t.charges| && t.charges[i].status == Paid
        ensures CollectsWhatIsDue(s, op) ==> PaidAmountPosted(t, i)
      {
        if !(op.ChargeFee? && TakesFee(s, op.input) &&
             ChargeFor(t.charges, op.input.merchant, op.input.period) == Some(i)) {
          OtherPaidRows(s, op, i);
        }
      }
    }
  }

  lemma ArrearsFirst(f: FeeInput)
    requires 0 < f.amount && |f.period| == 7
    ensures var s := Next(EMPTY, ChargeFee(f));
            && s == EMPTY.(charges := [Charge(f.id, f.merchant, f.period, f.amount, Arrears, None)])
            && Valid(s) && PaidAmountsPosted(s) && UnpaidPostNothing(s)
  {
    assert ChargeFor(EMPTY.charges, f.merchant, f.period) == None;
    assert !TakesFee(EMPTY, f);
    CommitsExactly(EMPTY, ChargeFee(f));
    CommitCharges(EMPTY, ChargeFee(f));
    PaidAmountsExactly(EMPTY, ChargeFee(f));
    ValidIsKept(EMPTY, ChargeFee(f));
  }

  lemma ArrearsRecorded(f: FeeInput, funded: int, p0: string)
    requires 0 < funded < f.amount && |f.period| == 7
    ensures var s := Next(Next(EMPTY, ChargeFee(f)), Fund(f.merchant, funded, p0));
            && Valid(s) && PaidAmountsPosted(s) && UnpaidPostNothing(s)
            && s.charges == [Charge(f.id, f.merchant, f.period, f.amount, Arrears, None)]
            && Available(s.entries, f.merchant) == funded
            && (forall p :: p != p0 ==> !PostingUsed(s.entries, p))
  {
    var s0 := Next(EMPTY, ChargeFee(f));
    var op := Fund(f.merchant, funded, p0);
    ArrearsFirst(f);
    CommitsExactly(s0, op);
    CommitAppends(s0, op);
    AvailableEffect(s0, op, f.merchant);
    PaidAmountsExactly(s0, op);
    ValidIsKept(s0, op);
  }

  /**
   * It happens, for every shop and period: a fee goes into arrears, the shop is funded for less than the fee,
   * and the period is charged again at a fee it can now pay. The charge is then paid, and its row still says the
   * first amount.
   */
  lemma ArrearsSettledForLess(f: FeeInput, lower: int, p0: string, p1: string)
    requires 0 < lower < f.amount && |f.period| == 7 && p1 != p0
    ensures var s1 := Next(Next(EMPTY, ChargeFee(f)), Fund(f.merchant, lower, p0));
            var again := ChargeFee(f.(amount := lower, postingId := p1));
            var s2 := Next(s1, again);
            && Commits(s1, again) && PaidFor(s2.charges, f.merchant, f.period)
            && !PaidAmountsPosted(s2)
  {
    var s1 := Next(Next(EMPTY, ChargeFee(f)), Fund(f.merchant, lower, p0));
    var again := f.(amount := lower, postingId := p1);
    ArrearsRecorded(f, lower, p0);
    assert s1.charges[0].merchant == f.merchant;
    CommitsExactly(s1, ChargeFee(again));
    PaidEffect(s1, ChargeFee(again), f.merchant, f.period);
    PaidAmountsExactly(s1, ChargeFee(again));
  }

  // --- every run, whatever the callers do -----------------------------------------------------

  /** The facts no call can break. */
  ghost predicate AlwaysSound(s: Store) {
    && Valid(s)
    && Total(s.entries, Everything) == 0
    && FeesTally(s)
  }

  lemma StepIsSound(s: Store, op: Op)
    requires AlwaysSound(s)
    ensures AlwaysSound(Next(s, op))
    ensures s.entries <= Next(s, op).entries
  {
    ValidIsKept(s, op);
    FeesStayTallied(s, op);
    if Commits(s, op) {
      CommitAppends(s, op);
      TotalsStep(s, op, Everything);
    }
  }

  lemma EmptyIsSound()
    ensures AlwaysSound(EMPTY) && Reconciled(EMPTY) && ResolvedOnce(EMPTY) && NoOverdraft(EMPTY)
    ensures PaidAmountsPosted(EMPTY) && UnpaidPostNothing(EMPTY)
  {
  }

  /**
   * Whatever calls are made, in whatever order and however often: the ledger sums to zero, entry keys
   * are distinct, earlier entries are a prefix of later ones, paid charges never change, and a shop's
   * period is charged at most once.
   */
  lemma {:induction false} EveryRunIsSound(s: Store, ops: seq<Op>)
    requires AlwaysSound(s)
    ensures AlwaysSound(Run(s, ops))
    ensures s.entries <= Run(s, ops).entries
    ensures ChargesOnlyAdvance(s.charges, Run(s, ops).charges)
    ensures forall m, period :: FeePostings(Run(s, ops), m, period) <= 1
    decreases |ops|
  {
    if ops != [] {
      StepIsSound(s, ops[0]);
      ChargeStep(s, ops[0]);
      EveryRunIsSound(Next(s, ops[0]), ops[1..]);
    }
  }

  // --- runs whose calls meet a condition --------------------------------------------------------

  /** Each call of the run meets the condition in the state it is made in, or is refused. */
  predicate Throughout(s: Store, ops: seq<Op>, p: (Store, Op) -> bool)
    decreases |ops|
  {
    ops == [] || ((Commits(s, ops[0]) ==> p(s, ops[0])) && Throughout(Next(s, ops[0]), ops[1..], p))
  }

  /**
   * A run keeps a merchant's two balance calculations equal, for every merchant, while each committed call
   * names the amount its row holds and reserves under a new id.
   */
  lemma {:induction false} RunReconciles(s: Store, ops: seq<Op>)
    requires Valid(s) && Reconciled(s) && Throughout(s, ops, Agrees)
    ensures Valid(Run(s, ops)) && Reconciled(Run(s, ops))
    ensures forall m :: var t := Run(s, ops); ComputeBalance(m, t.entries, t.reservations) == BalanceFor(t.entries, m)
    decreases |ops|
  {
    if ops == [] {
      forall m
        ensures ComputeBalance(m, s.entries, s.reservations) == BalanceFor(s.entries, m)
      {
        TwoCalculations(s, m);
      }
    } else {
      ValidIsKept(s, ops[0]);
      ReconcilesExactly(s, ops[0]);
      RunReconciles(Next(s, ops[0]), ops[1..]);
    }
  }

  /** However its resolutions are repeated and ordered, a sale leaves each held bucket at most once. */
  lemma {:induction false} RunResolvesOnce(s: Store, ops: seq<Op>)
    requires Valid(s) && ResolvedOnce(s) && Throughout(s, ops, NewReservation)
    ensures ResolvedOnce(Run(s, ops))
    ensures forall sale ::
              && Legs(Run(s, ops), MerchantReserved, Debit, sale) <= 1
              && Legs(Run(s, ops), MerchantUnderReview, Credit, sale) <= 1
              && Legs(Run(s, ops), MerchantUnderReview, Debit, sale) <= 1
    decreases |ops|
  {
    if ops == [] {
      forall sale
        ensures Legs(s, MerchantReserved, Debit, sale) <= 1
        ensures Legs(s, MerchantUnderReview, Credit, sale) <= 1
        ensures Legs(s, MerchantUnderReview, Debit, sale) <= 1
      {
        assert LegsMatch(s, sale, RowOf(s.reservations, sale));
      }
    } else {
      ValidIsKept(s, ops[0]);
      ResolvedOnceExactly(s, ops[0]);
      RunResolvesOnce(Next(s, ops[0]), ops[1..]);
    }
  }

  /** No merchant is ever overdrawn while each committed transfer is covered in the state it posts in. */
  lemma {:induction false} RunNeverOverdraws(s: Store, ops: seq<Op>)
    requires Valid(s) && NoOverdraft(s) && Throughout(s, ops, Covered)
    ensures NoOverdraft(Run(s, ops))
    decreases |ops|
  {
    if ops != [] {
      ValidIsKept(s, ops[0]);
      OverdraftExactly(s, ops[0]);
      RunNeverOverdraws(Next(s, ops[0]), ops[1..]);
    }
  }

  ghost predicate ProfitStands(s: Store) {
    forall m :: Net(s.entries, TelgaRevenue, m) >= 0
  }

  /** Moving profit into the balance, bounded by what there is to take. */
  predicate TakesWhatIsThere(s: Store, op: Op) {
    op.ProfitToBalance? ==> op.amount <= Net(s.entries, TelgaRevenue, op.merchant)
  }

  /** One call leaves every shop's profit standing exactly when it is refused or takes no more than there is. */
  lemma ProfitStepExactly(s: Store, op: Op)
    requires Valid(s) && ProfitStands(s)
    ensures ProfitStands(Next(s, op)) <==> (Commits(s, op) ==> TakesWhatIsThere(s, op))
  {
    forall m
      ensures Net(Next(s, op).entries, TelgaRevenue, m) >= 0 <==>
              !(Commits(s, op) && op.ProfitToBalance? && op.merchant == m && op.amount > Net(s.entries, TelgaRevenue, m))
    {
      assert Net(s.entries, TelgaRevenue, m) >= 0;
      ProfitExactly(s, op, m);
    }
    if Commits(s, op) && !TakesWhatIsThere(s, op) {
      assert !(Net(Next(s, op).entries, TelgaRevenue, op.merchant) >= 0);
    }
  }

  /** No shop's profit is ever overdrawn while each committed transfer to balance is bounded by it. */
  lemma {:induction false} RunKeepsProfit(s: Store, ops: seq<Op>)
    requires Valid(s) && ProfitStands(s) && Throughout(s, ops, TakesWhatIsThere)
    ensures ProfitStands(Run(s, ops))
    decreases |ops|
  {
    if ops != [] {
      ValidIsKept(s, ops[0]);
      ProfitStepExactly(s, ops[0]);
      RunKeepsProfit(Next(s, ops[0]), ops[1..]);
    }
  }

  // --- the conditions are needed ------------------------------------------------------------------

  lemma FundedState(m: string, amount: int, postingId: string)
    requires amount > 0
    ensures var s := Next(EMPTY, Fund(m, amount, postingId));
            && AlwaysSound(s) && Reconciled(s) && ResolvedOnce(s) && NoOverdraft(s)
            && Available(s.entries, m) == amount
            && s.reservations == [] && s.audits == [] && s.charges == []
            && (forall p :: p != postingId ==> !PostingUsed(s.entries, p))
  {
    var op := Fund(m, amount, postingId);
    EmptyIsSound();
    StepIsSound(EMPTY, op);
    CommitsExactly(EMPTY, op);
    CommitAppends(EMPTY, op);
    ReconcilesExactly(EMPTY, op);
    ResolvedOnceExactly(EMPTY, op);
    OverdraftExactly(EMPTY, op);
    AvailableEffect(EMPTY, op, m);
  }

  /** A first reservation out of a just-funded balance. */
  lemma FirstReservation(c: Context, funded: int, p0: string)
    requires 0 < c.amount <= funded && c.postingId != p0
    ensures var s1 := Next(EMPTY, Fund(c.merchant, funded, p0));
            var s2 := Next(s1, Reserve(c, None));
            && Commits(s1, Reserve(c, None))
            && Valid(s2) && Reconciled(s2) && ResolvedOnce(s2)
            && Available(s2.entries, c.merchant) == funded - c.amount
            && s2.reservations == [Reservation("res_" + c.transaction, c.merchant, c.transaction, c.amount, Held)]
            && (forall id :: id != c.auditId ==> !AuditTaken(s2.audits, id))
            && (forall p :: p != p0 && p != c.postingId ==> !PostingUsed(s2.entries, p))
  {
    var s1 := Next(EMPTY, Fund(c.merchant, funded, p0));
    var op := Reserve(c, None);
    FundedState(c.merchant, funded, p0);
    CommitsExactly(s1, op);
    CommitAppends(s1, op);
    AvailableEffect(s1, op, c.merchant);
    ReconcilesExactly(s1, op);
    ResolvedOnceExactly(s1, op);
    ValidIsKept(s1, op);
    CommitRows(s1, op);
    var s2 := Next(s1, op);
    assert s2.audits == [AuditEvent(c.auditId, BalanceReserved, c.merchant, c.transaction, "balance_reservation")];
    forall p | p != p0 && p != c.postingId
      ensures !PostingUsed(s2.entries, p)
    {
      assert !PostingUsed(s1.entries, p);
    }
  }

  /**
   * A reservation replayed under its default id, with fresh posting and audit ids, is not refused while
   * the balance lasts: saving the row is an upsert on the id, so the amount moves again while the one row
   * still says it once. For every shop, sale and amount.
   */
  lemma ReplayedReservationBreaksTheBooks(c: Context, again: Context, p0: string)
    requires c.amount > 0 && c.postingId != p0
    requires again == c.(postingId := again.postingId, auditId := again.auditId)
    requires again.postingId != p0 && again.postingId != c.postingId && again.auditId != c.auditId
    ensures var s2 := Next(Next(EMPTY, Fund(c.merchant, 2 * c.amount, p0)), Reserve(c, None));
            var s3 := Next(s2, Reserve(again, None));
            && Commits(s2, Reserve(again, None)) && !Reconciled(s3) && !ResolvedOnce(s3)
  {
    var s2 := Next(Next(EMPTY, Fund(c.merchant, 2 * c.amount, p0)), Reserve(c, None));
    var op := Reserve(again, None);
    FirstReservation(c, 2 * c.amount, p0);
    assert s2.reservations[0].id == ReservationId(again, None);
    CommitsExactly(s2, op);
    ReconcilesExactly(s2, op);
    ResolvedOnceExactly(s2, op);
  }
}
