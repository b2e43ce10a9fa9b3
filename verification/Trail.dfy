/** What the stored tables tell of the past: the audit trail, earnings, fee postings, and a call made again. */
module Trail {
  import opened Wrappers
  import opened Ledger
  import opened Operations
  import opened Effects
  import opened Books
  import opened Runs

  // --- the audit trail --------------------------------------------------------------------

  /** How many audit events of one action are about a sale. */
  function Told(audits: seq<AuditEvent>, action: AuditAction, sale: string): nat {
    if audits == [] then 0
    else
      var last := audits[|audits| - 1];
      Told(audits[..|audits| - 1], action, sale) + if last.action == action && last.transaction == sale then 1 else 0
  }

  /** For every sale, each movement of its held value has its one audit event, and no event lacks its movement. */
  ghost predicate AuditTells(s: Store) {
    forall sale :: AuditTellsOf(s, sale)
  }

  ghost predicate AuditTellsOf(s: Store, sale: string) {
    var a := s.audits;
    && Legs(s, MerchantReserved, Credit, sale) == Told(a, BalanceReserved, sale)
    && Legs(s, MerchantReserved, Debit, sale) ==
       Told(a, BalanceReleased, sale) + Told(a, LedgerPosted, sale) + Told(a, BalanceUnderReview, sale)
    && Legs(s, ProviderSettlement, Credit, sale) == Told(a, LedgerPosted, sale)
    && Legs(s, MerchantUnderReview, Credit, sale) == Told(a, BalanceUnderReview, sale)
    && Legs(s, MerchantUnderReview, Debit, sale) == Told(a, AdjustmentPosted, sale)
  }

  lemma ToldAfter(audits: seq<AuditEvent>, e: AuditEvent, action: AuditAction, sale: string)
    ensures Told(audits + [e], action, sale) ==
            Told(audits, action, sale) + if e.action == action && e.transaction == sale then 1 else 0
  {
    assert (audits + [e])[..|audits|] == audits;
  }

  lemma LegsAfter(s: Store, op: Op, kind: AccountKind, direction: Direction, sale: string)
    requires Valid(s) && Commits(s, op)
    ensures Legs(Next(s, op), kind, direction, sale) ==
            Legs(s, kind, direction, sale) + LinesCount(LinesOf(s, op), SaleLegs(kind, direction, sale))
  {
    TotalsStep(s, op, SaleLegs(kind, direction, sale));
  }

  lemma ProviderLegs(s: Store, op: Op, sale: string)
    ensures LinesCount(LinesOf(s, op), SaleLegs(ProviderSettlement, Credit, sale)) ==
            if op.Finalize? && op.ctx.transaction == sale then 1 else 0
  {
    LinesWeight(s, op, SaleLegs(ProviderSettlement, Credit, sale));
  }

  /** The audit event of a committed call about a sale. */
  function AuditOf(op: Op): AuditEvent
    requires op.Reserve? || Resolves(op)
  {
    var action := match op
      case Reserve(_, _) => BalanceReserved
      case Finalize(_, _, _) => LedgerPosted
      case MoveToReview(_) => BalanceUnderReview
      case ReleaseFromReview(_) => AdjustmentPosted
      case _ => BalanceReleased;
    AuditEvent(op.ctx.auditId, action, op.ctx.merchant, op.ctx.transaction,
               if op.Finalize? then "transaction" else "balance_reservation")
  }

  /** A committed call about a sale writes one audit event about it; any other writes none. */
  lemma AuditAfter(s: Store, op: Op)
    requires Commits(s, op)
    ensures Next(s, op).audits == s.audits + if op.Reserve? || Resolves(op) then [AuditOf(op)] else []
  {
  }

  /** How many events of an action a committed call writes about a sale. */
  function ToldBy(op: Op, action: AuditAction, sale: string): nat {
    if (op.Reserve? || Resolves(op)) && op.ctx.transaction == sale && AuditOf(op).action == action then 1 else 0
  }

  lemma ToldStep(s: Store, op: Op, action: AuditAction, sale: string)
    requires Commits(s, op)
    ensures Told(Next(s, op).audits, action, sale) == Told(s.audits, action, sale) + ToldBy(op, action, sale)
  {
    AuditAfter(s, op);
    if op.Reserve? || Resolves(op) {
      ToldAfter(s.audits, AuditOf(op), action, sale);
    }
  }

  /** Each call writes the events of the movements its lines make. */
  lemma EventsMeetLegs(op: Op, sale: string)
    ensures LegDelta(op, MerchantReserved, Credit, sale) == ToldBy(op, BalanceReserved, sale)
    ensures LegDelta(op, MerchantReserved, Debit, sale) ==
            ToldBy(op, BalanceReleased, sale) + ToldBy(op, LedgerPosted, sale) + ToldBy(op, BalanceUnderReview, sale)
    ensures LegDelta(op, MerchantUnderReview, Credit, sale) == ToldBy(op, BalanceUnderReview, sale)
    ensures LegDelta(op, MerchantUnderReview, Debit, sale) == ToldBy(op, AdjustmentPosted, sale)
    ensures (if op.Finalize? && op.ctx.transaction == sale then 1 else 0) == ToldBy(op, LedgerPosted, sale)
  {
  }

  lemma AuditTellsAfter(s: Store, op: Op, sale: string)
    requires Valid(s) && Commits(s, op) && AuditTellsOf(s, sale)
    ensures AuditTellsOf(Next(s, op), sale)
  {
    EventsMeetLegs(op, sale);
    LegEffect(s, op, MerchantReserved, Credit, sale);
    LegEffect(s, op, MerchantReserved, Debit, sale);
    LegEffect(s, op, MerchantUnderReview, Credit, sale);
    LegEffect(s, op, MerchantUnderReview, Debit, sale);
    LegsAfter(s, op, ProviderSettlement, Credit, sale);
    ProviderLegs(s, op, sale);
    ToldStep(s, op, BalanceReserved, sale);
    ToldStep(s, op, BalanceReleased, sale);
    ToldStep(s, op, LedgerPosted, sale);
    ToldStep(s, op, BalanceUnderReview, sale);
    ToldStep(s, op, AdjustmentPosted, sale);
  }

  lemma AuditStep(s: Store, op: Op)
    requires Valid(s) && AuditTells(s)
    ensures AuditTells(Next(s, op))
  {
    if Commits(s, op) {
      forall sale
        ensures AuditTellsOf(Next(s, op), sale)
      {
        assert AuditTellsOf(s, sale);
        AuditTellsAfter(s, op, sale);
      }
    }
  }

  /**
   * Whatever calls are made, refused ones among them, the audit trail and the ledger tell the same number of
   * each movement of every sale: no value moves unrecorded, and nothing is recorded that did not move.
   */
  lemma {:induction false} EveryRunIsAudited(s: Store, ops: seq<Op>)
    requires Valid(s) && AuditTells(s)
    ensures AuditTells(Run(s, ops))
    decreases |ops|
  {
    if ops != [] {
      ValidIsKept(s, ops[0]);
      AuditStep(s, ops[0]);
      EveryRunIsAudited(Next(s, ops[0]), ops[1..]);
    }
  }

  // --- earnings ---------------------------------------------------------------------------

  /** What a shop has earned, adjustments aside. */
  function Earned(s: Store, m: string): int {
    Total(s.entries, Revenue(m, false))
  }

  /** What it has moved of that into its selling balance. */
  function TakenOut(s: Store, m: string): int {
    -Total(s.entries, Revenue(m, true))
  }

  /** What one call adds to a shop's earnings. */
  function Earns(s: Store, op: Op, m: string): int {
    if Commits(s, op) && op.Finalize? && op.ctx.merchant == m then Clamp(op.profit, op.ctx.amount) else 0
  }

  function Takes(s: Store, op: Op, m: string): int {
    if Commits(s, op) && op.ProfitToBalance? && op.merchant == m then op.amount else 0
  }

  lemma {:induction false} ProfitSplits(es: seq<Entry>, m: string)
    ensures Net(es, TelgaRevenue, m) == Total(es, Revenue(m, false)) + Total(es, Revenue(m, true))
  {
    if es != [] {
      ProfitSplits(es[..|es| - 1], m);
    }
  }

  lemma LinesEarn(s: Store, op: Op, m: string, adjusting: bool)
    requires op.ShopTransfer? ==> op.fee >= 0
    ensures LinesTotal(LinesOf(s, op), Revenue(m, adjusting)) ==
            if !adjusting && op.Finalize? && op.ctx.merchant == m then Clamp(op.profit, op.ctx.amount)
            else if adjusting && op.ProfitToBalance? && op.merchant == m then -op.amount
            else 0
  {
    LinesWeight(s, op, Revenue(m, adjusting));
  }

  lemma RevenueAfter(s: Store, op: Op, m: string, adjusting: bool)
    requires Valid(s) && Commits(s, op)
    ensures Total(Next(s, op).entries, Revenue(m, adjusting)) ==
            Total(s.entries, Revenue(m, adjusting)) + LinesTotal(LinesOf(s, op), Revenue(m, adjusting))
  {
    TotalsStep(s, op, Revenue(m, adjusting));
  }

  lemma EarningsStep(s: Store, op: Op, m: string)
    requires Valid(s)
    ensures Earned(Next(s, op), m) == Earned(s, m) + Earns(s, op, m)
    ensures TakenOut(Next(s, op), m) == TakenOut(s, m) + Takes(s, op, m)
    ensures Earns(s, op, m) >= 0 && Takes(s, op, m) >= 0
  {
    if Commits(s, op) {
      CommitsExactly(s, op);
      RevenueAfter(s, op, m, false);
      RevenueAfter(s, op, m, true);
      LinesEarn(s, op, m, false);
      LinesEarn(s, op, m, true);
    }
  }

  function EarnedBy(s: Store, ops: seq<Op>, m: string): int
    decreases |ops|
  {
    if ops == [] then 0 else Earns(s, ops[0], m) + EarnedBy(Next(s, ops[0]), ops[1..], m)
  }

  function TakenBy(s: Store, ops: seq<Op>, m: string): int
    decreases |ops|
  {
    if ops == [] then 0 else Takes(s, ops[0], m) + TakenBy(Next(s, ops[0]), ops[1..], m)
  }

  /**
   * Over any run, a shop's earnings grow by the profit of its own finalised sales and by nothing else: taking
   * profit out, a fee, a transfer or another shop's sale never lowers or raises them. What is left to take is
   * what was earned less what was taken.
   */
  lemma {:induction false} EveryRunEarns(s: Store, ops: seq<Op>, m: string)
    requires Valid(s)
    ensures Earned(Run(s, ops), m) == Earned(s, m) + EarnedBy(s, ops, m)
    ensures EarnedBy(s, ops, m) >= 0
    ensures Net(Run(s, ops).entries, TelgaRevenue, m) ==
            Net(s.entries, TelgaRevenue, m) + EarnedBy(s, ops, m) - TakenBy(s, ops, m)
    decreases |ops|
  {
    if ops != [] {
      ValidIsKept(s, ops[0]);
      EarningsStep(s, ops[0], m);
      ProfitSplits(s.entries, m);
      ProfitSplits(Next(s, ops[0]).entries, m);
      EveryRunEarns(Next(s, ops[0]), ops[1..], m);
    }
  }

  // --- one calendar day --------------------------------------------------------------------

  /** A call and the day it is made, which is the day on every entry it posts. */
  datatype Dated = Dated(op: Op, day: string)

  function Repeated(day: string, n: nat): seq<string> {
    seq(n, _ => day)
  }

  /** The day on each entry after a call: a committed call's lines carry its own. */
  function DaysAfter(s: Store, days: seq<string>, c: Dated): seq<string> {
    days + Repeated(c.day, if Commits(s, c.op) then |LinesOf(s, c.op)| else 0)
  }

  function RunDated(s: Store, days: seq<string>, calls: seq<Dated>): (Store, seq<string>)
    decreases |calls|
  {
    if calls == [] then (s, days) else RunDated(Next(s, calls[0].op), DaysAfter(s, days, calls[0]), calls[1..])
  }

  /** Signed total of the selected entries that carry a day. */
  function DayTotal(es: seq<Entry>, days: seq<string>, f: Filter, day: string): int
    requires |es| == |days|
  {
    if es == [] then 0
    else
      var last := |es| - 1;
      DayTotal(es[..last], days[..last], f, day) + if days[last] == day then Weight(es[last].line, f) else 0
  }

  lemma {:induction false} DayAfter(es: seq<Entry>, days: seq<string>, more: seq<Entry>, on: string, f: Filter, day: string)
    requires |es| == |days|
    ensures DayTotal(es + more, days + Repeated(on, |more|), f, day) ==
            DayTotal(es, days, f, day) + if on == day then Total(more, f) else 0
    decreases |more|
  {
    var all := days + Repeated(on, |more|);
    if more == [] {
      assert es + more == es && all == days;
    } else {
      var front := more[..|more| - 1];
      var last := |es + more| - 1;
      assert (es + more)[..last] == es + front;
      assert all[..last] == days + Repeated(on, |front|);
      DayAfter(es, days, front, on, f, day);
    }
  }

  function EarnedOn(s: Store, calls: seq<Dated>, m: string, day: string): int
    decreases |calls|
  {
    if calls == [] then 0
    else (if calls[0].day == day then Earns(s, calls[0].op, m) else 0) + EarnedOn(Next(s, calls[0].op), calls[1..], m, day)
  }

  lemma DayStep(s: Store, days: seq<string>, c: Dated, m: string, day: string)
    requires Valid(s) && |days| == |s.entries|
    ensures var t, after := Next(s, c.op), DaysAfter(s, days, c);
            && |after| == |t.entries|
            && DayTotal(t.entries, after, Revenue(m, false), day) ==
               DayTotal(s.entries, days, Revenue(m, false), day) + if c.day == day then Earns(s, c.op, m) else 0
  {
    if Commits(s, c.op) {
      var more := Stamp(PostingIdOf(c.op), LinesOf(s, c.op));
      CommitAppends(s, c.op);
      DayAfter(s.entries, days, more, c.day, Revenue(m, false), day);
      StampTotals(PostingIdOf(c.op), LinesOf(s, c.op), Revenue(m, false));
      CommitsExactly(s, c.op);
      LinesEarn(s, c.op, m, false);
    } else {
      assert DaysAfter(s, days, c) == days;
    }
  }

  /**
   * A shop's profit for a day, over any run of calls on any days: exactly the profit of its own sales finalised
   * that day. Moving earlier profit into the balance never makes a day look worse.
   */
  lemma {:induction false} DayEarns(s: Store, days: seq<string>, calls: seq<Dated>, m: string, day: string)
    requires Valid(s) && |days| == |s.entries|
    ensures var (t, after) := RunDated(s, days, calls);
            && |after| == |t.entries|
            && DayTotal(t.entries, after, Revenue(m, false), day) ==
               DayTotal(s.entries, days, Revenue(m, false), day) + EarnedOn(s, calls, m, day)
    decreases |calls|
  {
    if calls != [] {
      ValidIsKept(s, calls[0].op);
      DayStep(s, days, calls[0], m, day);
      DayEarns(Next(s, calls[0].op), DaysAfter(s, days, calls[0]), calls[1..], m, day);
    }
  }

  // --- fee charges name their postings ----------------------------------------------------

  /** A line of the posting the charge names took this shop's fee for this period. */
  ghost predicate ChargePosted(s: Store, c: Charge) {
    && c.postingId.Some?
    && exists k :: 0 <= k < |s.entries| && s.entries[k].postingId == c.postingId.value
                   && Selects(Tagged(FeeDebit, c.merchant, FeeTag(c.period)), s.entries[k].line)
  }

  ghost predicate ChargesNamePostings(s: Store) {
    forall i :: 0 <= i < |s.charges| && s.charges[i].status == Paid ==> ChargePosted(s, s.charges[i])
  }

  lemma PostedStays(s: Store, t: Store, c: Charge)
    requires ChargePosted(s, c) && s.entries <= t.entries
    ensures ChargePosted(t, c)
  {
    var k :| 0 <= k < |s.entries| && s.entries[k].postingId == c.postingId.value
             && Selects(Tagged(FeeDebit, c.merchant, FeeTag(c.period)), s.entries[k].line);
    assert t.entries[k] == s.entries[k];
  }

  /** A fee just taken can be found from its charge. */
  lemma TakenFeeIsNamed(s: Store, f: FeeInput, c: Charge)
    requires Valid(s) && Commits(s, ChargeFee(f)) && TakesFee(s, f)
    requires c.merchant == f.merchant && c.period == f.period && c.postingId == Some(f.postingId)
    ensures ChargePosted(Next(s, ChargeFee(f)), c)
  {
    CommitAppends(s, ChargeFee(f));
    var es := Next(s, ChargeFee(f)).entries;
    assert es[|s.entries|] == Stamp(f.postingId, FeeLines(f))[0];
  }

  /** Over any run, every paid charge names a posting in the ledger that took that shop's fee for that period. */
  lemma {:induction false} EveryPaidChargeIsPosted(s: Store, ops: seq<Op>)
    requires Valid(s) && ChargesNamePostings(s)
    ensures ChargesNamePostings(Run(s, ops))
    decreases |ops|
  {
    if ops != [] {
      ValidIsKept(s, ops[0]);
      NamedStep(s, ops[0]);
      EveryPaidChargeIsPosted(Next(s, ops[0]), ops[1..]);
    }
  }

  lemma NamedStep(s: Store, op: Op)
    requires Valid(s) && ChargesNamePostings(s)
    ensures ChargesNamePostings(Next(s, op))
  {
    if Commits(s, op) {
      var t := Next(s, op);
      CommitAppends(s, op);
      CommitCharges(s, op);
      forall i | 0 <= i < |t.charges| && t.charges[i].status == Paid
        ensures ChargePosted(t, t.charges[i])
      {
        if i < |s.charges| && t.charges[i] == s.charges[i] {
          PostedStays(s, t, s.charges[i]);
        } else {
          TakenFeeIsNamed(s, op.input, t.charges[i]);
        }
      }
    }
  }

  // --- strangers and repeats ----------------------------------------------------------------

  /** The shops a call names. */
  function Parties(op: Op): set<string> {
    match op
    case Fund(m, _, _) => {m}
    case ProfitToBalance(m, _, _) => {m}
    case ReversalAdjustment(m, _, _, _) => {m}
    case ShopTransfer(from, to, _, _, _) => {from, to}
    case ChargeFee(f) => {f.merchant}
    case WaiveFee(m, _, _) => {m}
    case _ => {op.ctx.merchant}
  }

  lemma StrangerDelta(s: Store, op: Op, kind: AccountKind, m: string)
    requires m !in Parties(op)
    ensures Delta(s, op, kind, Some(m)) == 0
  {
  }

  /** A committed reservation under an id that a resolved row of this shop already has. */
  predicate ReHolds(s: Store, op: Op, m: string) {
    && Commits(s, op) && op.Reserve?
    && var at := RowById(s.reservations, ReservationId(op.ctx, op.reservationId));
       at.Some? && s.reservations[at.value].merchant == m && s.reservations[at.value].status != Held
  }

  lemma StrangerRows(s: Store, op: Op, m: string)
    requires Valid(s) && m !in Parties(op)
    ensures !ReHolds(s, op, m) ==> forall st :: RowSum(Next(s, op).reservations, m, st) == RowSum(s.reservations, m, st)
    ensures ReHolds(s, op, m) ==> RowSum(Next(s, op).reservations, m, Held) > RowSum(s.reservations, m, Held)
  {
    forall st
      ensures !ReHolds(s, op, m) ==> RowSum(Next(s, op).reservations, m, st) == RowSum(s.reservations, m, st)
    {
      RowEffect(s, op, m, st);
      assert Commits(s, op) && !ReHolds(s, op, m) ==> RowDelta(s, op, m, st) == 0;
    }
    RowEffect(s, op, m, Held);
  }

  /** No call touches the money of a shop it does not name. */
  lemma StrangersKeepTheirMoney(s: Store, op: Op, m: string)
    requires Valid(s) && m !in Parties(op)
    ensures BalanceFor(Next(s, op).entries, m) == BalanceFor(s.entries, m)
    ensures Net(Next(s, op).entries, TelgaRevenue, m) == Net(s.entries, TelgaRevenue, m)
  {
    forall kind: AccountKind
      ensures Net(Next(s, op).entries, kind, m) == Net(s.entries, kind, m)
    {
      PostingEffect(s, op, kind, Some(m));
      StrangerDelta(s, op, kind, m);
    }
  }

  /**
   * Its second balance calculation moves exactly when the call reserves under the id of a resolved row of that
   * shop: saving a reservation is an upsert on the id alone.
   */
  lemma StrangersAreUntouched(s: Store, op: Op, m: string)
    requires Valid(s) && m !in Parties(op)
    ensures ComputeBalance(m, Next(s, op).entries, Next(s, op).reservations) == ComputeBalance(m, s.entries, s.reservations)
            <==> !ReHolds(s, op, m)
  {
    StrangersKeepTheirMoney(s, op, m);
    StrangerRows(s, op, m);
    OwnedIsFourBuckets(s.entries, m);
    OwnedIsFourBuckets(Next(s, op).entries, m);
  }

  lemma UsedForEver(es: seq<Entry>, fs: seq<Entry>, postingId: string)
    requires PostingUsed(es, postingId) && es <= fs
    ensures PostingUsed(fs, postingId)
  {
    var i :| 0 <= i < |es| && es[i].postingId == postingId;
    assert fs[i] == es[i];
  }

  lemma TakenFeeCloses(s: Store, f: FeeInput, t: Store)
    requires Valid(s) && Commits(s, ChargeFee(f)) && TakesFee(s, f)
    requires ValidCharges(t.charges) && ChargesOnlyAdvance(Next(s, ChargeFee(f)).charges, t.charges)
    ensures FeeClosed(t, f)
  {
    PaidEffect(s, ChargeFee(f), f.merchant, f.period);
    var j := ChargeFor(Next(s, ChargeFee(f)).charges, f.merchant, f.period).value;
    assert t.charges[j] == Next(s, ChargeFee(f)).charges[j];
    ChargeIsUnique(t.charges, j);
  }

  /**
   * Pressing twice is pressing once: a call that posted, made again with the same posting id after any
   * other calls whatever, changes nothing at all.
   */
  lemma RepeatChangesNothing(s: Store, op: Op, ops: seq<Op>)
    requires AlwaysSound(s) && Commits(s, op) && LinesOf(s, op) != []
    ensures var t := Run(Next(s, op), ops); Next(t, op) == t
  {
    var s1 := Next(s, op);
    var t := Run(s1, ops);
    StepIsSound(s, op);
    EveryRunIsSound(s1, ops);
    CommitAppends(s, op);
    assert PostingUsed(t.entries, PostingIdOf(op)) by {
      assert s1.entries[|s.entries|] == Stamp(PostingIdOf(op), LinesOf(s, op))[0];
      UsedForEver(s1.entries, t.entries, PostingIdOf(op));
    }
    CommitsExactly(t, op);
    if op.ChargeFee? {
      TakenFeeCloses(s, op.input, t);
    }
  }

  lemma NothingToTell()
    ensures AuditTells(EMPTY) && ChargesNamePostings(EMPTY)
  {
  }
}
