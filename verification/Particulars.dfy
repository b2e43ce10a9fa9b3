/** What each posted line says of itself, what a waiver changes, and what a refused call is told. */
module Particulars {
  import opened Wrappers
  import opened Decimals
  import opened Ledger
  import opened Operations
  import opened Effects
  import Text

  // --- the lines -----------------------------------------------------------------------------------------

  /** Why a line was posted: a sale's money out, money back, money in, a fee, or a correction by hand. */
  function ReasonOf(op: Op, kind: AccountKind): Reason {
    match op
    case Fund(_, _, _) => FundingCredit
    case Reserve(_, _) => SaleDebit
    case Finalize(_, _, _) => if kind == TelgaRevenue then CommissionCredit else SaleDebit
    case Release(_) => Reversal
    case ReleaseFromReview(_) => Reversal
    case ReversalAdjustment(_, _, _, _) => Reversal
    case ChargeFee(_) => FeeDebit
    case _ => Adjustment
  }

  /** The sale a call is about, if it is about one. */
  function SaleOf(op: Op): Option<string> {
    match op
    case Reserve(c, _) => Some(c.transaction)
    case Release(c) => Some(c.transaction)
    case Finalize(c, _, _) => Some(c.transaction)
    case MoveToReview(c) => Some(c.transaction)
    case ReleaseFromReview(c) => Some(c.transaction)
    case ReversalAdjustment(_, t, _, _) => t
    case _ => None
  }

  function RateTag(bps: Option<nat>): string {
    "commission-share-" + Decimal(if bps.Some? then bps.value else 0) + "bps"
  }

  /** The rule a line was posted under: the shop's share of a sale, or the month of a fee. */
  function RuleOf(op: Op, kind: AccountKind): Option<string> {
    match op
    case Finalize(_, _, bps) => if kind == TelgaRevenue then Some(RateTag(bps)) else None
    case ChargeFee(f) => Some("software-fee-" + f.period)
    case _ => None
  }

  /** Every line a committed call posts carries its posting id, its place, its sale, its reason and its rule. */
  lemma EveryLineSaysWhy(s: Store, op: Op, k: nat)
    requires Valid(s) && Commits(s, op) && |s.entries| <= k < |Next(s, op).entries|
    ensures var e := Next(s, op).entries[k];
            && e.postingId == PostingIdOf(op) && e.index == k - |s.entries|
            && e.line.amount > 0 && e.line.transaction == SaleOf(op)
            && e.line.reason == ReasonOf(op, e.line.kind) && e.line.ruleVersion == RuleOf(op, e.line.kind)
  {
    CommitAppends(s, op);
    LinesShape(s, op);
    var ds := LinesOf(s, op);
    var e := Next(s, op).entries[k];
    assert e == Stamp(PostingIdOf(op), ds)[k - |s.entries|];
    assert ds[k - |s.entries|] == e.line;
  }

  /** The share a sale was settled at can be read back from its line. */
  lemma RateIsReadable(m: nat, n: nat)
    ensures RateTag(Some(m)) == RateTag(Some(n)) <==> m == n
  {
    var a, b := RateTag(Some(m)), RateTag(Some(n));
    if a == b {
      assert a == "commission-share-" + (Decimal(m) + "bps") && b == "commission-share-" + (Decimal(n) + "bps");
      assert a[17..|a| - 3] == Decimal(m) && b[17..|b| - 3] == Decimal(n);
      DecimalInjective(m, n);
    }
  }

  function Apart(m: int, n: int): nat {
    if m < n then n - m else m - n
  }

  /** The profit split off a sale is the figure from nothing to the whole amount nearest to what was claimed. */
  lemma ClampIsNearest(profit: int, amount: nat, other: nat)
    requires other <= amount
    ensures 0 <= Clamp(Some(profit), amount) <= amount && Clamp(None, amount) == 0
    ensures Apart(Clamp(Some(profit), amount), profit) <= Apart(other, profit)
  {
  }

  // --- a month's charge ---------------------------------------------------------------------------------------

  /** The month's row after a fee call: a first charge is written whole, arrears keep their own figure when paid. */
  lemma ChargeRowAfter(s: Store, f: FeeInput)
    requires Valid(s) && Commits(s, ChargeFee(f)) && !FeeClosed(s, f)
    ensures var paid := f.amount <= Available(s.entries, f.merchant);
            var status, posting := if paid then Paid else Arrears, if paid then Some(f.postingId) else None;
            var t, at := Next(s, ChargeFee(f)), ChargeFor(s.charges, f.merchant, f.period);
            t.charges ==
            if at.None? then s.charges + [Charge(f.id, f.merchant, f.period, f.amount, status, posting)]
            else if paid then s.charges[at.value := s.charges[at.value].(status := Paid, postingId := posting)]
            else s.charges
  {
  }

  // --- a waiver ---------------------------------------------------------------------------------------------

  /** A reason with something in it waives exactly the shop's arrears of that month; nothing else changes. */
  lemma WaivedExactly(s: Store, merchant: string, period: string, reason: string, i: nat)
    requires Valid(s) && i < |s.charges|
    ensures var t, c := Next(s, WaiveFee(merchant, period, reason)), s.charges[i];
            && t == s.(charges := t.charges) && |t.charges| == |s.charges|
            && t.charges[i] ==
               if c.merchant == merchant && c.period == period && c.status == Arrears
                  && (exists k :: 0 <= k < |reason| && !Text.IsSpace(reason[k]))
               then c.(status := Waived) else c
  {
    var at := ChargeFor(s.charges, merchant, period);
    if s.charges[i].merchant == merchant && s.charges[i].period == period {
      assert at == Some(i);
    }
  }

  // --- what a refused call is told ----------------------------------------------------------------------------

  function ErrorOf(s: Store, op: Op): Option<OpError> {
    var r := Apply(s, op);
    if r.Failure? then Some(r.error) else None
  }

  /** A reservation is refused for want of money before anything else, and for its amount before its row. */
  lemma ReserveRefusals(s: Store, c: Context, id: Option<string>)
    requires Valid(s)
    ensures var told := ErrorOf(s, Reserve(c, id));
            var affordable := c.amount <= Available(s.entries, c.merchant);
            var clash := RowById(s.reservations, ReservationId(c, id)).None?
                         && TransactionHasRow(s.reservations, c.transaction);
            && (told == Some(InsufficientAvailable) <==> !affordable)
            && (told == Some(OpError.AmountNotPositive) <==> affordable && c.amount <= 0)
            && (told == Some(DuplicateReservation) <==> affordable && c.amount > 0 && clash)
            && (told == Some(DuplicateAudit) <==>
                affordable && c.amount > 0 && !clash && !PostingUsed(s.entries, c.postingId)
                && AuditTaken(s.audits, c.auditId))
  {
    LinesAcceptable(s, Reserve(c, id));
    AppendsExactly(s, Reserve(c, id));
  }

  /** The status each resolution starts from. */
  function StartOf(op: Op): ReservationStatus {
    if op.ReleaseFromReview? then ReservationStatus.UnderReview else Held
  }

  /** A resolution names a missing reservation before one already resolved, and both before the ledger. */
  lemma ResolutionRefusals(s: Store, op: Op)
    requires Valid(s) && (op.Release? || op.Finalize? || op.MoveToReview? || op.ReleaseFromReview?)
    ensures var told, row := ErrorOf(s, op), RowFor(s.reservations, op.ctx.transaction, op.ctx.merchant);
            && (told == Some(NoReservation) <==> row.None?)
            && (told == Some(AlreadyResolved) <==> row.Some? && s.reservations[row.value].status != StartOf(op))
            && (told.Some? && told.value.LedgerRefused? ==> HasRowIn(s, op.ctx, StartOf(op)))
            && (told == Some(DuplicateAudit) ==> HasRowIn(s, op.ctx, StartOf(op)) && AuditTaken(s.audits, op.ctx.auditId))
  {
    var row := RowFor(s.reservations, op.ctx.transaction, op.ctx.merchant);
    if row.Some? {
      RowIsUnique(s.reservations, row.value);
    }
  }

  /** A fee is charged when it can be paid, recorded when it cannot, and neither once the month is closed. */
  lemma FeeOutcomes(s: Store, f: FeeInput)
    requires Valid(s) && Commits(s, ChargeFee(f))
    ensures var outcome, available := ChargeSoftwareFee(s, f).value.1, Available(s.entries, f.merchant);
            var closed := exists i :: 0 <= i < |s.charges| && s.charges[i].merchant == f.merchant
                                      && s.charges[i].period == f.period && s.charges[i].status != Arrears;
            && (outcome == AlreadyCharged <==> closed)
            && (outcome == Charged(f.amount) <==> !closed && f.amount <= available)
            && (outcome == InArrears(f.amount, available) <==> !closed && f.amount > available)
  {
  }
}
