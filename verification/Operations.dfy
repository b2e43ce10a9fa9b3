/** The ledger operations as functions of the stored tables: what each does, in the order it does it. */
module Operations {
  import opened Wrappers
  import opened Sequences
  import opened Ledger
  import opened Decimals
  import Text

  // --- the tables --------------------------------------------------------------

  datatype ReservationStatus = Held | UnderReview | Released | Settled

  datatype Reservation = Reservation(
    id: string, merchant: string, transaction: string, amount: int, status: ReservationStatus)

  datatype ChargeStatus = Paid | Arrears | Waived

  datatype Charge = Charge(
    id: string, merchant: string, period: string, amount: int, status: ChargeStatus, postingId: Option<string>)

  datatype AuditAction = BalanceReserved | BalanceReleased | LedgerPosted | BalanceUnderReview | AdjustmentPosted

  datatype AuditEvent = AuditEvent(
    id: string, action: AuditAction, merchant: string, transaction: string, entityType: string)

  datatype Store = Store(
    entries: seq<Entry>, reservations: seq<Reservation>, charges: seq<Charge>, audits: seq<AuditEvent>)

  const EMPTY := Store([], [], [], [])

  datatype OpError =
    | LedgerRefused(reason: LedgerError)
    | InsufficientAvailable
    | AmountNotPositive
    | NoReservation
    | AlreadyResolved
    | DuplicateReservation
    | DuplicateAudit
    | ChargeCheckFailed
    | DuplicateCharge

  datatype Context = Context(merchant: string, transaction: string, amount: int, postingId: string, auditId: string)

  datatype FeeInput = FeeInput(id: string, merchant: string, period: string, amount: int, postingId: string)

  datatype FeeOutcome = Charged(amount: int) | InArrears(due: int, available: int) | AlreadyCharged

  /** One call on the operations module. */
  datatype Op =
    | Fund(merchant: string, amount: int, postingId: string)
    | ProfitToBalance(merchant: string, amount: int, postingId: string)
    | ReversalAdjustment(merchant: string, transaction: Option<string>, amount: int, postingId: string)
    | ShopTransfer(sender: string, recipient: string, amount: int, fee: int, postingId: string)
    | Reserve(ctx: Context, reservationId: Option<string>)
    | Release(ctx: Context)
    | Finalize(ctx: Context, profit: Option<int>, bps: Option<nat>)
    | MoveToReview(ctx: Context)
    | ReleaseFromReview(ctx: Context)
    | ChargeFee(input: FeeInput)
    | WaiveFee(merchant: string, period: string, reason: string)

  // --- balances ------------------------------------------------------------------

  datatype BalanceView = BalanceView(available: int, reserved: int, underReview: int, total: int)

  function Net(es: seq<Entry>, kind: AccountKind, merchant: string): int {
    Total(es, Bucket(kind, Some(merchant)))
  }

  function Available(es: seq<Entry>, merchant: string): int {
    Net(es, MerchantAvailable, merchant) + Net(es, MerchantFunds, merchant)
  }

  /** The four views summed from postings alone. */
  function BalanceFor(es: seq<Entry>, merchant: string): BalanceView {
    var available := Available(es, merchant);
    var reserved := Net(es, MerchantReserved, merchant);
    var underReview := Net(es, MerchantUnderReview, merchant);
    BalanceView(available, reserved, underReview, available + reserved + underReview)
  }

  /** Sum of one merchant's reservations in one status. */
  function RowSum(rows: seq<Reservation>, merchant: string, status: ReservationStatus): int {
    if rows == [] then 0
    else RowSum(rows[..|rows| - 1], merchant, status) + RowShare(rows[|rows| - 1], merchant, status)
  }

  function RowShare(r: Reservation, merchant: string, status: ReservationStatus): int {
    if r.merchant == merchant && r.status == status then r.amount else 0
  }

  /** The domain's second calculation: settled total less the live reservations. */
  function ComputeBalance(merchant: string, es: seq<Entry>, rows: seq<Reservation>): BalanceView {
    var total := Total(es, MerchantOwned(merchant));
    var reserved := RowSum(rows, merchant, Held);
    var underReview := RowSum(rows, merchant, UnderReview);
    BalanceView(total - reserved - underReview, reserved, underReview, total)
  }

  // --- rows ----------------------------------------------------------------------

  function RowById(rows: seq<Reservation>, id: string): (r: Option<nat>)
    ensures r.Some? ==> r.value < |rows| && rows[r.value].id == id
    ensures r.None? ==> forall j :: 0 <= j < |rows| ==> rows[j].id != id
  {
    IndexWhere(rows, (r: Reservation) => r.id == id)
  }

  function RowFor(rows: seq<Reservation>, transaction: string, merchant: string): (r: Option<nat>)
    ensures r.Some? ==>
              r.value < |rows| && rows[r.value].transaction == transaction && rows[r.value].merchant == merchant
    ensures r.None? ==>
              forall j :: 0 <= j < |rows| ==> !(rows[j].transaction == transaction && rows[j].merchant == merchant)
  {
    IndexWhere(rows, (r: Reservation) => r.transaction == transaction && r.merchant == merchant)
  }

  predicate TransactionHasRow(rows: seq<Reservation>, transaction: string) {
    exists j :: 0 <= j < |rows| && rows[j].transaction == transaction
  }

  /**
   * INSERT ... ON CONFLICT(id) DO UPDATE: a known id only gets the new status; a new id must not
   * repeat a transaction, which carries a unique index of its own.
   */
  function SaveReservation(rows: seq<Reservation>, r: Reservation): Result<seq<Reservation>, OpError> {
    var at := RowById(rows, r.id);
    if at.Some? then Success(rows[at.value := rows[at.value].(status := r.status)])
    else if TransactionHasRow(rows, r.transaction) then Failure(DuplicateReservation)
    else Success(rows + [r])
  }

  /** UPDATE ... WHERE id = ? AND status = from; refused when it changes no row. */
  function Transition(rows: seq<Reservation>, id: string, from: ReservationStatus, to: ReservationStatus)
    : Result<seq<Reservation>, OpError>
  {
    var at := RowById(rows, id);
    if at.Some? && rows[at.value].status == from then Success(rows[at.value := rows[at.value].(status := to)])
    else Failure(AlreadyResolved)
  }

  predicate AuditTaken(audits: seq<AuditEvent>, id: string) {
    exists j :: 0 <= j < |audits| && audits[j].id == id
  }

  function SaveAudit(audits: seq<AuditEvent>, c: Context, action: AuditAction, entityType: string)
    : Result<seq<AuditEvent>, OpError>
  {
    if AuditTaken(audits, c.auditId) then Failure(DuplicateAudit)
    else Success(audits + [AuditEvent(c.auditId, action, c.merchant, c.transaction, entityType)])
  }

  function AppendTo(es: seq<Entry>, postingId: string, ds: seq<Draft>): Result<seq<Entry>, OpError> {
    match Append(es, postingId, ds)
    case Success(es') => Success(es')
    case Failure(e) => Failure(LedgerRefused(e))
  }

  // --- charges -------------------------------------------------------------------

  function ChargeFor(charges: seq<Charge>, merchant: string, period: string): (r: Option<nat>)
    ensures r.Some? ==>
              r.value < |charges| && charges[r.value].merchant == merchant && charges[r.value].period == period
    ensures r.None? ==>
              forall j :: 0 <= j < |charges| ==> !(charges[j].merchant == merchant && charges[j].period == period)
  {
    IndexWhere(charges, (c: Charge) => c.merchant == merchant && c.period == period)
  }

  predicate ChargeIdTaken(charges: seq<Charge>, id: string) {
    exists j :: 0 <= j < |charges| && charges[j].id == id
  }

  /** INSERT a PAID row, or turn the period's ARREARS row into a PAID one (its amount stays). */
  function InsertPaid(charges: seq<Charge>, f: FeeInput): Result<seq<Charge>, OpError> {
    if f.amount <= 0 || |f.period| != 7 then Failure(ChargeCheckFailed)
    else
      var at := ChargeFor(charges, f.merchant, f.period);
      if at.Some? then
        if charges[at.value].status == Arrears then
          Success(charges[at.value := charges[at.value].(status := Paid, postingId := Some(f.postingId))])
        else Success(charges)
      else if ChargeIdTaken(charges, f.id) then Failure(DuplicateCharge)
      else Success(charges + [Charge(f.id, f.merchant, f.period, f.amount, Paid, Some(f.postingId))])
  }

  /** INSERT an ARREARS row unless the period has one already. */
  function InsertArrears(charges: seq<Charge>, f: FeeInput): Result<seq<Charge>, OpError> {
    if f.amount <= 0 || |f.period| != 7 then Failure(ChargeCheckFailed)
    else if ChargeFor(charges, f.merchant, f.period).Some? then Success(charges)
    else if ChargeIdTaken(charges, f.id) then Failure(DuplicateCharge)
    else Success(charges + [Charge(f.id, f.merchant, f.period, f.amount, Arrears, None)])
  }

  /** UPDATE ... SET status = 'WAIVED' WHERE status = 'ARREARS'; a blank reason changes nothing. */
  function Waive(charges: seq<Charge>, merchant: string, period: string, reason: string): seq<Charge> {
    var at := ChargeFor(charges, merchant, period);
    if !Text.Blank(reason) && at.Some? && charges[at.value].status == Arrears
    then charges[at.value := charges[at.value].(status := Waived)]
    else charges
  }

  // --- the lines each operation posts --------------------------------------------

  function MerchantLine(kind: AccountKind, merchant: string, transaction: Option<string>, direction: Direction,
                        amount: int, reason: Reason): Draft
  {
    Draft(kind, Some(merchant), transaction, direction, amount, reason, None)
  }

  function PlatformLine(kind: AccountKind, transaction: Option<string>, direction: Direction,
                        amount: int, reason: Reason): Draft
  {
    Draft(kind, None, transaction, direction, amount, reason, None)
  }

  function BucketTransfer(c: Context, from: AccountKind, to: AccountKind, reason: Reason): seq<Draft> {
    [MerchantLine(from, c.merchant, Some(c.transaction), Debit, c.amount, reason),
     MerchantLine(to, c.merchant, Some(c.transaction), Credit, c.amount, reason)]
  }

  function FundLines(merchant: string, amount: int): seq<Draft> {
    [MerchantLine(MerchantAvailable, merchant, None, Credit, amount, FundingCredit),
     PlatformLine(BankClearing, None, Debit, amount, FundingCredit)]
  }

  function ProfitLines(merchant: string, amount: int): seq<Draft> {
    [MerchantLine(MerchantAvailable, merchant, None, Credit, amount, Adjustment),
     MerchantLine(TelgaRevenue, merchant, None, Debit, amount, Adjustment)]
  }

  function ReversalLines(merchant: string, transaction: Option<string>, amount: int): seq<Draft> {
    [MerchantLine(MerchantAvailable, merchant, transaction, Credit, amount, Reversal),
     PlatformLine(ProviderSettlement, transaction, Debit, amount, Reversal)]
  }

  function TransferLines(sender: string, recipient: string, amount: int, fee: int): seq<Draft> {
    [MerchantLine(MerchantAvailable, sender, None, Debit, amount + fee, Adjustment),
     MerchantLine(MerchantAvailable, recipient, None, Credit, amount, Adjustment)]
    + if fee > 0 then [PlatformLine(TelgaRevenue, None, Credit, fee, Adjustment)] else []
  }

  /** Profit is clamped into 0..amount before it is split off. */
  function Clamp(profit: Option<int>, amount: int): int {
    var wanted := if profit.Some? then profit.value else 0;
    var capped := if wanted < amount then wanted else amount;
    if capped < 0 then 0 else capped
  }

  function SettleLines(c: Context, profit: int, bps: Option<nat>): seq<Draft> {
    [MerchantLine(MerchantReserved, c.merchant, Some(c.transaction), Debit, c.amount, SaleDebit),
     PlatformLine(ProviderSettlement, Some(c.transaction), Credit, c.amount - profit, SaleDebit)]
    + if profit > 0 then
      [MerchantLine(TelgaRevenue, c.merchant, Some(c.transaction), Credit, profit, CommissionCredit).(
       ruleVersion := Some("commission-share-" + Decimal(if bps.Some? then bps.value else 0) + "bps"))]
    else []
  }

  function FeeTag(period: string): string {
    "software-fee-" + period
  }

  function FeeLines(f: FeeInput): seq<Draft> {
    [MerchantLine(MerchantAvailable, f.merchant, None, Debit, f.amount, FeeDebit).(
     ruleVersion := Some(FeeTag(f.period))),
     PlatformLine(TelgaRevenue, None, Credit, f.amount, FeeDebit).(ruleVersion := Some(FeeTag(f.period)))]
  }

  // --- the operations --------------------------------------------------------------

  function PostOnly(s: Store, postingId: string, ds: seq<Draft>): Result<Store, OpError> {
    var es :- AppendTo(s.entries, postingId, ds);
    Success(s.(entries := es))
  }

  function ReservationId(c: Context, reservationId: Option<string>): string {
    if reservationId.Some? then reservationId.value else "res_" + c.transaction
  }

  /** Balance check, then the row, then the postings, then the audit event. */
  function ReserveValue(s: Store, c: Context, reservationId: Option<string>): Result<Store, OpError> {
    if Available(s.entries, c.merchant) < c.amount then Failure(InsufficientAvailable)
    else if c.amount <= 0 then Failure(AmountNotPositive)
    else
      var rows :- SaveReservation(
                    s.reservations,
                    Reservation(ReservationId(c, reservationId), c.merchant, c.transaction, c.amount, Held));
      var es :- AppendTo(s.entries, c.postingId, BucketTransfer(c, MerchantAvailable, MerchantReserved, SaleDebit));
      var audits :- SaveAudit(s.audits, c, BalanceReserved, "balance_reservation");
      Success(s.(reservations := rows, entries := es, audits := audits))
  }

  /** Compare-and-set on the row first, then the postings, then the audit event. */
  function Resolve(s: Store, c: Context, from: ReservationStatus, to: ReservationStatus, ds: seq<Draft>,
                   action: AuditAction, entityType: string): Result<Store, OpError>
  {
    var at := RowFor(s.reservations, c.transaction, c.merchant);
    if at.None? then Failure(NoReservation)
    else
      var rows :- Transition(s.reservations, s.reservations[at.value].id, from, to);
      var es :- AppendTo(s.entries, c.postingId, ds);
      var audits :- SaveAudit(s.audits, c, action, entityType);
      Success(s.(reservations := rows, entries := es, audits := audits))
  }

  function ReleaseValue(s: Store, c: Context): Result<Store, OpError> {
    Resolve(s, c, Held, Released, BucketTransfer(c, MerchantReserved, MerchantAvailable, Reversal),
            BalanceReleased, "balance_reservation")
  }

  function FinalizeSuccess(s: Store, c: Context, profit: Option<int>, bps: Option<nat>): Result<Store, OpError> {
    Resolve(s, c, Held, Settled, SettleLines(c, Clamp(profit, c.amount), bps), LedgerPosted, "transaction")
  }

  function MoveToUnderReview(s: Store, c: Context): Result<Store, OpError> {
    Resolve(s, c, Held, UnderReview, BucketTransfer(c, MerchantReserved, MerchantUnderReview, Adjustment),
            BalanceUnderReview, "balance_reservation")
  }

  function ReleaseFromUnderReview(s: Store, c: Context): Result<Store, OpError> {
    Resolve(s, c, UnderReview, Released, BucketTransfer(c, MerchantUnderReview, MerchantAvailable, Reversal),
            AdjustmentPosted, "balance_reservation")
  }

  /** True when the period is settled one way or the other: nothing is left to charge. */
  predicate FeeClosed(s: Store, f: FeeInput) {
    var at := ChargeFor(s.charges, f.merchant, f.period);
    at.Some? && s.charges[at.value].status != Arrears
  }

  function ChargeSoftwareFee(s: Store, f: FeeInput): Result<(Store, FeeOutcome), OpError> {
    var available := Available(s.entries, f.merchant);
    if FeeClosed(s, f) then Success((s, AlreadyCharged))
    else if available < f.amount then
      var charges :- InsertArrears(s.charges, f);
      Success((s.(charges := charges), InArrears(f.amount, available)))
    else
      var es :- AppendTo(s.entries, f.postingId, FeeLines(f));
      var charges :- InsertPaid(s.charges, f);
      Success((s.(entries := es, charges := charges), Charged(f.amount)))
  }

  /** One unit of work. */
  function Apply(s: Store, op: Op): Result<Store, OpError> {
    match op
    case Fund(m, a, p) => PostOnly(s, p, FundLines(m, a))
    case ProfitToBalance(m, a, p) => PostOnly(s, p, ProfitLines(m, a))
    case ReversalAdjustment(m, t, a, p) => PostOnly(s, p, ReversalLines(m, t, a))
    case ShopTransfer(from, to, a, fee, p) => PostOnly(s, p, TransferLines(from, to, a, fee))
    case Reserve(c, id) => ReserveValue(s, c, id)
    case Release(c) => ReleaseValue(s, c)
    case Finalize(c, profit, bps) => FinalizeSuccess(s, c, profit, bps)
    case MoveToReview(c) => MoveToUnderReview(s, c)
    case ReleaseFromReview(c) => ReleaseFromUnderReview(s, c)
    case ChargeFee(f) => var done :- ChargeSoftwareFee(s, f); Success(done.0)
    case WaiveFee(m, period, reason) => Success(s.(charges := Waive(s.charges, m, period, reason)))
  }

  predicate Commits(s: Store, op: Op) {
    Apply(s, op).Success?
  }

  /** The state after a call: a throw rolls everything back. */
  function Next(s: Store, op: Op): Store {
    if Commits(s, op) then Apply(s, op).value else s
  }

  function Run(s: Store, ops: seq<Op>): Store
    decreases |ops|
  {
    if ops == [] then s else Run(Next(s, ops[0]), ops[1..])
  }
}
