/** When each operation commits, and exactly what a committed one posts. */
module Effects {
  import opened Wrappers
  import opened Ledger
  import opened Operations

  // --- the constraints every stored state meets ------------------------------------

  ghost predicate ValidRows(rows: seq<Reservation>) {
    && (forall i :: 0 <= i < |rows| ==> rows[i].amount > 0)
    && (forall i, j :: 0 <= i < j < |rows| ==> rows[i].id != rows[j].id)
    && (forall i, j :: 0 <= i < j < |rows| ==> rows[i].transaction != rows[j].transaction)
  }

  ghost predicate ValidCharges(charges: seq<Charge>) {
    && (forall i :: 0 <= i < |charges| ==> charges[i].amount > 0 && |charges[i].period| == 7)
    && (forall i, j :: 0 <= i < j < |charges| ==>
          !(charges[i].merchant == charges[j].merchant && charges[i].period == charges[j].period))
  }

  ghost predicate Valid(s: Store) {
    WellPosted(s.entries) && ValidRows(s.reservations) && ValidCharges(s.charges)
  }

  // --- what an operation posts -------------------------------------------------------

  function PostingIdOf(op: Op): string {
    match op
    case Fund(_, _, p) => p
    case ProfitToBalance(_, _, p) => p
    case ReversalAdjustment(_, _, _, p) => p
    case ShopTransfer(_, _, _, _, p) => p
    case Reserve(c, _) => c.postingId
    case Release(c) => c.postingId
    case Finalize(c, _, _) => c.postingId
    case MoveToReview(c) => c.postingId
    case ReleaseFromReview(c) => c.postingId
    case ChargeFee(f) => f.postingId
    case WaiveFee(_, _, _) => ""
  }

  predicate TakesFee(s: Store, f: FeeInput) {
    !FeeClosed(s, f) && f.amount <= Available(s.entries, f.merchant)
  }

  function LinesOf(s: Store, op: Op): seq<Draft> {
    match op
    case Fund(m, a, _) => FundLines(m, a)
    case ProfitToBalance(m, a, _) => ProfitLines(m, a)
    case ReversalAdjustment(m, t, a, _) => ReversalLines(m, t, a)
    case ShopTransfer(from, to, a, fee, _) => TransferLines(from, to, a, fee)
    case Reserve(c, _) => BucketTransfer(c, MerchantAvailable, MerchantReserved, SaleDebit)
    case Release(c) => BucketTransfer(c, MerchantReserved, MerchantAvailable, Reversal)
    case Finalize(c, profit, bps) => SettleLines(c, Clamp(profit, c.amount), bps)
    case MoveToReview(c) => BucketTransfer(c, MerchantReserved, MerchantUnderReview, Adjustment)
    case ReleaseFromReview(c) => BucketTransfer(c, MerchantUnderReview, MerchantAvailable, Reversal)
    case ChargeFee(f) => if TakesFee(s, f) then FeeLines(f) else []
    case WaiveFee(_, _, _) => []
  }

  /** Each operation's lines, told apart by how many there are. */
  lemma LinesShape(s: Store, op: Op)
    ensures var ds := LinesOf(s, op);
            |ds| <= 3 && (op.WaiveFee? <==> ds == [] && !op.ChargeFee?)
    ensures var ds := LinesOf(s, op);
            && (|ds| == 2 ==> ds == [ds[0], ds[1]])
            && (|ds| == 3 ==> ds == [ds[0], ds[1], ds[2]])
            && |ds| != 1
  {
  }

  /** The signed total of an operation's lines under any filter, line by line. */
  lemma LinesWeight(s: Store, op: Op, f: Filter)
    ensures var ds := LinesOf(s, op);
            && |ds| in {0, 2, 3}
            && LinesTotal(ds, f) == (if ds == [] then 0 else Weight(ds[0], f) + Weight(ds[1], f))
                                    + (if |ds| == 3 then Weight(ds[2], f) else 0)
            && LinesCount(ds, f) ==
               (if ds == [] then 0 else (if Selects(f, ds[0]) then 1 else 0) + (if Selects(f, ds[1]) then 1 else 0))
               + (if |ds| == 3 && Selects(f, ds[2]) then 1 else 0)
  {
    LinesShape(s, op);
    var ds := LinesOf(s, op);
    if |ds| == 2 {
      OfTwo(ds[0], ds[1], f);
    } else if |ds| == 3 {
      OfThree(ds[0], ds[1], ds[2], f);
    }
  }

  // --- when an operation commits -------------------------------------------------------

  predicate HasRowIn(s: Store, c: Context, status: ReservationStatus) {
    var at := RowFor(s.reservations, c.transaction, c.merchant);
    at.Some? && s.reservations[at.value].status == status
  }

  predicate ChargeRowFree(s: Store, f: FeeInput) {
    ChargeFor(s.charges, f.merchant, f.period).Some? || !ChargeIdTaken(s.charges, f.id)
  }

  /** What a caller could check before the call to know that it will commit. */
  ghost predicate Guard(s: Store, op: Op) {
    var unused := !PostingUsed(s.entries, PostingIdOf(op));
    match op
    case Fund(_, a, _) => a > 0 && unused
    case ProfitToBalance(_, a, _) => a > 0 && unused
    case ReversalAdjustment(_, _, a, _) => a > 0 && unused
    case ShopTransfer(_, _, a, fee, _) => a > 0 && fee >= 0 && unused
    case Reserve(c, id) =>
      && 0 < c.amount <= Available(s.entries, c.merchant)
      && (RowById(s.reservations, ReservationId(c, id)).Some? || !TransactionHasRow(s.reservations, c.transaction))
      && unused && !AuditTaken(s.audits, c.auditId)
    case Release(c) => c.amount > 0 && HasRowIn(s, c, Held) && unused && !AuditTaken(s.audits, c.auditId)
    case Finalize(c, profit, _) =>
      && c.amount > 0 && (profit.Some? ==> profit.value < c.amount)
      && HasRowIn(s, c, Held) && unused && !AuditTaken(s.audits, c.auditId)
    case MoveToReview(c) => c.amount > 0 && HasRowIn(s, c, Held) && unused && !AuditTaken(s.audits, c.auditId)
    case ReleaseFromReview(c) =>
      c.amount > 0 && HasRowIn(s, c, UnderReview) && unused && !AuditTaken(s.audits, c.auditId)
    case ChargeFee(f) =>
      || FeeClosed(s, f)
      || (f.amount > 0 && |f.period| == 7 && ChargeRowFree(s, f) && (TakesFee(s, f) ==> unused))
    case WaiveFee(_, _, _) => true
  }

  lemma RowIsUnique(rows: seq<Reservation>, i: nat)
    requires ValidRows(rows) && i < |rows|
    ensures RowById(rows, rows[i].id) == Some(i)
    ensures RowFor(rows, rows[i].transaction, rows[i].merchant) == Some(i)
  {
    var j := RowById(rows, rows[i].id).value;
    var k := RowFor(rows, rows[i].transaction, rows[i].merchant).value;
    assert j == i && k == i;
  }

  lemma LinesAcceptable(s: Store, op: Op)
    requires LinesOf(s, op) != []
    ensures (Residual(LinesOf(s, op)) == 0 && AllPositive(LinesOf(s, op))) <==>
            match op
            case ShopTransfer(_, _, a, fee, _) => a > 0 && fee >= 0
            case Finalize(c, profit, _) => c.amount > 0 && (profit.Some? ==> profit.value < c.amount)
            case Fund(_, a, _) => a > 0
            case ProfitToBalance(_, a, _) => a > 0
            case ReversalAdjustment(_, _, a, _) => a > 0
            case Reserve(c, _) => c.amount > 0
            case Release(c) => c.amount > 0
            case MoveToReview(c) => c.amount > 0
            case ReleaseFromReview(c) => c.amount > 0
            case ChargeFee(f) => f.amount > 0
            case WaiveFee(_, _, _) => false
  {
    LinesWeight(s, op, Everything);
    var ds := LinesOf(s, op);
    assert AllPositive(ds) <==> ds[0].amount > 0 && ds[1].amount > 0 && (|ds| == 3 ==> ds[2].amount > 0);
  }

  lemma AppendsExactly(s: Store, op: Op)
    requires Valid(s) && LinesOf(s, op) != []
    ensures AppendTo(s.entries, PostingIdOf(op), LinesOf(s, op)).Success? <==>
            Residual(LinesOf(s, op)) == 0 && AllPositive(LinesOf(s, op)) && !PostingUsed(s.entries, PostingIdOf(op))
  {
    AppendExactly(s.entries, PostingIdOf(op), LinesOf(s, op));
  }

  /** A resolution gets past its compare-and-set exactly when the sale's row has the status it starts from. */
  lemma MovesExactly(s: Store, c: Context, from: ReservationStatus, to: ReservationStatus)
    requires Valid(s)
    ensures RowMoved(s, c, from, to).Success? <==> HasRowIn(s, c, from)
  {
    var at := RowFor(s.reservations, c.transaction, c.merchant);
    if at.Some? {
      RowIsUnique(s.reservations, at.value);
    }
  }

  lemma ResolutionCommits(s: Store, op: Op)
    requires Valid(s) && (op.Release? || op.Finalize? || op.MoveToReview? || op.ReleaseFromReview?)
    ensures Commits(s, op) <==> Guard(s, op)
  {
    LinesAcceptable(s, op);
    AppendsExactly(s, op);
    match op
    case Release(c) => MovesExactly(s, c, Held, Released);
    case Finalize(c, _, _) => MovesExactly(s, c, Held, Settled);
    case MoveToReview(c) => MovesExactly(s, c, Held, UnderReview);
    case ReleaseFromReview(c) => MovesExactly(s, c, UnderReview, Released);
  }

  /** Both directions: an operation commits exactly when its guard holds. */
  lemma CommitsExactly(s: Store, op: Op)
    requires Valid(s)
    ensures Commits(s, op) <==> Guard(s, op)
  {
    if op.Release? || op.Finalize? || op.MoveToReview? || op.ReleaseFromReview? {
      ResolutionCommits(s, op);
    } else if LinesOf(s, op) != [] {
      LinesAcceptable(s, op);
      AppendsExactly(s, op);
    }
  }

  /** A committed operation adds exactly its own lines, stamped with its posting id, after the old entries. */
  lemma CommitAppends(s: Store, op: Op)
    requires Valid(s) && Commits(s, op)
    ensures Next(s, op).entries == s.entries + Stamp(PostingIdOf(op), LinesOf(s, op))
    ensures LinesOf(s, op) != [] ==>
              Residual(LinesOf(s, op)) == 0 && AllPositive(LinesOf(s, op)) && !PostingUsed(s.entries, PostingIdOf(op))
  {
    var ds := LinesOf(s, op);
    if ds != [] {
      AppendExactly(s.entries, PostingIdOf(op), ds);
    } else {
      assert s.entries + Stamp(PostingIdOf(op), ds) == s.entries;
    }
  }

  /** Any total or count over the entries grows by that of the lines the call posts. */
  lemma TotalsStep(s: Store, op: Op, f: Filter)
    requires Valid(s) && Commits(s, op)
    ensures Total(Next(s, op).entries, f) == Total(s.entries, f) + LinesTotal(LinesOf(s, op), f)
    ensures Count(Next(s, op).entries, f) == Count(s.entries, f) + LinesCount(LinesOf(s, op), f)
  {
    CommitAppends(s, op);
    TotalsAfter(s.entries, PostingIdOf(op), LinesOf(s, op), f);
  }

  // --- what a committed operation moves ------------------------------------------------

  function If(b: bool, n: int): int {
    if b then n else 0
  }

  /** The change of one account: a merchant's (Some) or a platform's (None). */
  function Delta(s: Store, op: Op, kind: AccountKind, who: Option<string>): int {
    match op
    case Fund(m, a, _) =>
      If(kind == MerchantAvailable && who == Some(m), a) - If(kind == BankClearing && who == None, a)
    case ProfitToBalance(m, a, _) =>
      If(kind == MerchantAvailable && who == Some(m), a) - If(kind == TelgaRevenue && who == Some(m), a)
    case ReversalAdjustment(m, _, a, _) =>
      If(kind == MerchantAvailable && who == Some(m), a) - If(kind == ProviderSettlement && who == None, a)
    case ShopTransfer(from, to, a, fee, _) =>
      If(kind == MerchantAvailable && who == Some(to), a) - If(kind == MerchantAvailable && who == Some(from), a + fee)
      + If(kind == TelgaRevenue && who == None, fee)
    case Reserve(c, _) => Moved(c, MerchantAvailable, MerchantReserved, kind, who)
    case Release(c) => Moved(c, MerchantReserved, MerchantAvailable, kind, who)
    case Finalize(c, profit, _) =>
      var kept := Clamp(profit, c.amount);
      If(kind == ProviderSettlement && who == None, c.amount - kept)
      + If(kind == TelgaRevenue && who == Some(c.merchant), kept)
      - If(kind == MerchantReserved && who == Some(c.merchant), c.amount)
    case MoveToReview(c) => Moved(c, MerchantReserved, MerchantUnderReview, kind, who)
    case ReleaseFromReview(c) => Moved(c, MerchantUnderReview, MerchantAvailable, kind, who)
    case ChargeFee(f) =>
      If(TakesFee(s, f) && kind == TelgaRevenue && who == None, f.amount)
      - If(TakesFee(s, f) && kind == MerchantAvailable && who == Some(f.merchant), f.amount)
    case WaiveFee(_, _, _) => 0
  }

  function Moved(c: Context, from: AccountKind, to: AccountKind, kind: AccountKind, who: Option<string>): int {
    If(kind == to && who == Some(c.merchant), c.amount) - If(kind == from && who == Some(c.merchant), c.amount)
  }

  lemma TransferTotals(c: Context, from: AccountKind, to: AccountKind, reason: Reason, kind: AccountKind, who: Option<string>)
    ensures LinesTotal(BucketTransfer(c, from, to, reason), Bucket(kind, who)) == Moved(c, from, to, kind, who)
  {
    var ds := BucketTransfer(c, from, to, reason);
    OfTwo(ds[0], ds[1], Bucket(kind, who));
  }

  lemma ShopTransferTotals(from: string, to: string, a: int, fee: int, kind: AccountKind, who: Option<string>)
    requires fee >= 0
    ensures LinesTotal(TransferLines(from, to, a, fee), Bucket(kind, who)) ==
            If(kind == MerchantAvailable && who == Some(to), a)
            - If(kind == MerchantAvailable && who == Some(from), a + fee)
            + If(kind == TelgaRevenue && who == None, fee)
  {
    var ds := TransferLines(from, to, a, fee);
    if fee > 0 {
      assert ds == [ds[0], ds[1], ds[2]];
      OfThree(ds[0], ds[1], ds[2], Bucket(kind, who));
    } else {
      assert ds == [ds[0], ds[1]];
      OfTwo(ds[0], ds[1], Bucket(kind, who));
    }
  }

  lemma SettleTotals(c: Context, kept: int, bps: Option<nat>, kind: AccountKind, who: Option<string>)
    requires kept >= 0
    ensures LinesTotal(SettleLines(c, kept, bps), Bucket(kind, who)) ==
            If(kind == ProviderSettlement && who == None, c.amount - kept)
            + If(kind == TelgaRevenue && who == Some(c.merchant), kept)
            - If(kind == MerchantReserved && who == Some(c.merchant), c.amount)
  {
    var ds := SettleLines(c, kept, bps);
    if kept > 0 {
      assert ds == [ds[0], ds[1], ds[2]];
      OfThree(ds[0], ds[1], ds[2], Bucket(kind, who));
    } else {
      assert ds == [ds[0], ds[1]];
      OfTwo(ds[0], ds[1], Bucket(kind, who));
    }
  }

  lemma TwoLineTotals(s: Store, op: Op, kind: AccountKind, who: Option<string>)
    requires op.Fund? || op.ProfitToBalance? || op.ReversalAdjustment? || op.ChargeFee?
    ensures LinesTotal(LinesOf(s, op), Bucket(kind, who)) == Delta(s, op, kind, who)
  {
    var ds := LinesOf(s, op);
    if ds != [] {
      OfTwo(ds[0], ds[1], Bucket(kind, who));
    }
  }

  /** The lines an acceptable call posts add up, account by account, to its row of the table. */
  lemma LinesMeetDelta(s: Store, op: Op, kind: AccountKind, who: Option<string>)
    requires op.ShopTransfer? ==> op.fee >= 0
    ensures LinesTotal(LinesOf(s, op), Bucket(kind, who)) == Delta(s, op, kind, who)
  {
    match op
    case ShopTransfer(from, to, a, fee, _) => ShopTransferTotals(from, to, a, fee, kind, who);
    case Reserve(c, _) => TransferTotals(c, MerchantAvailable, MerchantReserved, SaleDebit, kind, who);
    case Release(c) => TransferTotals(c, MerchantReserved, MerchantAvailable, Reversal, kind, who);
    case Finalize(c, profit, bps) => SettleTotals(c, Clamp(profit, c.amount), bps, kind, who);
    case MoveToReview(c) => TransferTotals(c, MerchantReserved, MerchantUnderReview, Adjustment, kind, who);
    case ReleaseFromReview(c) => TransferTotals(c, MerchantUnderReview, MerchantAvailable, Reversal, kind, who);
    case WaiveFee(_, _, _) =>
    case _ => TwoLineTotals(s, op, kind, who);
  }

  /** A committed call moves every account by its row of the table, and a refused call moves none. */
  lemma PostingEffect(s: Store, op: Op, kind: AccountKind, who: Option<string>)
    requires Valid(s)
    ensures Total(Next(s, op).entries, Bucket(kind, who)) ==
            Total(s.entries, Bucket(kind, who)) + If(Commits(s, op), Delta(s, op, kind, who))
  {
    if Commits(s, op) {
      var d := Delta(s, op, kind, who);
      assert LinesTotal(LinesOf(s, op), Bucket(kind, who)) == d by {
        CommitsExactly(s, op);
        LinesMeetDelta(s, op, kind, who);
      }
      TotalsStep(s, op, Bucket(kind, who));
    }
  }

  // --- the constraints are kept ----------------------------------------------------------

  lemma TransitionKeeps(rows: seq<Reservation>, id: string, from: ReservationStatus, to: ReservationStatus)
    requires ValidRows(rows)
    ensures Transition(rows, id, from, to).Success? ==> ValidRows(Transition(rows, id, from, to).value)
  {
  }

  lemma SaveKeeps(rows: seq<Reservation>, r: Reservation)
    requires ValidRows(rows) && r.amount > 0
    ensures SaveReservation(rows, r).Success? ==> ValidRows(SaveReservation(rows, r).value)
  {
  }

  /** The reservations a committed call leaves. */
  function RowsAfter(s: Store, op: Op): Result<seq<Reservation>, OpError> {
    match op
    case Reserve(c, id) =>
      SaveReservation(s.reservations, Reservation(ReservationId(c, id), c.merchant, c.transaction, c.amount, Held))
    case Release(c) => RowMoved(s, c, Held, Released)
    case Finalize(c, _, _) => RowMoved(s, c, Held, Settled)
    case MoveToReview(c) => RowMoved(s, c, Held, UnderReview)
    case ReleaseFromReview(c) => RowMoved(s, c, UnderReview, Released)
    case _ => Success(s.reservations)
  }

  function RowMoved(s: Store, c: Context, from: ReservationStatus, to: ReservationStatus)
    : Result<seq<Reservation>, OpError>
  {
    var at := RowFor(s.reservations, c.transaction, c.merchant);
    if at.None? then Failure(NoReservation)
    else Transition(s.reservations, s.reservations[at.value].id, from, to)
  }

  lemma CommitRows(s: Store, op: Op)
    requires Commits(s, op)
    ensures RowsAfter(s, op) == Success(Next(s, op).reservations)
    ensures op.Reserve? ==> op.ctx.amount > 0
  {
  }

  lemma RowsStayValid(s: Store, op: Op)
    requires Valid(s) && Commits(s, op)
    ensures ValidRows(Next(s, op).reservations)
  {
    CommitRows(s, op);
    match op
    case Reserve(c, id) =>
      SaveKeeps(s.reservations, Reservation(ReservationId(c, id), c.merchant, c.transaction, c.amount, Held));
    case Release(c) =>
      TransitionKeeps(s.reservations, s.reservations[RowFor(s.reservations, c.transaction, c.merchant).value].id, Held, Released);
    case Finalize(c, _, _) =>
      TransitionKeeps(s.reservations, s.reservations[RowFor(s.reservations, c.transaction, c.merchant).value].id, Held, Settled);
    case MoveToReview(c) =>
      TransitionKeeps(s.reservations, s.reservations[RowFor(s.reservations, c.transaction, c.merchant).value].id, Held, UnderReview);
    case ReleaseFromReview(c) =>
      TransitionKeeps(s.reservations, s.reservations[RowFor(s.reservations, c.transaction, c.merchant).value].id, UnderReview, Released);
    case _ =>
  }

  /** The charges a committed call leaves. */
  function ChargesAfter(s: Store, op: Op): Result<seq<Charge>, OpError> {
    match op
    case ChargeFee(f) =>
      if FeeClosed(s, f) then Success(s.charges)
      else if TakesFee(s, f) then InsertPaid(s.charges, f)
      else InsertArrears(s.charges, f)
    case WaiveFee(m, period, reason) => Success(Waive(s.charges, m, period, reason))
    case _ => Success(s.charges)
  }

  lemma CommitCharges(s: Store, op: Op)
    requires Commits(s, op)
    ensures ChargesAfter(s, op) == Success(Next(s, op).charges)
  {
  }

  lemma ChargesStayValid(s: Store, op: Op)
    requires Valid(s) && Commits(s, op)
    ensures ValidCharges(Next(s, op).charges)
  {
    CommitCharges(s, op);
  }

  lemma ValidIsKept(s: Store, op: Op)
    requires Valid(s)
    ensures Valid(Next(s, op))
  {
    if Commits(s, op) {
      CommitAppends(s, op);
      if LinesOf(s, op) != [] {
        AppendKeepsWellPosted(s.entries, PostingIdOf(op), LinesOf(s, op));
      } else {
        assert Next(s, op).entries == s.entries;
      }
      RowsStayValid(s, op);
      ChargesStayValid(s, op);
    }
  }
}
