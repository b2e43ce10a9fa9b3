/** What every run of the operations keeps, and exactly which calls keep it. */
module Books {
  import opened Wrappers
  import opened Ledger
  import opened Operations
  import opened Effects

  // --- two representations of one balance ------------------------------------------------

  /** The ledger's held buckets hold what the live reservations say they hold. */
  ghost predicate ReconciledFor(s: Store, m: string) {
    && Net(s.entries, MerchantReserved, m) == RowSum(s.reservations, m, Held)
    && Net(s.entries, MerchantUnderReview, m) == RowSum(s.reservations, m, UnderReview)
  }

  ghost predicate Reconciled(s: Store) {
    forall m :: ReconciledFor(s, m)
  }

  lemma {:induction false} OwnedIsFourBuckets(es: seq<Entry>, m: string)
    ensures Total(es, MerchantOwned(m)) ==
            Available(es, m) + Net(es, MerchantReserved, m) + Net(es, MerchantUnderReview, m)
  {
    if es != [] {
      OwnedIsFourBuckets(es[..|es| - 1], m);
    }
  }

  /**
   * The two calculations always agree on the total, and agree on all four views exactly when the
   * merchant's buckets and reservations reconcile.
   */
  lemma TwoCalculations(s: Store, m: string)
    ensures ComputeBalance(m, s.entries, s.reservations).total == BalanceFor(s.entries, m).total
    ensures ComputeBalance(m, s.entries, s.reservations) == BalanceFor(s.entries, m) <==> ReconciledFor(s, m)
  {
    OwnedIsFourBuckets(s.entries, m);
  }

  lemma {:induction false} RowSumUpdate(rows: seq<Reservation>, at: nat, r: Reservation, m: string, st: ReservationStatus)
    requires at < |rows|
    ensures RowSum(rows[at := r], m, st) == RowSum(rows, m, st) - RowShare(rows[at], m, st) + RowShare(r, m, st)
    decreases |rows|
  {
    var last := |rows| - 1;
    if at == last {
      assert rows[at := r][..last] == rows[..last];
    } else {
      assert rows[at := r][..last] == rows[..last][at := r];
      RowSumUpdate(rows[..last], at, r, m, st);
    }
  }

  lemma RowSumAppend(rows: seq<Reservation>, r: Reservation, m: string, st: ReservationStatus)
    ensures RowSum(rows + [r], m, st) == RowSum(rows, m, st) + RowShare(r, m, st)
  {
    assert (rows + [r])[..|rows|] == rows;
  }

  /**
   * The calls that keep the books reconciled: a reservation under a new id (or re-holding a resolved row
   * of the same shop and amount), and a resolution for the amount the row holds.
   */
  predicate Agrees(s: Store, op: Op) {
    match op
    case Reserve(c, id) =>
      var at := RowById(s.reservations, ReservationId(c, id));
      at.None? ||
      var r := s.reservations[at.value];
      r.merchant == c.merchant && r.amount == c.amount && (r.status == Released || r.status == Settled)
    case Release(c) => RowHolds(s, c)
    case Finalize(c, _, _) => RowHolds(s, c)
    case MoveToReview(c) => RowHolds(s, c)
    case ReleaseFromReview(c) => RowHolds(s, c)
    case _ => true
  }

  predicate RowHolds(s: Store, c: Context) {
    var at := RowFor(s.reservations, c.transaction, c.merchant);
    at.Some? ==> s.reservations[at.value].amount == c.amount
  }

  /** How a committed call changes the sum of one merchant's reservations in one status. */
  function RowDelta(s: Store, op: Op, m: string, st: ReservationStatus): int {
    match op
    case Reserve(c, id) =>
      var at := RowById(s.reservations, ReservationId(c, id));
      if at.None? then If(c.merchant == m && st == Held, c.amount)
      else Shift(s.reservations[at.value], Held, m, st)
    case Release(c) => MovedRow(s, c, Released, m, st)
    case Finalize(c, _, _) => MovedRow(s, c, Settled, m, st)
    case MoveToReview(c) => MovedRow(s, c, UnderReview, m, st)
    case ReleaseFromReview(c) => MovedRow(s, c, Released, m, st)
    case _ => 0
  }

  function Shift(r: Reservation, to: ReservationStatus, m: string, st: ReservationStatus): int {
    If(r.merchant == m && st == to, r.amount) - If(r.merchant == m && st == r.status, r.amount)
  }

  function MovedRow(s: Store, c: Context, to: ReservationStatus, m: string, st: ReservationStatus): int {
    var at := RowFor(s.reservations, c.transaction, c.merchant);
    if at.None? then 0 else Shift(s.reservations[at.value], to, m, st)
  }

  lemma TransitionSum(rows: seq<Reservation>, id: string, from: ReservationStatus, to: ReservationStatus,
                      m: string, st: ReservationStatus)
    requires Transition(rows, id, from, to).Success?
    ensures RowSum(Transition(rows, id, from, to).value, m, st) ==
            RowSum(rows, m, st) + Shift(rows[RowById(rows, id).value], to, m, st)
  {
    var at := RowById(rows, id).value;
    RowSumUpdate(rows, at, rows[at].(status := to), m, st);
  }

  lemma MovedSum(s: Store, c: Context, from: ReservationStatus, to: ReservationStatus, m: string, st: ReservationStatus)
    requires Valid(s) && RowMoved(s, c, from, to).Success?
    ensures RowSum(RowMoved(s, c, from, to).value, m, st) == RowSum(s.reservations, m, st) + MovedRow(s, c, to, m, st)
  {
    var at := RowFor(s.reservations, c.transaction, c.merchant).value;
    RowIsUnique(s.reservations, at);
    TransitionSum(s.reservations, s.reservations[at].id, from, to, m, st);
  }

  lemma SavedSum(rows: seq<Reservation>, r: Reservation, m: string, st: ReservationStatus)
    requires SaveReservation(rows, r).Success?
    ensures RowSum(SaveReservation(rows, r).value, m, st) ==
            RowSum(rows, m, st) + (if RowById(rows, r.id).None? then RowShare(r, m, st)
                                   else Shift(rows[RowById(rows, r.id).value], r.status, m, st))
  {
    var at := RowById(rows, r.id);
    if at.Some? {
      RowSumUpdate(rows, at.value, rows[at.value].(status := r.status), m, st);
    } else {
      RowSumAppend(rows, r, m, st);
    }
  }

  lemma RowEffect(s: Store, op: Op, m: string, st: ReservationStatus)
    requires Valid(s)
    ensures RowSum(Next(s, op).reservations, m, st) ==
            RowSum(s.reservations, m, st) + If(Commits(s, op), RowDelta(s, op, m, st))
  {
    if Commits(s, op) {
      CommitRows(s, op);
      match op
      case Reserve(c, id) =>
        SavedSum(s.reservations, Reservation(ReservationId(c, id), c.merchant, c.transaction, c.amount, Held), m, st);
      case Release(c) => MovedSum(s, c, Held, Released, m, st);
      case Finalize(c, _, _) => MovedSum(s, c, Held, Settled, m, st);
      case MoveToReview(c) => MovedSum(s, c, Held, UnderReview, m, st);
      case ReleaseFromReview(c) => MovedSum(s, c, UnderReview, Released, m, st);
      case _ =>
    }
  }

  /** Whether one merchant's two held buckets and its rows move by the same amounts. */
  ghost predicate InStep(s: Store, op: Op, m: string) {
    && Delta(s, op, MerchantReserved, Some(m)) == RowDelta(s, op, m, Held)
    && Delta(s, op, MerchantUnderReview, Some(m)) == RowDelta(s, op, m, UnderReview)
  }

  lemma ResolutionInStep(s: Store, op: Op, m: string)
    requires Guard(s, op) && (op.Release? || op.Finalize? || op.MoveToReview? || op.ReleaseFromReview?)
    ensures Agrees(s, op) ==> InStep(s, op, m)
    ensures !Agrees(s, op) && m == op.ctx.merchant ==> !InStep(s, op, m)
  {
    var at := RowFor(s.reservations, op.ctx.transaction, op.ctx.merchant).value;
    var r := s.reservations[at];
    assert r.merchant == op.ctx.merchant;
    assert Agrees(s, op) <==> r.amount == op.ctx.amount;
    match op
    case Release(c) =>
      assert RowDelta(s, op, m, Held) == Shift(r, Released, m, Held);
      assert RowDelta(s, op, m, UnderReview) == Shift(r, Released, m, UnderReview);
    case Finalize(c, _, _) =>
      assert RowDelta(s, op, m, Held) == Shift(r, Settled, m, Held);
      assert RowDelta(s, op, m, UnderReview) == Shift(r, Settled, m, UnderReview);
    case MoveToReview(c) =>
      assert RowDelta(s, op, m, Held) == Shift(r, UnderReview, m, Held);
      assert RowDelta(s, op, m, UnderReview) == Shift(r, UnderReview, m, UnderReview);
    case ReleaseFromReview(c) =>
      assert RowDelta(s, op, m, Held) == Shift(r, Released, m, Held);
      assert RowDelta(s, op, m, UnderReview) == Shift(r, Released, m, UnderReview);
  }

  lemma ReserveInStep(s: Store, op: Op, m: string)
    requires Valid(s) && Guard(s, op) && op.Reserve?
    ensures Agrees(s, op) ==> InStep(s, op, m)
    ensures !Agrees(s, op) && m == op.ctx.merchant ==> !InStep(s, op, m)
  {
  }

  lemma InStepExactly(s: Store, op: Op, m: string)
    requires Valid(s) && Guard(s, op)
    ensures Agrees(s, op) ==> InStep(s, op, m)
    ensures !Agrees(s, op) ==>
              && (op.Reserve? || op.Release? || op.Finalize? || op.MoveToReview? || op.ReleaseFromReview?)
              && (m == op.ctx.merchant ==> !InStep(s, op, m))
  {
    match op
    case Reserve(_, _) => ReserveInStep(s, op, m);
    case Release(_) => ResolutionInStep(s, op, m);
    case Finalize(_, _, _) => ResolutionInStep(s, op, m);
    case MoveToReview(_) => ResolutionInStep(s, op, m);
    case ReleaseFromReview(_) => ResolutionInStep(s, op, m);
    case _ =>
  }

  lemma ReconciledStep(s: Store, op: Op, m: string)
    requires Valid(s) && Commits(s, op) && ReconciledFor(s, m)
    ensures ReconciledFor(Next(s, op), m) <==> InStep(s, op, m)
  {
    PostingEffect(s, op, MerchantReserved, Some(m));
    PostingEffect(s, op, MerchantUnderReview, Some(m));
    RowEffect(s, op, m, Held);
    RowEffect(s, op, m, UnderReview);
  }

  lemma AgreementReconciles(s: Store, op: Op)
    requires Valid(s) && Reconciled(s) && Commits(s, op) && Agrees(s, op)
    ensures Reconciled(Next(s, op))
  {
    CommitsExactly(s, op);
    forall m
      ensures ReconciledFor(Next(s, op), m)
    {
      assert ReconciledFor(s, m);
      InStepExactly(s, op, m);
      ReconciledStep(s, op, m);
    }
  }

  lemma DisagreementShows(s: Store, op: Op)
    requires Valid(s) && Reconciled(s) && Commits(s, op) && !Agrees(s, op)
    ensures (op.Reserve? || Resolves(op)) && !ReconciledFor(Next(s, op), op.ctx.merchant)
  {
    CommitsExactly(s, op);
    InStepExactly(s, op, "");
    assert ReconciledFor(s, op.ctx.merchant);
    InStepExactly(s, op, op.ctx.merchant);
    ReconciledStep(s, op, op.ctx.merchant);
  }

  /**
   * From reconciled books, a call leaves reconciled books exactly when it is refused or it agrees with
   * the rows it names.
   */
  lemma ReconcilesExactly(s: Store, op: Op)
    requires Valid(s) && Reconciled(s)
    ensures Reconciled(Next(s, op)) <==> (Commits(s, op) ==> Agrees(s, op))
  {
    if Commits(s, op) {
      if Agrees(s, op) {
        AgreementReconciles(s, op);
      } else {
        DisagreementShows(s, op);
      }
    }
  }

  // --- no overdraft -----------------------------------------------------------------------

  ghost predicate NoOverdraft(s: Store) {
    forall m :: Available(s.entries, m) >= 0
  }

  /** Every operation checks or credits the available balance itself, except a shop transfer. */
  predicate Covered(s: Store, op: Op) {
    match op
    case ShopTransfer(from, to, a, fee, _) => (if from == to then fee else a + fee) <= Available(s.entries, from)
    case _ => true
  }

  lemma AvailableEffect(s: Store, op: Op, m: string)
    requires Valid(s)
    ensures Available(Next(s, op).entries, m) ==
            Available(s.entries, m) + If(Commits(s, op), Delta(s, op, MerchantAvailable, Some(m)))
  {
    PostingEffect(s, op, MerchantAvailable, Some(m));
    PostingEffect(s, op, MerchantFunds, Some(m));
  }

  /** A call leaves some merchant overdrawn exactly when it commits a transfer its sender cannot cover. */
  lemma OverdraftExactly(s: Store, op: Op)
    requires Valid(s) && NoOverdraft(s)
    ensures NoOverdraft(Next(s, op)) <==> (Commits(s, op) ==> Covered(s, op))
  {
    CommitsExactly(s, op);
    forall m
      ensures Covered(s, op) ==> Available(Next(s, op).entries, m) >= 0
    {
      assert Available(s.entries, m) >= 0;
      AvailableEffect(s, op, m);
    }
    if Commits(s, op) && !Covered(s, op) {
      AvailableEffect(s, op, op.sender);
    }
  }

  /** A merchant's profit bucket goes below zero exactly when a transfer to balance exceeds it. */
  lemma ProfitExactly(s: Store, op: Op, m: string)
    requires Valid(s) && Net(s.entries, TelgaRevenue, m) >= 0
    ensures Net(Next(s, op).entries, TelgaRevenue, m) >= 0 <==>
            !(Commits(s, op) && op.ProfitToBalance? && op.merchant == m && op.amount > Net(s.entries, TelgaRevenue, m))
    ensures op.ChargeFee? || op.WaiveFee? ==> Net(Next(s, op).entries, TelgaRevenue, m) == Net(s.entries, TelgaRevenue, m)
  {
    CommitsExactly(s, op);
    PostingEffect(s, op, TelgaRevenue, Some(m));
  }

  // --- one posting per reservation, each way -------------------------------------------------

  function Legs(s: Store, kind: AccountKind, direction: Direction, sale: string): nat {
    Count(s.entries, SaleLegs(kind, direction, sale))
  }

  /** The number of postings in and out of a sale's two held buckets that its row accounts for. */
  ghost predicate LegsMatch(s: Store, sale: string, row: Option<Reservation>) {
    var reservedOut, reviewIn, reviewOut :=
      Legs(s, MerchantReserved, Debit, sale),
      Legs(s, MerchantUnderReview, Credit, sale),
      Legs(s, MerchantUnderReview, Debit, sale);
    && Legs(s, MerchantReserved, Credit, sale) == (if row.None? then 0 else 1)
    && if row.None? || row.value.status == Held then reservedOut == 0 && reviewIn == 0 && reviewOut == 0
       else
         && reservedOut == 1
         && match row.value.status
            case UnderReview => reviewIn == 1 && reviewOut == 0
            case Settled => reviewIn == 0 && reviewOut == 0
            case _ => reviewIn == reviewOut <= 1
  }

  /** The reservation row of a sale. */
  function RowOf(rows: seq<Reservation>, sale: string): Option<Reservation> {
    if rows == [] then None
    else if rows[|rows| - 1].transaction == sale then Some(rows[|rows| - 1])
    else RowOf(rows[..|rows| - 1], sale)
  }

  /** Every sale's postings are the ones its reservation accounts for. */
  ghost predicate ResolvedOnce(s: Store) {
    forall sale :: LegsMatch(s, sale, RowOf(s.reservations, sale))
  }

  /** A reservation under an id no row has: what a fresh id gives. */
  predicate NewReservation(s: Store, op: Op) {
    op.Reserve? ==> RowById(s.reservations, ReservationId(op.ctx, op.reservationId)).None?
  }

  lemma {:induction false} RowAt(rows: seq<Reservation>, i: nat)
    requires ValidRows(rows) && i < |rows|
    ensures RowOf(rows, rows[i].transaction) == Some(rows[i])
  {
    if i < |rows| - 1 {
      RowAt(rows[..|rows| - 1], i);
    }
  }

  lemma {:induction false} RowAbsent(rows: seq<Reservation>, sale: string)
    ensures RowOf(rows, sale).None? <==> !TransactionHasRow(rows, sale)
  {
    if rows != [] {
      RowAbsent(rows[..|rows| - 1], sale);
      assert TransactionHasRow(rows[..|rows| - 1], sale) ==> TransactionHasRow(rows, sale) by {
        if TransactionHasRow(rows[..|rows| - 1], sale) {
          var j :| 0 <= j < |rows| - 1 && rows[..|rows| - 1][j].transaction == sale;
          assert rows[j].transaction == sale;
        }
      }
      if TransactionHasRow(rows, sale) && rows[|rows| - 1].transaction != sale {
        var j :| 0 <= j < |rows| && rows[j].transaction == sale;
        assert rows[..|rows| - 1][j].transaction == sale;
      }
    }
  }

  lemma {:induction false} RowElsewhere(rows: seq<Reservation>, at: nat, r: Reservation, sale: string)
    requires at < |rows| && r.transaction == rows[at].transaction && sale != r.transaction
    ensures RowOf(rows[at := r], sale) == RowOf(rows, sale)
    decreases |rows|
  {
    var last := |rows| - 1;
    if at == last {
      assert rows[at := r][..last] == rows[..last];
    } else {
      assert rows[at := r][..last] == rows[..last][at := r];
      RowElsewhere(rows[..last], at, r, sale);
    }
  }

  lemma RowAppended(rows: seq<Reservation>, r: Reservation, sale: string)
    ensures RowOf(rows + [r], sale) == if r.transaction == sale then Some(r) else RowOf(rows, sale)
  {
    assert (rows + [r])[..|rows|] == rows;
  }

  lemma RowUpdated(rows: seq<Reservation>, at: nat, status: ReservationStatus, sale: string)
    requires ValidRows(rows) && at < |rows|
    ensures RowOf(rows[at := rows[at].(status := status)], sale) ==
            if rows[at].transaction == sale then Some(rows[at].(status := status)) else RowOf(rows, sale)
  {
    var rows' := rows[at := rows[at].(status := status)];
    if rows[at].transaction == sale {
      RowAt(rows', at);
    } else {
      RowElsewhere(rows, at, rows'[at], sale);
    }
  }

  /** How a committed call changes the postings of one sale's two held buckets. */
  function LegDelta(op: Op, kind: AccountKind, direction: Direction, sale: string): nat {
    match op
    case Reserve(c, _) => Hit(c, sale, kind == MerchantReserved && direction == Credit)
    case Release(c) => Hit(c, sale, kind == MerchantReserved && direction == Debit)
    case Finalize(c, _, _) => Hit(c, sale, kind == MerchantReserved && direction == Debit)
    case MoveToReview(c) =>
      Hit(c, sale, (kind == MerchantReserved && direction == Debit) || (kind == MerchantUnderReview && direction == Credit))
    case ReleaseFromReview(c) => Hit(c, sale, kind == MerchantUnderReview && direction == Debit)
    case _ => 0
  }

  function Hit(c: Context, sale: string, here: bool): nat {
    if here && c.transaction == sale then 1 else 0
  }

  lemma LinesMeetLegs(s: Store, op: Op, kind: AccountKind, direction: Direction, sale: string)
    requires kind == MerchantReserved || kind == MerchantUnderReview
    ensures LinesCount(LinesOf(s, op), SaleLegs(kind, direction, sale)) == LegDelta(op, kind, direction, sale)
  {
    LinesWeight(s, op, SaleLegs(kind, direction, sale));
  }

  lemma LegEffect(s: Store, op: Op, kind: AccountKind, direction: Direction, sale: string)
    requires Valid(s) && Commits(s, op) && (kind == MerchantReserved || kind == MerchantUnderReview)
    ensures Legs(Next(s, op), kind, direction, sale) == Legs(s, kind, direction, sale) + LegDelta(op, kind, direction, sale)
  {
    TotalsStep(s, op, SaleLegs(kind, direction, sale));
    LinesMeetLegs(s, op, kind, direction, sale);
  }

  /** The status a resolution gives its row. */
  function StatusAfter(op: Op): ReservationStatus {
    match op
    case Finalize(_, _, _) => Settled
    case MoveToReview(_) => UnderReview
    case _ => Released
  }

  predicate Resolves(op: Op) {
    op.Release? || op.Finalize? || op.MoveToReview? || op.ReleaseFromReview?
  }

  /** The row a committed call finds on its own sale. */
  lemma RowBefore(s: Store, op: Op)
    requires Valid(s) && Commits(s, op)
    ensures op.Reserve? && NewReservation(s, op) ==> RowOf(s.reservations, op.ctx.transaction) == None
    ensures Resolves(op) ==>
              var row := RowOf(s.reservations, op.ctx.transaction);
              && row.Some? && row.value.merchant == op.ctx.merchant
              && row.value.status == if op.ReleaseFromReview? then UnderReview else Held
  {
    CommitsExactly(s, op);
    if op.Reserve? {
      RowAbsent(s.reservations, op.ctx.transaction);
    } else if Resolves(op) {
      RowAt(s.reservations, RowFor(s.reservations, op.ctx.transaction, op.ctx.merchant).value);
    }
  }

  /** A sale's row after a committed call: a reservation under a taken id re-holds the row that has it. */
  lemma RowAfterCall(s: Store, op: Op, sale: string)
    requires Valid(s) && Commits(s, op)
    ensures RowOf(Next(s, op).reservations, sale) ==
            if op.Reserve? && NewReservation(s, op) && op.ctx.transaction == sale then
              Some(Reservation(ReservationId(op.ctx, op.reservationId), op.ctx.merchant, sale, op.ctx.amount, Held))
            else if op.Reserve? && !NewReservation(s, op) && TakenRow(s, op).transaction == sale then
              Some(TakenRow(s, op).(status := Held))
            else if Resolves(op) && op.ctx.transaction == sale && RowOf(s.reservations, sale).Some? then
              Some(RowOf(s.reservations, sale).value.(status := StatusAfter(op)))
            else RowOf(s.reservations, sale)
  {
    CommitRows(s, op);
    RowBefore(s, op);
    if op.Reserve? {
      var c := op.ctx;
      if NewReservation(s, op) {
        RowAppended(s.reservations, Reservation(ReservationId(c, op.reservationId), c.merchant, c.transaction, c.amount, Held), sale);
      } else {
        RowUpdated(s.reservations, RowById(s.reservations, ReservationId(c, op.reservationId)).value, Held, sale);
      }
    } else if Resolves(op) {
      var at := RowFor(s.reservations, op.ctx.transaction, op.ctx.merchant).value;
      RowIsUnique(s.reservations, at);
      RowAt(s.reservations, at);
      RowUpdated(s.reservations, at, StatusAfter(op), sale);
    }
  }

  /** The row whose id a reservation brings again. */
  function TakenRow(s: Store, op: Op): Reservation
    requires op.Reserve? && !NewReservation(s, op)
  {
    s.reservations[RowById(s.reservations, ReservationId(op.ctx, op.reservationId)).value]
  }

  lemma AllLegs(s: Store, op: Op, sale: string)
    requires Valid(s) && Commits(s, op)
    ensures forall kind, direction :: kind == MerchantReserved || kind == MerchantUnderReview ==>
              Legs(Next(s, op), kind, direction, sale) == Legs(s, kind, direction, sale) + LegDelta(op, kind, direction, sale)
  {
    forall kind: AccountKind, direction | kind == MerchantReserved || kind == MerchantUnderReview {
      LegEffect(s, op, kind, direction, sale);
    }
  }

  lemma NewStatusMatches(s: Store, op: Op, sale: string)
    requires Valid(s) && Commits(s, op) && NewReservation(s, op)
    requires LegsMatch(s, sale, RowOf(s.reservations, sale))
    ensures LegsMatch(Next(s, op), sale, RowOf(Next(s, op).reservations, sale))
  {
    AllLegs(s, op, sale);
    RowBefore(s, op);
    RowAfterCall(s, op, sale);
  }

  lemma ReHoldMismatch(s: Store, op: Op)
    requires Valid(s) && Commits(s, op) && ResolvedOnce(s) && !NewReservation(s, op)
    ensures !LegsMatch(Next(s, op), op.ctx.transaction, RowOf(Next(s, op).reservations, op.ctx.transaction))
  {
    var c := op.ctx;
    var at := RowById(s.reservations, ReservationId(c, op.reservationId)).value;
    AllLegs(s, op, c.transaction);
    CommitRows(s, op);
    RowAt(s.reservations, at);
    RowUpdated(s.reservations, at, Held, c.transaction);
    assert LegsMatch(s, c.transaction, RowOf(s.reservations, c.transaction));
  }

  /**
   * From a state where every reservation was resolved at most once, a call keeps that exactly when it is
   * not a committed reservation under an id some row already has.
   */
  lemma ResolvedOnceExactly(s: Store, op: Op)
    requires Valid(s) && ResolvedOnce(s)
    ensures ResolvedOnce(Next(s, op)) <==> (Commits(s, op) ==> NewReservation(s, op))
  {
    if Commits(s, op) {
      if NewReservation(s, op) {
        forall sale
          ensures LegsMatch(Next(s, op), sale, RowOf(Next(s, op).reservations, sale))
        {
          assert LegsMatch(s, sale, RowOf(s.reservations, sale));
          NewStatusMatches(s, op, sale);
        }
      } else {
        ReHoldMismatch(s, op);
      }
    }
  }
}
