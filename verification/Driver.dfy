/** The driver's tables, changed in place, and the operations as units of work over them. */
module Driver {
  import opened Wrappers
  import opened Ledger
  import opened Operations
  import Effects
  import Books

  class SqliteLedgerDriver {
    var entries: seq<Entry>
    var reservations: seq<Reservation>
    var charges: seq<Charge>
    var audits: seq<AuditEvent>

    function Value(): Store
      reads this
    {
      Store(entries, reservations, charges, audits)
    }

    constructor ()
      ensures Value() == EMPTY
    {
      entries, reservations, charges, audits := [], [], [], [];
    }

    // --- rows ----------------------------------------------------------------------------

    /** Insert a balanced posting row by row; a refusal may leave rows behind for the rollback. */
    method AppendEntries(postingId: string, ds: seq<Draft>) returns (r: Result<(), OpError>)
      modifies this`entries
      ensures match AppendTo(old(entries), postingId, ds)
              case Success(es) => r == Success(()) && entries == es
              case Failure(e) => r == Failure(e)
    {
      var residual := Residual(ds);
      if residual != 0 {
        return Failure(LedgerRefused(NotBalanced(residual)));
      }
      var index := 0;
      while index < |ds|
        invariant index <= |ds|
        invariant InsertFrom(old(entries), postingId, ds, 0) == InsertFrom(entries, postingId, ds, index)
      {
        if ds[index].amount <= 0 {
          return Failure(LedgerRefused(CheckFailed));
        }
        if KeyTaken(entries, EntryKey(postingId, index)) {
          return Failure(LedgerRefused(DuplicateEntryId));
        }
        entries := entries + [Entry(postingId, index, ds[index])];
        index := index + 1;
      }
      r := Success(());
    }

    method FindReservation(transaction: string, merchant: string) returns (row: Option<Reservation>)
      ensures var at := RowFor(reservations, transaction, merchant);
              row == if at.Some? then Some(reservations[at.value]) else None
    {
      var at := RowFor(reservations, transaction, merchant);
      row := if at.Some? then Some(reservations[at.value]) else None;
    }

    method SaveReservationRow(row: Reservation) returns (r: Result<(), OpError>)
      modifies this`reservations
      ensures match SaveReservation(old(reservations), row)
              case Success(rows) => r == Success(()) && reservations == rows
              case Failure(e) => r == Failure(e) && reservations == old(reservations)
    {
      var at := RowById(reservations, row.id);
      if at.Some? {
        reservations := reservations[at.value := reservations[at.value].(status := row.status)];
      } else if TransactionHasRow(reservations, row.transaction) {
        return Failure(DuplicateReservation);
      } else {
        reservations := reservations + [row];
      }
      r := Success(());
    }

    /** The compare-and-set of transitionHeldReservation and transitionUnderReviewReservation. */
    method TransitionReservation(id: string, from: ReservationStatus, to: ReservationStatus) returns (moved: bool)
      modifies this`reservations
      ensures moved <==> Transition(old(reservations), id, from, to).Success?
      ensures reservations == if moved then Transition(old(reservations), id, from, to).value else old(reservations)
    {
      var at := RowById(reservations, id);
      moved := at.Some? && reservations[at.value].status == from;
      if moved {
        reservations := reservations[at.value := reservations[at.value].(status := to)];
      }
    }

    method GuardedTransition(id: string, from: ReservationStatus, to: ReservationStatus) returns (r: Result<(), OpError>)
      modifies this`reservations
      ensures match Transition(old(reservations), id, from, to)
              case Success(rows) => r == Success(()) && reservations == rows
              case Failure(e) => r == Failure(e) && reservations == old(reservations)
    {
      var moved := TransitionReservation(id, from, to);
      r := if moved then Success(()) else Failure(AlreadyResolved);
    }

    method SaveAuditEvent(c: Context, action: AuditAction, entityType: string) returns (r: Result<(), OpError>)
      modifies this`audits
      ensures match SaveAudit(old(audits), c, action, entityType)
              case Success(events) => r == Success(()) && audits == events
              case Failure(e) => r == Failure(e) && audits == old(audits)
    {
      if AuditTaken(audits, c.auditId) {
        return Failure(DuplicateAudit);
      }
      audits := audits + [AuditEvent(c.auditId, action, c.merchant, c.transaction, entityType)];
      r := Success(());
    }

    method InsertPaidCharge(f: FeeInput) returns (r: Result<(), OpError>)
      modifies this`charges
      ensures match InsertPaid(old(charges), f)
              case Success(rows) => r == Success(()) && charges == rows
              case Failure(e) => r == Failure(e) && charges == old(charges)
    {
      if f.amount <= 0 || |f.period| != 7 {
        return Failure(ChargeCheckFailed);
      }
      var at := ChargeFor(charges, f.merchant, f.period);
      if at.Some? {
        if charges[at.value].status == Arrears {
          charges := charges[at.value := charges[at.value].(status := Paid, postingId := Some(f.postingId))];
        }
      } else if ChargeIdTaken(charges, f.id) {
        return Failure(DuplicateCharge);
      } else {
        charges := charges + [Charge(f.id, f.merchant, f.period, f.amount, Paid, Some(f.postingId))];
      }
      r := Success(());
    }

    method InsertArrearsCharge(f: FeeInput) returns (r: Result<(), OpError>)
      modifies this`charges
      ensures match InsertArrears(old(charges), f)
              case Success(rows) => r == Success(()) && charges == rows
              case Failure(e) => r == Failure(e) && charges == old(charges)
    {
      if f.amount <= 0 || |f.period| != 7 {
        return Failure(ChargeCheckFailed);
      }
      if ChargeFor(charges, f.merchant, f.period).None? {
        if ChargeIdTaken(charges, f.id) {
          return Failure(DuplicateCharge);
        }
        charges := charges + [Charge(f.id, f.merchant, f.period, f.amount, Arrears, None)];
      }
      r := Success(());
    }

    // --- the bodies of the units of work ---------------------------------------------------

    method ReserveWork(c: Context, reservationId: Option<string>) returns (r: Result<(), OpError>)
      modifies this
      ensures match ReserveValue(old(Value()), c, reservationId)
              case Success(s) => r == Success(()) && Value() == s
              case Failure(e) => r == Failure(e)
    {
      var view := BalanceFor(entries, c.merchant);
      if view.available < c.amount {
        return Failure(InsufficientAvailable);
      }
      if c.amount <= 0 {
        return Failure(AmountNotPositive);
      }
      var row := Reservation(ReservationId(c, reservationId), c.merchant, c.transaction, c.amount, Held);
      var _ :- SaveReservationRow(row);
      var _ :- AppendEntries(c.postingId, BucketTransfer(c, MerchantAvailable, MerchantReserved, SaleDebit));
      r := SaveAuditEvent(c, BalanceReserved, "balance_reservation");
    }

    /** The shared shape of the four resolutions: find, compare-and-set, post, audit. */
    method ResolveWork(c: Context, from: ReservationStatus, to: ReservationStatus, ds: seq<Draft>,
                       action: AuditAction, entityType: string) returns (r: Result<(), OpError>)
      modifies this
      ensures match Resolve(old(Value()), c, from, to, ds, action, entityType)
              case Success(s) => r == Success(()) && Value() == s
              case Failure(e) => r == Failure(e)
    {
      var row := FindReservation(c.transaction, c.merchant);
      if row.None? {
        return Failure(NoReservation);
      }
      var _ :- GuardedTransition(row.value.id, from, to);
      var _ :- AppendEntries(c.postingId, ds);
      r := SaveAuditEvent(c, action, entityType);
    }

    method FinalizeWork(c: Context, profit: Option<int>, bps: Option<nat>) returns (r: Result<(), OpError>)
      modifies this
      ensures match FinalizeSuccess(old(Value()), c, profit, bps)
              case Success(s) => r == Success(()) && Value() == s
              case Failure(e) => r == Failure(e)
    {
      var kept := Clamp(profit, c.amount);
      r := ResolveWork(c, Held, Settled, SettleLines(c, kept, bps), LedgerPosted, "transaction");
    }

    method ChargeSoftwareFeeWork(f: FeeInput) returns (r: Result<FeeOutcome, OpError>)
      modifies this
      ensures match ChargeSoftwareFee(old(Value()), f)
              case Success(done) => r == Success(done.1) && Value() == done.0
              case Failure(e) => r == Failure(e)
    {
      var existing := ChargeFor(charges, f.merchant, f.period);
      if existing.Some? && charges[existing.value].status != Arrears {
        return Success(AlreadyCharged);
      }
      var available := BalanceFor(entries, f.merchant).available;
      if available < f.amount {
        var _ :- InsertArrearsCharge(f);
        return Success(InArrears(f.amount, available));
      }
      var _ :- AppendEntries(f.postingId, FeeLines(f));
      var _ :- InsertPaidCharge(f);
      r := Success(Charged(f.amount));
    }

    method PostWork(postingId: string, ds: seq<Draft>) returns (r: Result<(), OpError>)
      modifies this
      ensures match PostOnly(old(Value()), postingId, ds)
              case Success(s) => r == Success(()) && Value() == s
              case Failure(e) => r == Failure(e)
    {
      r := AppendEntries(postingId, ds);
    }

    method Work(op: Op) returns (r: Result<(), OpError>)
      modifies this
      ensures match Apply(old(Value()), op)
              case Success(s) => r == Success(()) && Value() == s
              case Failure(e) => r == Failure(e)
    {
      match op
      case Fund(m, a, p) => r := PostWork(p, FundLines(m, a));
      case ProfitToBalance(m, a, p) => r := PostWork(p, ProfitLines(m, a));
      case ReversalAdjustment(m, t, a, p) => r := PostWork(p, ReversalLines(m, t, a));
      case ShopTransfer(from, to, a, fee, p) => r := PostWork(p, TransferLines(from, to, a, fee));
      case Reserve(c, id) => r := ReserveWork(c, id);
      case Release(c) =>
        r := ResolveWork(c, Held, Released, BucketTransfer(c, MerchantReserved, MerchantAvailable, Reversal),
                         BalanceReleased, "balance_reservation");
      case Finalize(c, profit, bps) => r := FinalizeWork(c, profit, bps);
      case MoveToReview(c) =>
        r := ResolveWork(c, Held, UnderReview, BucketTransfer(c, MerchantReserved, MerchantUnderReview, Adjustment),
                         BalanceUnderReview, "balance_reservation");
      case ReleaseFromReview(c) =>
        r := ResolveWork(c, UnderReview, Released, BucketTransfer(c, MerchantUnderReview, MerchantAvailable, Reversal),
                         AdjustmentPosted, "balance_reservation");
      case ChargeFee(f) =>
        var done := ChargeSoftwareFeeWork(f);
        r := if done.Success? then Success(()) else Failure(done.error);
      case WaiveFee(m, period, reason) =>
        charges := Waive(charges, m, period, reason);
        r := Success(());
    }

    // --- the unit of work ------------------------------------------------------------------

    method Rollback(saved: Store)
      modifies this
      ensures Value() == saved
    {
      entries, reservations, charges, audits := saved.entries, saved.reservations, saved.charges, saved.audits;
    }

    /**
     * Run one operation in a write transaction: all of it is kept, or, after a throw anywhere inside, the
     * tables are exactly as they were.
     */
    method Transaction(op: Op) returns (r: Result<(), OpError>)
      modifies this
      ensures Value() == Next(old(Value()), op)
      ensures r.Success? <==> Commits(old(Value()), op)
      ensures r.Failure? ==> Value() == old(Value()) && Apply(old(Value()), op) == Failure(r.error)
    {
      var saved := Value();
      r := Work(op);
      if r.Failure? {
        Rollback(saved);
      }
    }

    /** Charge one shop's period; the outcome says which of the three it was. */
    method ChargeSoftwareFeeNow(f: FeeInput) returns (r: Result<FeeOutcome, OpError>)
      requires Effects.Valid(Value())
      modifies this
      ensures Value() == Next(old(Value()), ChargeFee(f))
      ensures r.Success? ==> Commits(old(Value()), ChargeFee(f))
      ensures r.Success? ==>
                match r.value
                case Charged(a) => a == f.amount && Available(entries, f.merchant) == old(Available(entries, f.merchant)) - a
                case InArrears(due, had) =>
                  && due == f.amount && had == Available(entries, f.merchant) < due
                  && entries == old(entries)
                case AlreadyCharged => Value() == old(Value())
      ensures r.Failure? ==> Value() == old(Value())
    {
      var saved := Value();
      r := ChargeSoftwareFeeWork(f);
      if r.Failure? {
        Rollback(saved);
      }
      Books.AvailableEffect(saved, ChargeFee(f), f.merchant);
    }
  }
}
