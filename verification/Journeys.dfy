/**
 * The states the transactions table holds over a run. A service that has the sale in memory checks its own
 * moves against the table of legal ones, but the row is written whatever it holds by then.
 */
module Journeys {
  import opened Wrappers
  import opened Ledger
  import opened Operations
  import opened Effects
  import opened Books
  import opened Runs
  import opened States
  import opened Sales

  // --- one unit of work ---------------------------------------------------------------------------

  /** Every sale's stored state is where it was, or where a legal path leads from there. */
  ghost predicate FollowsTable(w: World, w': World) {
    forall sale :: sale in w.sales ==> sale in w'.sales && Reaches(w.sales[sale].state, w'.sales[sale].state)
  }

  /** The sale a unit of work would write, and the state it would leave. */
  function Target(w: World, a: Act): Option<(string, TransactionState)> {
    match a
    case CreateSale(c, _, _) => Some((c.sale, TransactionState.Reserved))
    case ReverseSettled(c) =>
      if Found(w, c) && w.sales[c.sale].state == Successful then Some((c.sale, Reversed)) else None
    case Elsewhere(_) => None
    case _ =>
      if Found(w, a.call) && PlanOf(w, a).Move? && PlanOf(w, a).path != []
      then Some((a.call.sale, PlanOf(w, a).path[|PlanOf(w, a).path| - 1])) else None
  }

  /** The state to be written is one the stored state can still become. */
  predicate InTurn(w: World, a: Act) {
    var target := Target(w, a);
    target.Some? && target.value.0 in w.sales ==> Upward(w.sales[target.value.0].state, target.value.1)
  }

  /** What a caller could check beforehand to know that a unit of work will write something about a sale. */
  ghost predicate GoesThrough(w: World, a: Act) {
    Target(w, a).Some? && (OpOf(w, a).Some? ==> Guard(w.store, OpOf(w, a).value))
  }

  /** A unit of work leaves its target when it goes through, and the transactions table as it was when not. */
  ghost predicate Writes(w: World, a: Act) {
    var w' := StepWorld(w, a);
    if !GoesThrough(w, a) then w'.sales == w.sales
    else
      var (sale, state) := Target(w, a).value;
      && sale in w'.sales && w'.sales[sale].state == state
      && w'.sales == w.sales[sale := w'.sales[sale]]
  }

  lemma PlannedWrites(w: World, a: Act)
    requires Valid(w.store) && Planned(w, a)
    ensures Writes(w, a)
  {
    PlansAreLegal(w, a);
    if OpOf(w, a).Some? {
      CommitsExactly(w.store, OpOf(w, a).value);
    }
  }

  lemma WritesTarget(w: World, a: Act)
    requires Valid(w.store)
    ensures Writes(w, a)
  {
    if Planned(w, a) {
      PlannedWrites(w, a);
    } else if OpOf(w, a).Some? {
      CommitsExactly(w.store, OpOf(w, a).value);
    }
  }

  /**
   * A unit of work moves the stored state along a legal path, or not at all, exactly when its operation is
   * refused or the state it writes is one the stored state can still become.
   */
  lemma MovesInTurnExactly(w: World, a: Act)
    requires Valid(w.store)
    ensures FollowsTable(w, StepWorld(w, a)) <==> (GoesThrough(w, a) ==> InTurn(w, a))
  {
    WritesTarget(w, a);
    if GoesThrough(w, a) {
      var (sale, state) := Target(w, a).value;
      if sale in w.sales {
        ReachesExactly(w.sales[sale].state, state);
      }
    }
  }

  /** A service whose reading is still current is always in turn, and so is a sale not seen before. */
  lemma CurrentReadingIsInTurn(w: World, a: Act)
    requires Valid(w.store) && (a.CreateSale? ==> a.call.sale !in w.sales)
    requires !a.ReverseSettled?
    requires Planned(w, a) && PlanOf(w, a).Move? ==> PlanOf(w, a).seen == w.sales[a.call.sale].state
    ensures InTurn(w, a) && FollowsTable(w, StepWorld(w, a))
  {
    MovesInTurnExactly(w, a);
    if Planned(w, a) {
      PlansAreLegal(w, a);
      if PlanOf(w, a).Move? {
        PathsClimb(PlanOf(w, a).seen, PlanOf(w, a).path);
      }
    }
  }

  // --- runs ---------------------------------------------------------------------------------------

  /** A legal path, or the console's reversal of a settled sale, for which the table has no move. */
  ghost predicate Proceeds(from: TransactionState, to: TransactionState) {
    Reaches(from, to) || (from == Successful && to == Reversed)
  }

  /** The rank, with a reversal above the settlement it undoes. */
  function Height(state: TransactionState): nat {
    if state == Reversed then 9 else Rank(state)
  }

  lemma ProceedsExactly(from: TransactionState, to: TransactionState)
    ensures Proceeds(from, to) <==> Upward(from, to) || (from == Successful && to == Reversed)
    ensures Proceeds(from, to) ==> from == to || Height(from) < Height(to)
  {
    ReachesExactly(from, to);
  }

  lemma ProceedsOnward(a: TransactionState, b: TransactionState, c: TransactionState)
    requires Proceeds(a, b) && Proceeds(b, c)
    ensures Proceeds(a, c)
  {
    ProceedsExactly(a, b);
    ProceedsExactly(b, c);
    ProceedsExactly(a, c);
  }

  /** Every unit of work of the run that goes through is in turn, or reverses a settled sale. */
  ghost predicate AllInTurn(w: World, acts: seq<Act>)
    decreases |acts|
  {
    acts == [] ||
    ((GoesThrough(w, acts[0]) ==> InTurn(w, acts[0]) || acts[0].ReverseSettled?) && AllInTurn(StepWorld(w, acts[0]), acts[1..]))
  }

  /** How often a run rewrites a sale's stored state with a different one. */
  function Rewrites(w: World, acts: seq<Act>, sale: string): nat
    decreases |acts|
  {
    if acts == [] then 0
    else
      var w' := StepWorld(w, acts[0]);
      (if sale in w.sales && sale in w'.sales && w'.sales[sale].state != w.sales[sale].state then 1 else 0)
      + Rewrites(w', acts[1..], sale)
  }

  lemma StepProceeds(w: World, a: Act, sale: string)
    requires Valid(w.store) && sale in w.sales
    requires GoesThrough(w, a) ==> InTurn(w, a) || a.ReverseSettled?
    ensures Valid(StepWorld(w, a).store)
    ensures var w' := StepWorld(w, a);
            sale in w'.sales && Proceeds(w.sales[sale].state, w'.sales[sale].state)
  {
    StoreStep(w, a);
    if OpOf(w, a).Some? {
      ValidIsKept(w.store, OpOf(w, a).value);
    }
    if a.ReverseSettled? {
      ReachesExactly(w.sales[sale].state, w.sales[sale].state);
    } else {
      MovesInTurnExactly(w, a);
    }
  }

  lemma Climbs(a: TransactionState, b: TransactionState, c: TransactionState, later: nat)
    requires Proceeds(a, b) && Proceeds(b, c) && later <= Height(c) - Height(b)
    ensures Proceeds(a, c) && (if a != b then 1 else 0) + later <= Height(c) - Height(a)
    ensures a == TransactionState.Reserved ==> Height(c) - Height(a) <= 7
  {
    ProceedsExactly(a, b);
    ProceedsOnward(a, b, c);
  }

  /**
   * Over every run in turn, a sale's stored state only moves forward: from any point of the run to any later
   * one there is a legal path (or the one correction), it never comes back to a state it left, and it is
   * rewritten at most as often as there are ranks to climb, so at most seven times after its reservation.
   */
  lemma {:induction false} RunProceeds(w: World, acts: seq<Act>, sale: string)
    requires Valid(w.store) && AllInTurn(w, acts) && sale in w.sales
    ensures sale in RunWorld(w, acts).sales
    ensures var from, to := w.sales[sale].state, RunWorld(w, acts).sales[sale].state;
            && Proceeds(from, to) && Rewrites(w, acts, sale) <= Height(to) - Height(from)
            && (from == TransactionState.Reserved ==> Rewrites(w, acts, sale) <= 7)
    decreases |acts|
  {
    if acts == [] {
      ProceedsExactly(w.sales[sale].state, w.sales[sale].state);
    } else {
      var w1 := StepWorld(w, acts[0]);
      StepProceeds(w, acts[0], sale);
      RunProceeds(w1, acts[1..], sale);
      Climbs(w.sales[sale].state, w1.sales[sale].state, RunWorld(w1, acts[1..]).sales[sale].state,
             Rewrites(w1, acts[1..], sale));
    }
  }

  // --- the readings that go wrong --------------------------------------------------------------------

  lemma OffTheTable(w: World, w': World, sale: string)
    requires sale in w.sales && sale in w'.sales && !Upward(w.sales[sale].state, w'.sales[sale].state)
    ensures !FollowsTable(w, w')
  {
    ReachesExactly(w.sales[sale].state, w'.sales[sale].state);
  }

  lemma SilenceWrites(w: World, c: Call)
    requires Found(w, c)
    ensures StepWorld(w, Answer(c, NoAnswer)) == w.(sales := w.sales[c.sale := w.sales[c.sale].(state := Pending)])
    ensures StillHolds(w, Answer(c, NoAnswer)) <==>
            var row := RowOf(w.store.reservations, c.sale); row.Some? && StatusFits(Pending, row.value.status)
  {
    PlansAreLegal(w, Answer(c, NoAnswer));
  }

  /**
   * A provider's silence heard late: whatever finished the sale meanwhile, the service that submitted it
   * writes PENDING over it, and the three tables no longer tell one story.
   */
  lemma LateSilenceReopens(w: World, c: Call)
    requires Consistent(w) && Found(w, c) && IsTerminal(w.sales[c.sale].state)
    ensures var a := Answer(c, NoAnswer);
            var w' := StepWorld(w, a);
            && w'.sales[c.sale].state == Pending && w'.store == w.store
            && !StillHolds(w, a) && !Consistent(w') && !FollowsTable(w, w')
  {
    var a := Answer(c, NoAnswer);
    SilenceWrites(w, c);
    FinishedRefuses(w, a);
    StepExactly(w, a);
    OffTheTable(w, StepWorld(w, a), c.sale);
  }

  /** A sale funded, created and submitted. */
  function SubmittedSale(c: Call, amount: int, id: string, p0: string): World {
    RunWorld(World(EMPTY, map[]), [Elsewhere(Fund(c.merchant, amount, p0)), CreateSale(c, amount, id), Submit(c)])
  }

  lemma OnePart(w: World, a: Act, rest: seq<Act>)
    ensures RunWorld(w, [a] + rest) == RunWorld(StepWorld(w, a), rest)
  {
    assert ([a] + rest)[1..] == rest;
  }

  lemma SaleIsCreated(c: Call, amount: int, id: string, p0: string)
    requires amount > 0 && c.postingId != p0
    ensures var w1 := StepWorld(World(EMPTY, map[]), Elsewhere(Fund(c.merchant, amount, p0)));
            var w2 := StepWorld(w1, CreateSale(c, amount, id));
            && Consistent(w2) && c.sale in w2.sales
            && w2.sales[c.sale] == SaleRow(c.merchant, amount, TransactionState.Reserved)
            && (forall p :: p != p0 && p != c.postingId ==> !PostingUsed(w2.store.entries, p))
            && (forall x :: x != c.auditId ==> !AuditTaken(w2.store.audits, x))
  {
    var w0 := World(EMPTY, map[]);
    var fund := Elsewhere(Fund(c.merchant, amount, p0));
    var w1 := StepWorld(w0, fund);
    var op := Reserve(Context(c.merchant, c.sale, amount, c.postingId, c.auditId), Some(id));
    NothingSoldIsConsistent();
    FundedState(c.merchant, amount, p0);
    StepExactly(w0, fund);
    CommitsExactly(w1.store, op);
    CommitAppends(w1.store, op);
    StepExactly(w1, CreateSale(c, amount, id));
    var s2 := Next(w1.store, op);
    assert s2.audits == [AuditEvent(c.auditId, BalanceReserved, c.merchant, c.sale, "balance_reservation")];
    forall p | p != p0 && p != c.postingId
      ensures !PostingUsed(s2.entries, p)
    {
      assert !PostingUsed(w1.store.entries, p);
    }
  }

  lemma SaleIsSubmitted(c: Call, amount: int, id: string, p0: string)
    requires amount > 0 && c.postingId != p0
    ensures var w := SubmittedSale(c, amount, id, p0);
            && Consistent(w) && Found(w, c) && w.sales[c.sale].state == Processing
            && (forall p :: p != p0 && p != c.postingId ==> !PostingUsed(w.store.entries, p))
            && (forall x :: x != c.auditId ==> !AuditTaken(w.store.audits, x))
  {
    var w0 := World(EMPTY, map[]);
    var w1 := StepWorld(w0, Elsewhere(Fund(c.merchant, amount, p0)));
    var w2 := StepWorld(w1, CreateSale(c, amount, id));
    SaleIsCreated(c, amount, id, p0);
    CurrentReadingHolds(w2, Submit(c));
    StepExactly(w2, Submit(c));
    OnePart(w0, Elsewhere(Fund(c.merchant, amount, p0)), [CreateSale(c, amount, id), Submit(c)]);
    OnePart(w1, CreateSale(c, amount, id), [Submit(c)]);
    OnePart(w2, Submit(c), []);
  }

  lemma RecoveryGivesBack(w: World, c: Call)
    requires Consistent(w) && Found(w, c) && w.sales[c.sale].state == Processing
    requires !PostingUsed(w.store.entries, c.postingId) && !AuditTaken(w.store.audits, c.auditId)
    ensures var w' := StepWorld(w, RecoverLookup(c, ConfirmedFailure, false));
            Consistent(w') && Found(w', c) && w'.sales[c.sale].state == Failed
  {
    var a := RecoverLookup(c, ConfirmedFailure, false);
    FoundRow(w, c);
    assert SaleFits(w, c.sale);
    RowHasAmount(w.store.reservations, c.sale);
    CommitsExactly(w.store, Release(ContextOf(w, c)));
    PlansAreLegal(w, a);
    StepExactly(w, a);
  }

  /**
   * It happens, for every shop, sale and amount: fund, sell, submit; recovery looks the sale up, finds that it
   * failed and gives the money back; then the submitting service gives up waiting. Recovery kept everything in
   * step, and that last write does not.
   */
  lemma RecoveryThenSilence(c: Call, again: Call, amount: int, id: string, p0: string)
    requires amount > 0 && c.postingId != p0
    requires again.merchant == c.merchant && again.sale == c.sale
    requires again.postingId != p0 && again.postingId != c.postingId && again.auditId != c.auditId
    ensures var w := SubmittedSale(c, amount, id, p0);
            var w1 := StepWorld(w, RecoverLookup(again, ConfirmedFailure, false));
            var w2 := StepWorld(w1, Answer(c, NoAnswer));
            && Consistent(w1) && Found(w1, c) && w1.sales[c.sale].state == Failed
            && !Consistent(w2) && Found(w2, c) && w2.sales[c.sale].state == Pending
  {
    var w := SubmittedSale(c, amount, id, p0);
    var w1 := StepWorld(w, RecoverLookup(again, ConfirmedFailure, false));
    SaleIsSubmitted(c, amount, id, p0);
    RecoveryGivesBack(w, again);
    LateSilenceReopens(w1, c);
    SilenceWrites(w1, c);
  }

  /** A sale that went from PENDING to reversal and still has its reservation held. */
  ghost predicate SentStraight(w: World, c: Call) {
    && Consistent(w) && Found(w, c) && w.sales[c.sale].state == ReversalRequired
    && RowOf(w.store.reservations, c.sale).Some? && RowOf(w.store.reservations, c.sale).value.status == Held
  }

  /**
   * Staying in step is not staying in turn: over such a sale late silence writes PENDING back, with the money
   * still accounted for, and the table has no such move.
   */
  lemma LateSilenceGoesBack(w: World, c: Call)
    requires SentStraight(w, c)
    ensures var w' := StepWorld(w, Answer(c, NoAnswer));
            Consistent(w') && c.sale in w'.sales && w'.sales[c.sale].state == Pending && !FollowsTable(w, w')
  {
    var a := Answer(c, NoAnswer);
    SilenceWrites(w, c);
    StepExactly(w, a);
    OffTheTable(w, StepWorld(w, a), c.sale);
  }

  lemma DeliveryCommits(w: World, c: Call, bps: Option<nat>)
    requires SentStraight(w, c)
    requires !PostingUsed(w.store.entries, c.postingId) && !AuditTaken(w.store.audits, c.auditId)
    ensures Commits(w.store, Finalize(ContextOf(w, c), None, bps))
  {
    FoundRow(w, c);
    assert SaleFits(w, c.sale);
    RowHasAmount(w.store.reservations, c.sale);
    CommitsExactly(w.store, Finalize(ContextOf(w, c), None, bps));
  }

  /** And a late delivery settles it: the money follows, against the table. */
  lemma LateDeliverySettles(w: World, c: Call, bps: Option<nat>)
    requires SentStraight(w, c)
    requires !PostingUsed(w.store.entries, c.postingId) && !AuditTaken(w.store.audits, c.auditId)
    ensures var w' := StepWorld(w, Answer(c, Delivered(None, bps)));
            Consistent(w') && c.sale in w'.sales && w'.sales[c.sale].state == Successful && !FollowsTable(w, w')
  {
    var a := Answer(c, Delivered(None, bps));
    DeliveryCommits(w, c, bps);
    PlansAreLegal(w, a);
    StepExactly(w, a);
    OffTheTable(w, StepWorld(w, a), c.sale);
  }
}
