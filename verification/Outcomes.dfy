/** What each service's unit of work comes to, by what it was told: the state, and where the money is. */
module Outcomes {
  import opened Wrappers
  import opened Ledger
  import opened Operations
  import opened Effects
  import opened Books
  import opened Trail
  import opened States
  import opened Sales

  /** A call about a known sale, under a posting id and an audit id never used. */
  ghost predicate Fresh(w: World, c: Call) {
    && Consistent(w) && Found(w, c)
    && !PostingUsed(w.store.entries, c.postingId) && !AuditTaken(w.store.audits, c.auditId)
  }

  /** The sale's amount is still reserved. */
  ghost predicate StillHeld(w: World, c: Call) {
    var row := RowOf(w.store.reservations, c.sale);
    Found(w, c) && row.Some? && row.value.status == Held
  }

  /** Only this sale's state differs in the transactions table. */
  ghost predicate NowIn(w: World, w': World, c: Call, state: TransactionState) {
    Found(w, c) && w'.sales == w.sales[c.sale := w.sales[c.sale].(state := state)]
  }

  // --- the four things that can come of a sale -----------------------------------------------------------

  /** Sold: the amount has left the shop for good, the provider is owed it less the profit, the shop earned that. */
  ghost predicate Sold(w: World, w': World, c: Call, profit: int) {
    && NowIn(w, w', c, Successful)
    && var amount := w.sales[c.sale].amount;
       && Place(w'.store, c.sale, amount) == Some(Debited)
       && Available(w'.store.entries, c.merchant) == Available(w.store.entries, c.merchant)
       && Net(w'.store.entries, MerchantReserved, c.merchant) == Net(w.store.entries, MerchantReserved, c.merchant) - amount
       && Earned(w'.store, c.merchant) == Earned(w.store, c.merchant) + profit
       && Total(w'.store.entries, Bucket(ProviderSettlement, None)) ==
          Total(w.store.entries, Bucket(ProviderSettlement, None)) + amount - profit
  }

  /** Given back: the whole amount is available again and nobody earned anything. */
  ghost predicate GivenBack(w: World, w': World, c: Call, state: TransactionState) {
    && NowIn(w, w', c, state)
    && var amount := w.sales[c.sale].amount;
       && Place(w'.store, c.sale, amount) == Some(ValueDisposition.Released)
       && Available(w'.store.entries, c.merchant) == Available(w.store.entries, c.merchant) + amount
       && Earned(w'.store, c.merchant) == Earned(w.store, c.merchant)
  }

  /** Set aside: the amount moved from reserved to review, and none of it is available. */
  ghost predicate SetAside(w: World, w': World, c: Call) {
    && NowIn(w, w', c, TransactionState.UnderReview)
    && var amount := w.sales[c.sale].amount;
       && Place(w'.store, c.sale, amount) == Some(InReview)
       && Available(w'.store.entries, c.merchant) == Available(w.store.entries, c.merchant)
       && Earned(w'.store, c.merchant) == Earned(w.store, c.merchant)
  }

  /** Still waiting: another state, and no money moved. */
  ghost predicate Waiting(w: World, w': World, c: Call, state: TransactionState) {
    NowIn(w, w', c, state) && w'.store == w.store
  }

  // --- the ledger side ---------------------------------------------------------------------------------------

  /** The resolution of a sale under way, for the sale's own amount. */
  ghost predicate Resolving(w: World, c: Call, op: Op) {
    && Fresh(w, c) && StillHeld(w, c) && Resolves(op) && op.ctx == ContextOf(w, c)
    && (op.Release? || op.MoveToReview? || (op.Finalize? && (op.profit.Some? ==> op.profit.value < op.ctx.amount)))
  }

  lemma ResolutionGoesThrough(w: World, c: Call, op: Op)
    requires Resolving(w, c, op)
    ensures Commits(w.store, op) && Agrees(w.store, op) && w.sales[c.sale].amount > 0
  {
    FoundRow(w, c);
    assert SaleFits(w, c.sale);
    RowHasAmount(w.store.reservations, c.sale);
    CommitsExactly(w.store, op);
  }

  lemma ResolutionPlaces(w: World, c: Call, op: Op)
    requires Resolving(w, c, op)
    ensures Place(Next(w.store, op), c.sale, w.sales[c.sale].amount) ==
            Some(if op.Release? then ValueDisposition.Released else if op.Finalize? then Debited else InReview)
  {
    ResolutionGoesThrough(w, c, op);
    assert SaleFits(w, c.sale);
    NetsFollowRow(w.store, op, c.sale);
    SaleEffect(w.store, op, c.sale);
    RowAfterCall(w.store, op, c.sale);
  }

  lemma ResolutionPays(w: World, c: Call, op: Op)
    requires Resolving(w, c, op)
    ensures var s, t, a := w.store, Next(w.store, op), w.sales[c.sale].amount;
            var kept := if op.Finalize? then Clamp(op.profit, a) else 0;
            && Available(t.entries, c.merchant) == Available(s.entries, c.merchant) + (if op.Release? then a else 0)
            && Net(t.entries, MerchantReserved, c.merchant) == Net(s.entries, MerchantReserved, c.merchant) - a
            && Earned(t, c.merchant) == Earned(s, c.merchant) + kept
            && Total(t.entries, Bucket(ProviderSettlement, None)) ==
               Total(s.entries, Bucket(ProviderSettlement, None)) + (if op.Finalize? then a - kept else 0)
  {
    ResolutionGoesThrough(w, c, op);
    AvailableEffect(w.store, op, c.merchant);
    PostingEffect(w.store, op, MerchantReserved, Some(c.merchant));
    PostingEffect(w.store, op, ProviderSettlement, None);
    EarningsStep(w.store, op, c.merchant);
  }

  lemma ReleaseGivesBack(w: World, w': World, c: Call, state: TransactionState)
    requires Fresh(w, c) && StillHeld(w, c)
    requires NowIn(w, w', c, state) && w'.store == Next(w.store, Release(ContextOf(w, c)))
    ensures GivenBack(w, w', c, state)
  {
    ResolutionPlaces(w, c, Release(ContextOf(w, c)));
    ResolutionPays(w, c, Release(ContextOf(w, c)));
  }

  // --- the submitting service ----------------------------------------------------------------------------------

  /** A sale's first three states hold its reservation. */
  lemma UnderWayIsHeld(w: World, c: Call)
    requires Consistent(w) && Found(w, c)
    requires w.sales[c.sale].state in {TransactionState.Reserved, Processing, Pending}
    ensures StillHeld(w, c)
  {
    assert SaleFits(w, c.sale);
  }

  /** A new sale the shop can pay for: its amount leaves the available balance and is reserved. */
  lemma NewSaleIsReserved(w: World, c: Call, amount: int, id: string)
    requires Consistent(w) && c.sale !in w.sales && RowById(w.store.reservations, id).None?
    requires 0 < amount <= Available(w.store.entries, c.merchant)
    requires !PostingUsed(w.store.entries, c.postingId) && !AuditTaken(w.store.audits, c.auditId)
    ensures var w' := StepWorld(w, CreateSale(c, amount, id));
            && w'.sales == w.sales[c.sale := SaleRow(c.merchant, amount, TransactionState.Reserved)]
            && Available(w'.store.entries, c.merchant) == Available(w.store.entries, c.merchant) - amount
            && Net(w'.store.entries, MerchantReserved, c.merchant) == Net(w.store.entries, MerchantReserved, c.merchant) + amount
            && Place(w'.store, c.sale, amount) == Some(InReserved)
  {
    var a := CreateSale(c, amount, id);
    var op := Reserve(Context(c.merchant, c.sale, amount, c.postingId, c.auditId), Some(id));
    assert SaleFits(w, c.sale);
    RowAbsent(w.store.reservations, c.sale);
    CommitsExactly(w.store, op);
    AvailableEffect(w.store, op, c.merchant);
    PostingEffect(w.store, op, MerchantReserved, Some(c.merchant));
    StepExactly(w, a);
    DispositionExactly(StepWorld(w, a), c.sale);
  }

  /** One the shop cannot pay for, or of nothing, leaves no trace. */
  lemma UnaffordableSaleLeavesNothing(w: World, c: Call, amount: int, id: string)
    requires Consistent(w) && (amount <= 0 || amount > Available(w.store.entries, c.merchant))
    ensures StepWorld(w, CreateSale(c, amount, id)) == w
  {
  }

  lemma SubmittedWaits(w: World, c: Call)
    requires Found(w, c)
    ensures Waiting(w, StepWorld(w, Submit(c)), c, Processing)
  {
    PlansAreLegal(w, Submit(c));
  }

  /** Delivered: sold, and the shop earns its clamped profit. */
  lemma DeliveredIsSold(w: World, c: Call, profit: Option<int>, bps: Option<nat>)
    requires Fresh(w, c) && StillHeld(w, c) && (profit.Some? ==> profit.value < w.sales[c.sale].amount)
    ensures Sold(w, StepWorld(w, Answer(c, Delivered(profit, bps))), c, if profit.Some? && profit.value > 0 then profit.value else 0)
  {
    var op := Finalize(ContextOf(w, c), profit, bps);
    PlansAreLegal(w, Answer(c, Delivered(profit, bps)));
    ResolutionGoesThrough(w, c, op);
    ResolutionPlaces(w, c, op);
    ResolutionPays(w, c, op);
  }

  /** Not delivered: failed, and the shop has its money back. */
  lemma NotDeliveredIsGivenBack(w: World, c: Call)
    requires Fresh(w, c) && StillHeld(w, c)
    ensures GivenBack(w, StepWorld(w, Answer(c, NotDelivered)), c, Failed)
  {
    PlansAreLegal(w, Answer(c, NotDelivered));
    ResolutionGoesThrough(w, c, Release(ContextOf(w, c)));
    ReleaseGivesBack(w, StepWorld(w, Answer(c, NotDelivered)), c, Failed);
  }

  /** No answer: pending, and nothing guessed about the money. */
  lemma NoAnswerWaits(w: World, c: Call)
    requires Found(w, c)
    ensures Waiting(w, StepWorld(w, Answer(c, NoAnswer)), c, Pending)
  {
    PlansAreLegal(w, Answer(c, NoAnswer));
  }

  /** A settled, released or set-aside sale has nothing left to answer for, and a profit of the whole is refused. */
  lemma NothingElseHappens(w: World, c: Call, profit: Option<int>, bps: Option<nat>)
    requires Consistent(w) && Found(w, c)
    ensures !StillHeld(w, c) || (profit.Some? && profit.value >= w.sales[c.sale].amount) ==>
              StepWorld(w, Answer(c, Delivered(profit, bps))) == w
    ensures !StillHeld(w, c) ==> StepWorld(w, Answer(c, NotDelivered)) == w && StepWorld(w, RecoverNeverSubmitted(c)) == w
  {
    FoundRow(w, c);
    CommitsExactly(w.store, Finalize(ContextOf(w, c), profit, bps));
    CommitsExactly(w.store, Release(ContextOf(w, c)));
  }

  // --- looking a pending sale up ---------------------------------------------------------------------------------

  /** What a lookup comes to when it is acted on: sold without profit, given back, or set aside. */
  ghost predicate LookedUp(w: World, w': World, c: Call, lookup: Lookup) {
    match lookup
    case ConfirmedSuccess => Sold(w, w', c, 0)
    case ConfirmedFailure => GivenBack(w, w', c, Failed)
    case StillUnknown => SetAside(w, w', c)
  }

  lemma LookupOps(w: World, c: Call)
    requires Fresh(w, c) && StillHeld(w, c)
    ensures var ctx := ContextOf(w, c);
            && Commits(w.store, Finalize(ctx, None, None)) && Commits(w.store, Release(ctx)) && Commits(w.store, MoveToReview(ctx))
  {
    ResolutionGoesThrough(w, c, Finalize(ContextOf(w, c), None, None));
    ResolutionGoesThrough(w, c, Release(ContextOf(w, c)));
    ResolutionGoesThrough(w, c, MoveToReview(ContextOf(w, c)));
  }

  lemma LookupEnds(w: World, c: Call, lookup: Lookup, w': World)
    requires Fresh(w, c) && StillHeld(w, c)
    requires var ctx := ContextOf(w, c);
             match lookup
             case ConfirmedSuccess => NowIn(w, w', c, Successful) && w'.store == Next(w.store, Finalize(ctx, None, None))
             case ConfirmedFailure => NowIn(w, w', c, Failed) && w'.store == Next(w.store, Release(ctx))
             case StillUnknown => NowIn(w, w', c, TransactionState.UnderReview) && w'.store == Next(w.store, MoveToReview(ctx))
    ensures LookedUp(w, w', c, lookup)
  {
    var ctx := ContextOf(w, c);
    var op := match lookup
      case ConfirmedSuccess => Finalize(ctx, None, None)
      case ConfirmedFailure => Release(ctx)
      case StillUnknown => MoveToReview(ctx);
    ResolutionPlaces(w, c, op);
    ResolutionPays(w, c, op);
  }

  /** Resolving a sale that is pending does what the provider's record says; one that is not, or not yet, is let be. */
  lemma PendingIsResolved(w: World, c: Call, lookup: Lookup, pastDeadline: bool)
    requires Fresh(w, c)
    ensures var w' := StepWorld(w, ResolvePending(c, lookup, pastDeadline));
            if w.sales[c.sale].state != Pending || (lookup.StillUnknown? && !pastDeadline) then w' == w
            else LookedUp(w, w', c, lookup)
  {
    var a := ResolvePending(c, lookup, pastDeadline);
    if w.sales[c.sale].state == Pending && !(lookup.StillUnknown? && !pastDeadline) {
      UnderWayIsHeld(w, c);
      PlansAreLegal(w, a);
      LookupOps(w, c);
      LookupEnds(w, c, lookup, StepWorld(w, a));
    }
  }

  // --- recovery ---------------------------------------------------------------------------------------------------

  lemma RecoveryEnds(w: World, c: Call, lookup: Lookup, escalate: bool)
    requires Fresh(w, c) && w.sales[c.sale].state in {Processing, Pending} && (lookup.StillUnknown? ==> escalate)
    ensures LookedUp(w, StepWorld(w, RecoverLookup(c, lookup, escalate)), c, lookup)
  {
    UnderWayIsHeld(w, c);
    PlansAreLegal(w, RecoverLookup(c, lookup, escalate));
    LookupOps(w, c);
    LookupEnds(w, c, lookup, StepWorld(w, RecoverLookup(c, lookup, escalate)));
  }

  /** Recovery settles what the provider's record says; of what it does not know, it keeps the sale pending or gives up. */
  lemma RecoveryLooksUp(w: World, c: Call, lookup: Lookup, escalate: bool)
    requires Fresh(w, c)
    ensures var w', state := StepWorld(w, RecoverLookup(c, lookup, escalate)), w.sales[c.sale].state;
            if state != Processing && state != Pending then w' == w
            else if lookup.StillUnknown? && !escalate then
              if state == Processing then Waiting(w, w', c, Pending) else w' == w
            else LookedUp(w, w', c, lookup)
  {
    if w.sales[c.sale].state in {Processing, Pending} {
      if lookup.StillUnknown? && !escalate {
        PlansAreLegal(w, RecoverLookup(c, lookup, escalate));
      } else {
        RecoveryEnds(w, c, lookup, escalate);
      }
    }
  }

  /** A sale that never reached the provider fails, and the shop has its money back. */
  lemma NeverSubmittedIsGivenBack(w: World, c: Call)
    requires Fresh(w, c) && StillHeld(w, c)
    ensures GivenBack(w, StepWorld(w, RecoverNeverSubmitted(c)), c, Failed)
  {
    PlansAreLegal(w, RecoverNeverSubmitted(c));
    ResolutionGoesThrough(w, c, Release(ContextOf(w, c)));
    ReleaseGivesBack(w, StepWorld(w, RecoverNeverSubmitted(c)), c, Failed);
  }

  /** One that may have is kept pending. */
  lemma UncertainWaits(w: World, c: Call)
    requires Found(w, c)
    ensures Waiting(w, StepWorld(w, RecoverUncertain(c)), c, Pending)
  {
    PlansAreLegal(w, RecoverUncertain(c));
  }

  // --- everything else ---------------------------------------------------------------------------------------------

  /** Deposits, transfers, fees and waivers run beside the sales and leave every state as it is; nothing else does. */
  lemma OtherCallsRunBeside(w: World, op: Op)
    ensures StepWorld(w, Elsewhere(op)) ==
            if op.Reserve? || Resolves(op) || op.ReversalAdjustment? then w else w.(store := Next(w.store, op))
  {
  }

  // --- reversal -------------------------------------------------------------------------------------------------------

  /** A reversal is asked for from PENDING or UNDER_REVIEW, and moves no money; from any other state nothing happens. */
  lemma ReversalIsRequired(w: World, c: Call, seen: TransactionState)
    requires Found(w, c)
    ensures var w' := StepWorld(w, RequireReversal(c, seen));
            if seen == Pending || seen == TransactionState.UnderReview then Waiting(w, w', c, ReversalRequired) else w' == w
  {
    PlansAreLegal(w, RequireReversal(c, seen));
  }

  lemma ReviewReleasePays(w: World, c: Call)
    requires Fresh(w, c) && w.sales[c.sale].state == ReversalRequired
    requires RowOf(w.store.reservations, c.sale).Some?
    requires RowOf(w.store.reservations, c.sale).value.status == ReservationStatus.UnderReview
    ensures var op := ReleaseFromReview(ContextOf(w, c));
            && Commits(w.store, op)
            && Available(Next(w.store, op).entries, c.merchant) ==
               Available(w.store.entries, c.merchant) + w.sales[c.sale].amount
            && Earned(Next(w.store, op), c.merchant) == Earned(w.store, c.merchant)
  {
    var op := ReleaseFromReview(ContextOf(w, c));
    FoundRow(w, c);
    assert SaleFits(w, c.sale);
    RowHasAmount(w.store.reservations, c.sale);
    CommitsExactly(w.store, op);
    AvailableEffect(w.store, op, c.merchant);
    EarningsStep(w.store, op, c.merchant);
  }

  /** Completing one that is required gives the shop its money back, from whichever bucket; any other is let be. */
  lemma ReversalIsGivenBack(w: World, c: Call)
    requires Fresh(w, c)
    ensures var w' := StepWorld(w, CompleteReversal(c));
            if w.sales[c.sale].state == ReversalRequired then GivenBack(w, w', c, Reversed) else w' == w
  {
    if w.sales[c.sale].state == ReversalRequired {
      ReversalCompletes(w, c);
      assert SaleFits(w, c.sale);
      FoundRow(w, c);
      PlansAreLegal(w, CompleteReversal(c));
      if StillHeld(w, c) {
        ResolutionGoesThrough(w, c, Release(ContextOf(w, c)));
        ResolutionPays(w, c, Release(ContextOf(w, c)));
      } else {
        ReviewReleasePays(w, c);
      }
    }
  }

  /** Reversing a settled sale credits the shop its amount at the provider's cost; a sale that is not is let be. */
  lemma SettledIsReversed(w: World, c: Call)
    requires Fresh(w, c)
    ensures var w', amount := StepWorld(w, ReverseSettled(c)), w.sales[c.sale].amount;
            if w.sales[c.sale].state != Successful then w' == w
            else
              && NowIn(w, w', c, Reversed) && ReturnedLater(w'.store, c.sale) == amount
              && Available(w'.store.entries, c.merchant) == Available(w.store.entries, c.merchant) + amount
              && Total(w'.store.entries, Bucket(ProviderSettlement, None)) ==
                 Total(w.store.entries, Bucket(ProviderSettlement, None)) - amount
              && Earned(w'.store, c.merchant) == Earned(w.store, c.merchant)
  {
    if w.sales[c.sale].state == Successful {
      var op := ReversalAdjustment(c.merchant, Some(c.sale), w.sales[c.sale].amount, c.postingId);
      assert SaleFits(w, c.sale);
      RowHasAmount(w.store.reservations, c.sale);
      CommitsExactly(w.store, op);
      SaleEffect(w.store, op, c.sale);
      AvailableEffect(w.store, op, c.merchant);
      PostingEffect(w.store, op, ProviderSettlement, None);
      EarningsStep(w.store, op, c.merchant);
    }
  }
}
