/**
 * The life of a sale: each service's unit of work moves the sale's state and its money together.
 * A service that read the sale before its unit of work acts on what it saw then.
 */
module Sales {
  import opened Wrappers
  import opened Ledger
  import opened Operations
  import opened Effects
  import opened Books
  import opened States

  datatype SaleRow = SaleRow(merchant: string, amount: int, state: TransactionState)

  /** The ledger's tables and the transactions table. */
  datatype World = World(store: Store, sales: map<string, SaleRow>)

  /** Which sale a call is about, and the ids the call brings. */
  datatype Call = Call(merchant: string, sale: string, postingId: string, auditId: string)

  datatype ProviderAnswer = Delivered(profit: Option<int>, bps: Option<nat>) | NotDelivered | NoAnswer

  datatype Lookup = ConfirmedSuccess | ConfirmedFailure | StillUnknown

  datatype Act =
    | CreateSale(call: Call, amount: int, reservationId: string)
    | Submit(call: Call)
    | Answer(call: Call, answer: ProviderAnswer)
    | ResolvePending(call: Call, lookup: Lookup, pastDeadline: bool)
    | RequireReversal(call: Call, seen: TransactionState)
    | CompleteReversal(call: Call)
    | RecoverNeverSubmitted(call: Call)
    | RecoverUncertain(call: Call)
    | RecoverLookup(call: Call, lookup: Lookup, escalate: bool)
    | ReverseSettled(call: Call)
    | Elsewhere(op: Op)

  predicate Found(w: World, c: Call) {
    c.sale in w.sales && w.sales[c.sale].merchant == c.merchant
  }

  function ContextOf(w: World, c: Call): Context
    requires Found(w, c)
  {
    Context(c.merchant, c.sale, w.sales[c.sale].amount, c.postingId, c.auditId)
  }

  /** What a service will do: the states it passes through from the one it saw, and its ledger operation. */
  datatype Plan = Nothing | Move(seen: TransactionState, path: seq<TransactionState>, op: Option<Op>)

  function PlanOf(w: World, a: Act): Plan
    requires !a.CreateSale? && !a.ReverseSettled? && !a.Elsewhere? && Found(w, a.call)
  {
    var ctx := ContextOf(w, a.call);
    var stored := w.sales[a.call.sale].state;
    match a
    case Submit(_) => Plan.Move(TransactionState.Reserved, [Processing], None)
    case Answer(_, Delivered(profit, bps)) => Plan.Move(Processing, [Successful], Some(Finalize(ctx, profit, bps)))
    case Answer(_, NotDelivered) => Plan.Move(Processing, [Failed], Some(Release(ctx)))
    case Answer(_, NoAnswer) => Plan.Move(Processing, [Pending], None)
    case ResolvePending(_, lookup, pastDeadline) =>
      if stored != Pending then Nothing
      else (match lookup
            case ConfirmedSuccess => Plan.Move(stored, [Successful], Some(Finalize(ctx, None, None)))
            case ConfirmedFailure => Plan.Move(stored, [Failed], Some(Release(ctx)))
            case StillUnknown =>
              if pastDeadline then Plan.Move(stored, [TransactionState.UnderReview], Some(MoveToReview(ctx))) else Nothing)
    case RequireReversal(_, seen) =>
      if seen == Pending || seen == TransactionState.UnderReview then Plan.Move(seen, [ReversalRequired], None) else Nothing
    case CompleteReversal(_) =>
      if stored != ReversalRequired then Nothing
      else
        var row := RowOf(w.store.reservations, a.call.sale);
        var inReview := row.Some? && row.value.merchant == a.call.merchant && row.value.status == ReservationStatus.UnderReview;
        Plan.Move(stored, [Reversed], Some(if inReview then ReleaseFromReview(ctx) else Release(ctx)))
    case RecoverNeverSubmitted(_) => Plan.Move(TransactionState.Reserved, [Processing, Failed], Some(Release(ctx)))
    case RecoverUncertain(_) => Plan.Move(TransactionState.Reserved, [Processing, Pending], None)
    case RecoverLookup(_, lookup, escalate) =>
      if stored != Processing && stored != Pending then Nothing
      else (match lookup
            case ConfirmedSuccess => Plan.Move(stored, [Successful], Some(Finalize(ctx, None, None)))
            case ConfirmedFailure => Plan.Move(stored, [Failed], Some(Release(ctx)))
            case StillUnknown =>
              var first := if stored == Processing then [Pending] else [];
              if escalate then Plan.Move(stored, first + [TransactionState.UnderReview], Some(MoveToReview(ctx)))
              else if first == [] then Nothing
              else Plan.Move(stored, first, None))
  }

  /** A unit of work: an illegal move or a refused operation rolls both back. */
  function Perform(w: World, sale: string, plan: Plan): World
    requires sale in w.sales
  {
    if plan.Nothing? || plan.path == [] || !LegalPath(plan.seen, plan.path) then w
    else
      var end := plan.path[|plan.path| - 1];
      if plan.op.Some? && !Commits(w.store, plan.op.value) then w
      else World(if plan.op.Some? then Next(w.store, plan.op.value) else w.store,
                 w.sales[sale := w.sales[sale].(state := end)])
  }

  function StepWorld(w: World, a: Act): World {
    match a
    case CreateSale(c, amount, id) =>
      var op := Reserve(Context(c.merchant, c.sale, amount, c.postingId, c.auditId), Some(id));
      if Commits(w.store, op)
      then World(Next(w.store, op), w.sales[c.sale := SaleRow(c.merchant, amount, TransactionState.Reserved)])
      else w
    case ReverseSettled(c) =>
      if !Found(w, c) || w.sales[c.sale].state != Successful then w
      else
        var op := ReversalAdjustment(c.merchant, Some(c.sale), w.sales[c.sale].amount, c.postingId);
        if Commits(w.store, op) then World(Next(w.store, op), w.sales[c.sale := w.sales[c.sale].(state := Reversed)]) else w
    case Elsewhere(op) => if AboutNoSale(op) then w.(store := Next(w.store, op)) else w
    case _ => if Found(w, a.call) then Perform(w, a.call.sale, PlanOf(w, a)) else w
  }

  /** The operations other services run: deposits, transfers, fees. */
  predicate AboutNoSale(op: Op) {
    op.Fund? || op.ProfitToBalance? || op.ShopTransfer? || op.ChargeFee? || op.WaiveFee?
  }

  function RunWorld(w: World, acts: seq<Act>): World
    decreases |acts|
  {
    if acts == [] then w else RunWorld(StepWorld(w, acts[0]), acts[1..])
  }

  // --- where a sale's money is ----------------------------------------------------------------

  function SaleNet(s: Store, kind: AccountKind, sale: string): int {
    Total(s.entries, SaleBucket(kind, sale))
  }

  /** What compensating credits have returned of a settled sale. */
  function ReturnedLater(s: Store, sale: string): int {
    -Total(s.entries, SaleLegs(ProviderSettlement, Debit, sale))
  }

  /** The bucket the sale's own postings put its amount in, read from the ledger alone. */
  function Place(s: Store, sale: string, amount: int): Option<ValueDisposition> {
    var reserved, review := SaleNet(s, MerchantReserved, sale), SaleNet(s, MerchantUnderReview, sale);
    var available := SaleNet(s, MerchantAvailable, sale);
    if reserved == amount && review == 0 && available == -amount then Some(InReserved)
    else if reserved == 0 && review == amount && available == -amount then Some(InReview)
    else if reserved == 0 && review == 0 && available == -amount then Some(Debited)
    else if reserved == 0 && review == 0 && available == 0 then Some(ValueDisposition.Released)
    else None
  }

  /** The row statuses a sale may have in each state. */
  predicate StatusFits(state: TransactionState, status: ReservationStatus) {
    match state
    case Created => false
    case Validated => false
    case Rejected => false
    case ReversalRequired => status == Held || status == ReservationStatus.UnderReview
    case Reversed => status == ReservationStatus.Released || status == Settled
    case UnderReview => status == ReservationStatus.UnderReview
    case Successful => status == Settled
    case Failed => status == ReservationStatus.Released
    case _ => status == Held
  }

  /** A sale's three bucket totals are the ones its row's status accounts for. */
  ghost predicate NetsMatch(s: Store, sale: string, row: Option<Reservation>) {
    var a := if row.Some? then row.value.amount else 0;
    && SaleNet(s, MerchantReserved, sale) == If(row.Some? && row.value.status == Held, a)
    && SaleNet(s, MerchantUnderReview, sale) == If(row.Some? && row.value.status == ReservationStatus.UnderReview, a)
    && SaleNet(s, MerchantAvailable, sale) ==
       ReturnedLater(s, sale) - If(row.Some? && row.value.status != ReservationStatus.Released, a)
  }

  ghost predicate SaleFits(w: World, sale: string) {
    var row := RowOf(w.store.reservations, sale);
    && NetsMatch(w.store, sale, row)
    && (sale in w.sales <==> row.Some?)
    && (row.None? ==> ReturnedLater(w.store, sale) == 0)
    && (row.Some? ==>
          var t := w.sales[sale];
          && t.merchant == row.value.merchant && t.amount == row.value.amount
          && StatusFits(t.state, row.value.status)
          && ReturnedLater(w.store, sale) == If(t.state == Reversed && row.value.status == Settled, t.amount))
  }

  /** The transactions table, the reservations and the ledger tell one story about every sale. */
  ghost predicate Consistent(w: World) {
    Valid(w.store) && forall sale :: SaleFits(w, sale)
  }

  // --- what an operation does to one sale's buckets ------------------------------------------------

  function SaleDelta(op: Op, kind: AccountKind, sale: string): int {
    match op
    case Reserve(c, _) => If(c.transaction == sale, Moved(c, MerchantAvailable, MerchantReserved, kind, Some(c.merchant)))
    case Release(c) => If(c.transaction == sale, Moved(c, MerchantReserved, MerchantAvailable, kind, Some(c.merchant)))
    case Finalize(c, _, _) => If(c.transaction == sale && kind == MerchantReserved, -c.amount)
    case MoveToReview(c) => If(c.transaction == sale, Moved(c, MerchantReserved, MerchantUnderReview, kind, Some(c.merchant)))
    case ReleaseFromReview(c) =>
      If(c.transaction == sale, Moved(c, MerchantUnderReview, MerchantAvailable, kind, Some(c.merchant)))
    case ReversalAdjustment(_, t, a, _) => If(t == Some(sale) && kind == MerchantAvailable, a)
    case _ => 0
  }

  predicate BucketKind(kind: AccountKind) {
    kind == MerchantAvailable || kind == MerchantReserved || kind == MerchantUnderReview
  }

  lemma SaleLinesMeetDelta(s: Store, op: Op, kind: AccountKind, sale: string)
    requires BucketKind(kind)
    ensures LinesTotal(LinesOf(s, op), SaleBucket(kind, sale)) == SaleDelta(op, kind, sale)
    ensures -LinesTotal(LinesOf(s, op), SaleLegs(ProviderSettlement, Debit, sale)) ==
            If(op.ReversalAdjustment? && op.transaction == Some(sale), if op.ReversalAdjustment? then op.amount else 0)
  {
    LinesWeight(s, op, SaleBucket(kind, sale));
    LinesWeight(s, op, SaleLegs(ProviderSettlement, Debit, sale));
  }

  lemma SaleEffect(s: Store, op: Op, sale: string)
    requires Valid(s) && Commits(s, op)
    ensures forall kind :: BucketKind(kind) ==> SaleNet(Next(s, op), kind, sale) == SaleNet(s, kind, sale) + SaleDelta(op, kind, sale)
    ensures ReturnedLater(Next(s, op), sale) ==
            ReturnedLater(s, sale) + If(op.ReversalAdjustment? && op.transaction == Some(sale),
                                        if op.ReversalAdjustment? then op.amount else 0)
  {
    TotalsStep(s, op, SaleLegs(ProviderSettlement, Debit, sale));
    SaleLinesMeetDelta(s, op, MerchantAvailable, sale);
    forall kind | BucketKind(kind)
      ensures SaleNet(Next(s, op), kind, sale) == SaleNet(s, kind, sale) + SaleDelta(op, kind, sale)
    {
      TotalsStep(s, op, SaleBucket(kind, sale));
      SaleLinesMeetDelta(s, op, kind, sale);
    }
  }

  // --- each step ----------------------------------------------------------------------------------

  lemma OwnRowAmount(s: Store, op: Op)
    requires Valid(s) && Commits(s, op) && Resolves(op) && Agrees(s, op)
    ensures RowOf(s.reservations, op.ctx.transaction).Some?
    ensures RowOf(s.reservations, op.ctx.transaction).value.amount == op.ctx.amount
  {
    CommitsExactly(s, op);
    RowAt(s.reservations, RowFor(s.reservations, op.ctx.transaction, op.ctx.merchant).value);
  }

  /** A committed operation that names the amount its row holds leaves every sale's buckets accounted for. */
  lemma NetsFollowRow(s: Store, op: Op, sale: string)
    requires Valid(s) && Commits(s, op) && NewReservation(s, op) && Agrees(s, op)
    requires NetsMatch(s, sale, RowOf(s.reservations, sale))
    ensures NetsMatch(Next(s, op), sale, RowOf(Next(s, op).reservations, sale))
  {
    SaleEffect(s, op, sale);
    RowAfterCall(s, op, sale);
    RowBefore(s, op);
    if Resolves(op) {
      OwnRowAmount(s, op);
    }
  }

  /** A sale no step is about stays as it was. */
  lemma OthersStayFit(w: World, op: Op, t: map<string, SaleRow>, sale: string)
    requires Consistent(w) && Commits(w.store, op) && NewReservation(w.store, op) && Agrees(w.store, op)
    requires (op.Reserve? || Resolves(op)) ==> op.ctx.transaction != sale
    requires op.ReversalAdjustment? ==> op.transaction != Some(sale)
    requires sale in t <==> sale in w.sales
    requires sale in t ==> t[sale] == w.sales[sale]
    ensures SaleFits(World(Next(w.store, op), t), sale)
  {
    assert SaleFits(w, sale);
    NetsFollowRow(w.store, op, sale);
    SaleEffect(w.store, op, sale);
    RowAfterCall(w.store, op, sale);
  }

  lemma CreateKeeps(w: World, a: Act)
    requires Consistent(w) && a.CreateSale? && RowById(w.store.reservations, a.reservationId).None?
    ensures Consistent(StepWorld(w, a))
  {
    var c := a.call;
    var op := Reserve(Context(c.merchant, c.sale, a.amount, c.postingId, c.auditId), Some(a.reservationId));
    if Commits(w.store, op) {
      var w' := StepWorld(w, a);
      ValidIsKept(w.store, op);
      forall sale
        ensures SaleFits(w', sale)
      {
        assert SaleFits(w, sale);
        if sale != c.sale {
          OthersStayFit(w, op, w'.sales, sale);
        } else {
          RowBefore(w.store, op);
          NetsFollowRow(w.store, op, sale);
          SaleEffect(w.store, op, sale);
          RowAfterCall(w.store, op, sale);
        }
      }
    }
  }

  lemma ReversedFits(w: World, c: Call)
    requires Consistent(w) && Found(w, c) && w.sales[c.sale].state == Successful
    requires Commits(w.store, ReversalAdjustment(c.merchant, Some(c.sale), w.sales[c.sale].amount, c.postingId))
    ensures SaleFits(StepWorld(w, ReverseSettled(c)), c.sale)
  {
    var op := ReversalAdjustment(c.merchant, Some(c.sale), w.sales[c.sale].amount, c.postingId);
    assert SaleFits(w, c.sale);
    NetsFollowRow(w.store, op, c.sale);
    SaleEffect(w.store, op, c.sale);
    RowAfterCall(w.store, op, c.sale);
  }

  lemma ReverseKeeps(w: World, a: Act)
    requires Consistent(w) && a.ReverseSettled?
    ensures Consistent(StepWorld(w, a))
  {
    var c := a.call;
    if Found(w, c) && w.sales[c.sale].state == Successful {
      var op := ReversalAdjustment(c.merchant, Some(c.sale), w.sales[c.sale].amount, c.postingId);
      if Commits(w.store, op) {
        var w' := StepWorld(w, a);
        ValidIsKept(w.store, op);
        forall sale
          ensures SaleFits(w', sale)
        {
          if sale != c.sale {
            OthersStayFit(w, op, w'.sales, sale);
          } else {
            ReversedFits(w, c);
          }
        }
      }
    }
  }

  lemma ElsewhereKeeps(w: World, op: Op)
    requires Consistent(w) && AboutNoSale(op)
    ensures Consistent(w.(store := Next(w.store, op)))
  {
    if Commits(w.store, op) {
      ValidIsKept(w.store, op);
      forall sale
        ensures SaleFits(w.(store := Next(w.store, op)), sale)
      {
        OthersStayFit(w, op, w.sales, sale);
      }
    }
  }

  /** A sale's row is the one its services find. */
  lemma FoundRow(w: World, c: Call)
    requires Consistent(w) && Found(w, c)
    ensures var at := RowFor(w.store.reservations, c.sale, c.merchant);
            at.Some? && RowOf(w.store.reservations, c.sale) == Some(w.store.reservations[at.value])
  {
    assert SaleFits(w, c.sale);
    RowAbsent(w.store.reservations, c.sale);
    var i :| 0 <= i < |w.store.reservations| && w.store.reservations[i].transaction == c.sale;
    RowAt(w.store.reservations, i);
    RowIsUnique(w.store.reservations, i);
  }

  /** The state a resolution of a sale's row goes with. */
  predicate EndsIn(op: Op, end: TransactionState) {
    match op
    case Finalize(_, _, _) => end == Successful
    case MoveToReview(_) => end == TransactionState.UnderReview
    case _ => end == Failed || end == Reversed
  }

  lemma ResolutionAgrees(w: World, c: Call, op: Op)
    requires Consistent(w) && Found(w, c) && Resolves(op) && op.ctx == ContextOf(w, c) && Commits(w.store, op)
    ensures Agrees(w.store, op)
  {
    FoundRow(w, c);
    assert SaleFits(w, c.sale);
  }

  lemma ResolvedSaleFits(w: World, c: Call, op: Op, end: TransactionState)
    requires Consistent(w) && Found(w, c) && Resolves(op) && op.ctx == ContextOf(w, c) && EndsIn(op, end)
    requires Commits(w.store, op)
    ensures SaleFits(World(Next(w.store, op), w.sales[c.sale := w.sales[c.sale].(state := end)]), c.sale)
  {
    assert SaleFits(w, c.sale);
    RowBefore(w.store, op);
    ResolutionAgrees(w, c, op);
    NetsFollowRow(w.store, op, c.sale);
    SaleEffect(w.store, op, c.sale);
    RowAfterCall(w.store, op, c.sale);
  }

  /** An operation that names the sale's own amount settles it as the state it ends in requires. */
  lemma ResolutionKeeps(w: World, c: Call, plan: Plan)
    requires Consistent(w) && Found(w, c) && plan.Move? && plan.op.Some? && plan.path != []
    requires Resolves(plan.op.value) && plan.op.value.ctx == ContextOf(w, c)
    requires EndsIn(plan.op.value, plan.path[|plan.path| - 1])
    ensures Consistent(Perform(w, c.sale, plan))
  {
    var op := plan.op.value;
    if LegalPath(plan.seen, plan.path) && Commits(w.store, op) {
      var w' := Perform(w, c.sale, plan);
      ResolutionAgrees(w, c, op);
      ValidIsKept(w.store, op);
      forall sale
        ensures SaleFits(w', sale)
      {
        if sale != c.sale {
          OthersStayFit(w, op, w'.sales, sale);
        } else {
          ResolvedSaleFits(w, c, op, plan.path[|plan.path| - 1]);
        }
      }
    }
  }

  /** A move of the state alone keeps the story exactly when the row's status fits the new state. */
  lemma SilentMoveExactly(w: World, c: Call, plan: Plan)
    requires Consistent(w) && Found(w, c) && plan.Move? && plan.op.None? && plan.path != []
    requires LegalPath(plan.seen, plan.path) && plan.path[|plan.path| - 1] in {Processing, Pending, ReversalRequired}
    ensures RowOf(w.store.reservations, c.sale).Some?
    ensures Consistent(Perform(w, c.sale, plan)) <==>
            StatusFits(plan.path[|plan.path| - 1], RowOf(w.store.reservations, c.sale).value.status)
  {
    var w' := Perform(w, c.sale, plan);
    assert SaleFits(w, c.sale);
    forall sale | sale != c.sale
      ensures SaleFits(w', sale)
    {
      assert SaleFits(w, sale);
    }
    assert SaleFits(w', c.sale) <==>
           StatusFits(plan.path[|plan.path| - 1], RowOf(w.store.reservations, c.sale).value.status);
  }

  predicate Planned(w: World, a: Act) {
    !a.CreateSale? && !a.ReverseSettled? && !a.Elsewhere? && Found(w, a.call)
  }

  /** Every plan is a list of legal moves from the state that was seen, ending where its operation leaves the row. */
  lemma PlansAreLegal(w: World, a: Act)
    requires Planned(w, a)
    ensures var p := PlanOf(w, a);
            p.Move? ==>
              && p.path != [] && LegalPath(p.seen, p.path)
              && var end := p.path[|p.path| - 1];
                 if p.op.None? then end in {Processing, Pending, ReversalRequired}
                 else Resolves(p.op.value) && p.op.value.ctx == ContextOf(w, a.call) && EndsIn(p.op.value, end)
  {
  }

  /** New sales bring new reservation ids. */
  predicate FreshIds(w: World, a: Act) {
    a.CreateSale? ==> RowById(w.store.reservations, a.reservationId).None?
  }

  /** A move of the state alone finds the sale's reservation still in the status the new state stands for. */
  predicate StillHolds(w: World, a: Act) {
    Planned(w, a) && PlanOf(w, a).Move? && PlanOf(w, a).op.None? && PlanOf(w, a).path != [] ==>
      var row := RowOf(w.store.reservations, a.call.sale);
      var path := PlanOf(w, a).path;
      row.Some? && StatusFits(path[|path| - 1], row.value.status)
  }

  /**
   * One unit of work of any service keeps states, reservations and ledger in step, except exactly a state
   * written without a ledger operation after another writer has moved the sale's money.
   */
  lemma StepExactly(w: World, a: Act)
    requires Consistent(w) && FreshIds(w, a)
    ensures Consistent(StepWorld(w, a)) <==> StillHolds(w, a)
  {
    if a.CreateSale? {
      CreateKeeps(w, a);
    } else if a.ReverseSettled? {
      ReverseKeeps(w, a);
    } else if a.Elsewhere? {
      if AboutNoSale(a.op) {
        ElsewhereKeeps(w, a.op);
      }
    } else if Found(w, a.call) {
      var plan := PlanOf(w, a);
      PlansAreLegal(w, a);
      if plan.Move? {
        if plan.op.None? {
          SilentMoveExactly(w, a.call, plan);
        } else {
          ResolutionKeeps(w, a.call, plan);
        }
      }
    }
  }

  /** A service whose reading is still current always keeps it. */
  lemma CurrentReadingHolds(w: World, a: Act)
    requires Consistent(w) && Planned(w, a)
    requires PlanOf(w, a).Move? ==> PlanOf(w, a).seen == w.sales[a.call.sale].state
    ensures StillHolds(w, a)
  {
    assert SaleFits(w, a.call.sale);
  }

  /** Each unit of work of the run brings fresh ids, and writes only states the sale's reservation still fits. */
  predicate Orderly(w: World, acts: seq<Act>)
    decreases |acts|
  {
    acts == [] || (FreshIds(w, acts[0]) && StillHolds(w, acts[0]) && Orderly(StepWorld(w, acts[0]), acts[1..]))
  }

  lemma {:induction false} OrderlyRunIsConsistent(w: World, acts: seq<Act>)
    requires Consistent(w) && Orderly(w, acts)
    ensures Consistent(RunWorld(w, acts))
    decreases |acts|
  {
    if acts != [] {
      StepExactly(w, acts[0]);
      OrderlyRunIsConsistent(StepWorld(w, acts[0]), acts[1..]);
    }
  }

  lemma NothingSoldIsConsistent()
    ensures Consistent(World(EMPTY, map[]))
  {
  }

  // --- the bucket each state names ------------------------------------------------------------------

  /**
   * The ledger has a sale's amount in exactly the bucket its state names, but for one kind of sale: one
   * awaiting reversal whose reservation was never moved to review. A settled sale that is reversed gets exactly
   * its amount back.
   */
  lemma DispositionExactly(w: World, sale: string)
    requires Consistent(w) && sale in w.sales
    ensures RowOf(w.store.reservations, sale).Some?
    ensures var t, row := w.sales[sale], RowOf(w.store.reservations, sale).value;
            && (Place(w.store, sale, t.amount) == Some(Disposition(t.state)) <==>
                !(t.state == ReversalRequired && row.status == Held))
            && ReturnedLater(w.store, sale) == If(t.state == Reversed && row.status == Settled, t.amount)
  {
    assert SaleFits(w, sale);
    RowHasAmount(w.store.reservations, sale);
  }

  lemma {:induction false} RowHasAmount(rows: seq<Reservation>, sale: string)
    requires forall i :: 0 <= i < |rows| ==> rows[i].amount > 0
    ensures RowOf(rows, sale).Some? ==> RowOf(rows, sale).value.amount > 0
  {
    if rows != [] {
      RowHasAmount(rows[..|rows| - 1], sale);
    }
  }

  /**
   * A pending sale sent straight to reversal: no posting is made, so its amount stays in the reserved bucket
   * while its state names the review bucket.
   */
  lemma StraightToReversal(w: World, c: Call)
    requires Consistent(w) && Found(w, c) && w.sales[c.sale].state == Pending
    ensures var w1 := StepWorld(w, RequireReversal(c, Pending));
            && Consistent(w1) && w1.store == w.store
            && w1.sales == w.sales[c.sale := w.sales[c.sale].(state := ReversalRequired)]
            && Place(w1.store, c.sale, w.sales[c.sale].amount) == Some(InReserved)
            && Disposition(ReversalRequired) == InReview
  {
    var a := RequireReversal(c, Pending);
    assert SaleFits(w, c.sale);
    PlansAreLegal(w, a);
    CurrentReadingHolds(w, a);
    StepExactly(w, a);
    RowHasAmount(w.store.reservations, c.sale);
  }

  lemma ReversalCommits(w: World, c: Call)
    requires Consistent(w) && Found(w, c) && w.sales[c.sale].state == ReversalRequired
    requires !PostingUsed(w.store.entries, c.postingId) && !AuditTaken(w.store.audits, c.auditId)
    ensures var plan := PlanOf(w, CompleteReversal(c));
            plan.Move? && plan.path == [Reversed] && plan.op.Some? && Commits(w.store, plan.op.value)
  {
    FoundRow(w, c);
    assert SaleFits(w, c.sale);
    RowHasAmount(w.store.reservations, c.sale);
    CommitsExactly(w.store, PlanOf(w, CompleteReversal(c)).op.value);
  }

  lemma ReversedRow(w: World, c: Call)
    requires Consistent(w) && Found(w, c) && w.sales[c.sale].state == ReversalRequired
    requires PlanOf(w, CompleteReversal(c)).op.Some? && Commits(w.store, PlanOf(w, CompleteReversal(c)).op.value)
    ensures var op := PlanOf(w, CompleteReversal(c)).op.value;
            RowOf(Next(w.store, op).reservations, c.sale).Some? &&
            RowOf(Next(w.store, op).reservations, c.sale).value.status == ReservationStatus.Released
  {
    var op := PlanOf(w, CompleteReversal(c)).op.value;
    FoundRow(w, c);
    RowAfterCall(w.store, op, c.sale);
  }

  /** Completing a reversal finds the amount in whichever bucket it is, and gives it back. */
  lemma ReversalCompletes(w: World, c: Call)
    requires Consistent(w) && Found(w, c) && w.sales[c.sale].state == ReversalRequired
    requires !PostingUsed(w.store.entries, c.postingId) && !AuditTaken(w.store.audits, c.auditId)
    ensures var w' := StepWorld(w, CompleteReversal(c));
            && Consistent(w') && w'.sales[c.sale].state == Reversed
            && Place(w'.store, c.sale, w.sales[c.sale].amount) == Some(ValueDisposition.Released)
  {
    var a := CompleteReversal(c);
    ReversalCommits(w, c);
    ReversedRow(w, c);
    PlansAreLegal(w, a);
    StepExactly(w, a);
    DispositionExactly(StepWorld(w, a), c.sale);
  }

  /** Though the table of moves has one, no service ever takes a sale from review to success. */
  lemma ReviewNeverSettles(w: World, a: Act, sale: string)
    requires Consistent(w) && sale in w.sales && w.sales[sale].state == TransactionState.UnderReview
    ensures sale in StepWorld(w, a).sales && StepWorld(w, a).sales[sale].state != Successful
    ensures Successful in ValidTransitions(TransactionState.UnderReview)
  {
    if Planned(w, a) && a.call.sale == sale {
      PlansAreLegal(w, a);
      var plan := PlanOf(w, a);
      if plan.Move? && plan.op.Some? && plan.op.value.Finalize? {
        ReviewIsNotHeld(w, a.call, plan.op.value);
      }
    }
  }

  lemma ReviewIsNotHeld(w: World, c: Call, op: Op)
    requires Consistent(w) && Found(w, c) && w.sales[c.sale].state == TransactionState.UnderReview
    requires op.Finalize? && op.ctx == ContextOf(w, c)
    ensures !Commits(w.store, op)
  {
    assert SaleFits(w, c.sale);
    if Commits(w.store, op) {
      RowBefore(w.store, op);
    }
  }

  // --- finished is finished -------------------------------------------------------------------------

  /** The ledger operation a unit of work runs, when it runs one. */
  function OpOf(w: World, a: Act): Option<Op> {
    match a
    case CreateSale(c, amount, id) =>
      Some(Reserve(Context(c.merchant, c.sale, amount, c.postingId, c.auditId), Some(id)))
    case ReverseSettled(c) =>
      if Found(w, c) && w.sales[c.sale].state == Successful
      then Some(ReversalAdjustment(c.merchant, Some(c.sale), w.sales[c.sale].amount, c.postingId)) else None
    case Elsewhere(op) => if AboutNoSale(op) then Some(op) else None
    case _ => if Found(w, a.call) && PlanOf(w, a).Move? then PlanOf(w, a).op else None
  }

  lemma StoreStep(w: World, a: Act)
    ensures var op := OpOf(w, a);
            StepWorld(w, a).store == w.store || (op.Some? && Commits(w.store, op.value) && StepWorld(w, a).store == Next(w.store, op.value))
  {
  }

  /** Nothing about a sale differs: its row, its reservation, and where its money is. */
  ghost predicate Untouched(w: World, w': World, sale: string) {
    && sale in w.sales && sale in w'.sales && w'.sales[sale] == w.sales[sale]
    && RowOf(w'.store.reservations, sale) == RowOf(w.store.reservations, sale)
    && forall amount :: Place(w'.store, sale, amount) == Place(w.store, sale, amount)
  }

  /** The ledger operation of a unit of work is about no sale but its own. */
  lemma OpIsAbout(w: World, a: Act, sale: string)
    requires FreshIds(w, a) && (a.Elsewhere? || a.call.sale != sale) && OpOf(w, a).Some?
    ensures var op := OpOf(w, a).value;
            && NewReservation(w.store, op)
            && (op.Reserve? || Resolves(op) ==> op.ctx.transaction != sale)
            && (op.ReversalAdjustment? ==> op.transaction != Some(sale))
  {
    if Planned(w, a) {
      PlansAreLegal(w, a);
    }
  }

  lemma AnotherRowStays(w: World, a: Act, sale: string)
    requires sale in w.sales && (a.Elsewhere? || a.call.sale != sale)
    ensures var w' := StepWorld(w, a);
            sale in w'.sales && w'.sales[sale] == w.sales[sale]
  {
  }

  lemma AnotherSaleIsUntouched(w: World, a: Act, sale: string)
    requires Consistent(w) && FreshIds(w, a) && sale in w.sales && (a.Elsewhere? || a.call.sale != sale)
    ensures Untouched(w, StepWorld(w, a), sale)
  {
    AnotherRowStays(w, a, sale);
    StoreStep(w, a);
    if StepWorld(w, a).store != w.store {
      OpIsAbout(w, a, sale);
      UntouchedSale(w.store, OpOf(w, a).value, sale);
    }
  }

  /**
   * A unit of work about a finished sale, but the reversal of a settled one, changes nothing at all, except
   * exactly a state written without a ledger operation by a service whose reading is stale.
   */
  lemma FinishedRefuses(w: World, a: Act)
    requires Consistent(w) && FreshIds(w, a) && !a.Elsewhere? && !a.ReverseSettled?
    requires a.call.sale in w.sales && IsTerminal(w.sales[a.call.sale].state)
    ensures StepWorld(w, a) == w <==> StillHolds(w, a)
  {
    if a.CreateSale? {
      var c := a.call;
      var op := Reserve(Context(c.merchant, c.sale, a.amount, c.postingId, c.auditId), Some(a.reservationId));
      assert SaleFits(w, c.sale);
      if Commits(w.store, op) {
        RowBefore(w.store, op);
      }
    } else if Found(w, a.call) {
      PlansAreLegal(w, a);
      PerformRefuses(w, a.call, PlanOf(w, a));
    }
  }

  lemma PerformRefuses(w: World, c: Call, plan: Plan)
    requires Consistent(w) && Found(w, c) && IsTerminal(w.sales[c.sale].state)
    requires plan.Move? ==> plan.path != [] && LegalPath(plan.seen, plan.path)
    requires plan.Move? && plan.op.Some? ==> Resolves(plan.op.value) && plan.op.value.ctx == ContextOf(w, c)
    requires plan.Move? && plan.op.None? ==> plan.path[|plan.path| - 1] in {Processing, Pending, ReversalRequired}
    ensures RowOf(w.store.reservations, c.sale).Some?
    ensures plan.Move? && plan.op.None? ==>
              !StatusFits(plan.path[|plan.path| - 1], RowOf(w.store.reservations, c.sale).value.status)
              && Perform(w, c.sale, plan).sales[c.sale].state != w.sales[c.sale].state
    ensures !(plan.Move? && plan.op.None?) ==> Perform(w, c.sale, plan) == w
  {
    assert SaleFits(w, c.sale);
    if plan.Move? && plan.op.Some? && Commits(w.store, plan.op.value) {
      RowBefore(w.store, plan.op.value);
    }
  }

  /**
   * A finished sale and its money stay as they are, whatever unit of work runs, except for the authorised
   * reversal of a settled sale and exactly a stale service's bare state about this very sale.
   */
  lemma FinishedStays(w: World, a: Act, sale: string)
    requires Consistent(w) && FreshIds(w, a)
    requires sale in w.sales && IsTerminal(w.sales[sale].state)
    requires !(a.ReverseSettled? && a.call.sale == sale)
    ensures Untouched(w, StepWorld(w, a), sale) <==> (!a.Elsewhere? && a.call.sale == sale ==> StillHolds(w, a))
  {
    if a.Elsewhere? || a.call.sale != sale {
      AnotherSaleIsUntouched(w, a, sale);
    } else {
      FinishedRefuses(w, a);
      if Planned(w, a) {
        PlansAreLegal(w, a);
        PerformRefuses(w, a.call, PlanOf(w, a));
      }
    }
  }

  /** No unit of work of the run is the reversal of this settled sale. */
  predicate NeverReversed(acts: seq<Act>, sale: string) {
    forall i :: 0 <= i < |acts| ==> !(acts[i].ReverseSettled? && acts[i].call.sale == sale)
  }

  /** Over every orderly run, a finished sale and its money stay as they are. */
  lemma {:induction false} FinishedForEver(w: World, acts: seq<Act>, sale: string)
    requires Consistent(w) && Orderly(w, acts) && NeverReversed(acts, sale)
    requires sale in w.sales && IsTerminal(w.sales[sale].state)
    ensures Untouched(w, RunWorld(w, acts), sale)
    decreases |acts|
  {
    if acts != [] {
      var w' := StepWorld(w, acts[0]);
      assert !(acts[0].ReverseSettled? && acts[0].call.sale == sale);
      FinishedStays(w, acts[0], sale);
      StepExactly(w, acts[0]);
      FinishedForEver(w', acts[1..], sale);
    }
  }

  lemma UntouchedSale(s: Store, op: Op, sale: string)
    requires Valid(s) && Commits(s, op) && NewReservation(s, op)
    requires (op.Reserve? || Resolves(op)) ==> op.ctx.transaction != sale
    requires op.ReversalAdjustment? ==> op.transaction != Some(sale)
    ensures RowOf(Next(s, op).reservations, sale) == RowOf(s.reservations, sale)
    ensures forall amount :: Place(Next(s, op), sale, amount) == Place(s, sale, amount)
  {
    SaleEffect(s, op, sale);
    RowAfterCall(s, op, sale);
  }
}
