/** What recording a deposit writes down, who may approve it afterwards, and what each approval or payment comes to. */
module Records {
  import opened Wrappers
  import opened Ledger
  import opened Operations
  import opened Effects
  import opened Books
  import opened Funding
  import Text
  import Reference = DepositReference

  // --- the row a deposit leaves ------------------------------------------------------------------------------

  /** A printed slip bears the reference the operator typed. */
  predicate QuotesASlip(orders: seq<Order>, d: Deposit) {
    exists k :: 0 <= k < |orders| && orders[k].reference == Reference.Normalize(d.claim.depositReference)
  }

  /** The bank confirms the payment in full for a shop that is known, and nobody was credited for it before. */
  predicate Confirmed(w: Desk, d: Deposit) {
    && (QuotesASlip(w.orders, d) || d.standing.Some?)
    && !Text.Blank(d.claim.bankReference) && !CreditedBefore(w.rows, d.claim.bankReference)
    && d.bank.Some? && d.bank.value.reference == d.claim.bankReference
    && d.bank.value.account == d.expectedAccount && d.bank.value.amount > 0
  }

  /** The row keeps who recorded it, both references, the claim and the bank's figure; nobody has approved it. */
  lemma RowKeepsTheDeposit(w: Desk, d: Deposit)
    requires RecordDeposit(w, d).Success?
    ensures var rows' := RecordDeposit(w, d).value.rows;
            && |rows'| == |w.rows| + 1 && rows'[..|w.rows|] == w.rows
            && var r := rows'[|w.rows|];
               && r.id == d.id && r.recordedBy == Some(d.recordedBy) && r.approvedBy.None?
               && r.quotedReference == d.claim.depositReference && r.bankReference == d.claim.bankReference
               && r.claimed == d.claim.claimed
               && r.bankAmount == (if d.bank.Some? then Some(d.bank.value.amount) else None)
               && (r.postingId.Some? <==> r.status == Credited)
  {
  }

  /** Its shop is that of a slip bearing the reference, and the standing one only when no slip does. */
  lemma RowNamesTheShop(w: Desk, d: Deposit)
    requires RecordDeposit(w, d).Success?
    ensures var r := RecordDeposit(w, d).value.rows[|w.rows|];
            if QuotesASlip(w.orders, d) then
              exists k :: 0 <= k < |w.orders| && w.orders[k].reference == Reference.Normalize(d.claim.depositReference)
                          && r.merchant == Some(w.orders[k].shop)
            else r.merchant == d.standing
  {
    var at := OrderFor(w.orders, Reference.Normalize(d.claim.depositReference));
    if at.Some? {
      assert w.orders[at.value].reference == Reference.Normalize(d.claim.depositReference);
    }
  }

  lemma ShopIsKnown(w: Desk, d: Deposit)
    ensures ShopFor(w.orders, d).Some? <==> QuotesASlip(w.orders, d) || d.standing.Some?
  {
    var at := OrderFor(w.orders, Reference.Normalize(d.claim.depositReference));
    if at.Some? {
      assert w.orders[at.value].reference == Reference.Normalize(d.claim.depositReference);
    }
  }

  /** Its status: credited up to the cap, waiting above it; and why it is neither. */
  lemma RowTellsTheOutcome(w: Desk, d: Deposit)
    requires RecordDeposit(w, d).Success?
    ensures var status, known := RecordDeposit(w, d).value.rows[|w.rows|].status, QuotesASlip(w.orders, d) || d.standing.Some?;
            && (status == Credited <==> Confirmed(w, d) && d.bank.value.amount <= d.autoCreditCap)
            && (status == Matched <==> Confirmed(w, d) && d.bank.value.amount > d.autoCreditCap)
            && (status == Duplicate <==>
                known && !Text.Blank(d.claim.bankReference) && CreditedBefore(w.rows, d.claim.bankReference))
            && (status == ManualReview <==> !known || Text.Blank(d.claim.bankReference))
            && status in {Credited, Matched, Duplicate, ManualReview, Rejected}
  {
    ShopIsKnown(w, d);
  }

  /** A shop's balance rises by an amount, and no other's moves. */
  ghost predicate OnlyCredits(s: Store, t: Store, shop: string, amount: int) {
    forall m :: Available(t.entries, m) == Available(s.entries, m) + if m == shop then amount else 0
  }

  lemma FundCredits(s: Store, shop: string, amount: int, postingId: string)
    requires Valid(s) && Commits(s, Fund(shop, amount, postingId))
    ensures OnlyCredits(s, Next(s, Fund(shop, amount, postingId)), shop, amount)
  {
    forall m {
      AvailableEffect(s, Fund(shop, amount, postingId), m);
    }
  }

  /** Only a credited row comes with money, the bank's amount to the row's shop, and closes only the slip it quotes. */
  lemma RowComesWithItsMoney(w: Desk, d: Deposit)
    requires Valid(w.store) && RecordDeposit(w, d).Success?
    ensures var w' := RecordDeposit(w, d).value;
            var r := w'.rows[|w.rows|];
            if r.status == Credited then
              && r.merchant.Some? && r.bankAmount.Some?
              && OnlyCredits(w.store, w'.store, r.merchant.value, r.bankAmount.value)
              && |w'.orders| == |w.orders|
              && forall k :: 0 <= k < |w.orders| && w'.orders[k] != w.orders[k] ==>
                   w.orders[k].status == Open && w.orders[k].reference == Reference.Normalize(d.claim.depositReference)
            else w'.store == w.store && w'.orders == w.orders
  {
    var decision := DecisionOn(w, d);
    if decision.Credit? {
      FundCredits(w.store, decision.merchant, decision.amount, DepositPosting(d.id));
    }
  }

  // --- who may approve it ------------------------------------------------------------------------------------

  /**
   * Whatever happens at the desk after a deposit was recorded, its own recorder's approval fails and leaves the
   * desk as it was.
   */
  lemma RecorderNeverApproves(w: Desk, d: Deposit, acts: seq<Act>, postingId: string)
    requires Sound(w) && RecordDeposit(w, d).Success?
    ensures var w' := RunDesk(RecordDeposit(w, d).value, acts);
            && |w.rows| < |w'.rows| && w'.rows[|w.rows|].recordedBy == Some(d.recordedBy)
            && SecondApproval(w', |w.rows|, d.recordedBy, postingId).Failure?
            && StepDesk(w', Approve(|w.rows|, d.recordedBy, postingId)) == w'
  {
    var w1 := RecordDeposit(w, d).value;
    RowKeepsTheDeposit(w, d);
    RecordKeeps(w, d);
    EveryRunIsSound(w1, acts);
    assert RowForward(w1.rows[|w.rows|], RunDesk(w1, acts).rows[|w.rows|]);
  }

  /** Everything an approval needs: a waiting row with a shop and an amount, another person, and nothing used before. */
  ghost predicate Approvable(w: Desk, at: nat, admin: string, postingId: string)
    requires at < |w.rows|
  {
    var r := w.rows[at];
    && r.status == Matched && r.merchant.Some? && r.bankAmount.Some? && r.bankAmount.value > 0
    && r.recordedBy != Some(admin)
    && !PostingUsed(w.store.entries, postingId) && !CreditedBefore(w.rows, r.bankReference)
  }

  /**
   * A second approval goes through exactly then: the bank's amount goes to the row's shop, the row names its
   * approver and posting, no other row changes, and no slip but one under the bank's reference. Otherwise nothing
   * changes at all.
   */
  lemma ApprovalExactly(w: Desk, at: nat, admin: string, postingId: string)
    requires Valid(w.store) && at < |w.rows|
    ensures SecondApproval(w, at, admin, postingId).Success? <==> Approvable(w, at, admin, postingId)
    ensures var w', r := StepDesk(w, Approve(at, admin, postingId)), w.rows[at];
            if Approvable(w, at, admin, postingId) then
              && OnlyCredits(w.store, w'.store, r.merchant.value, r.bankAmount.value)
              && w'.rows == w.rows[at := r.(status := Credited, approvedBy := Some(admin), postingId := Some(postingId))]
              && |w'.orders| == |w.orders|
              && forall k :: 0 <= k < |w.orders| && w'.orders[k] != w.orders[k] ==>
                   && w.orders[k].status == Open && w.orders[k].reference == Reference.Normalize(r.bankReference)
                   && w'.orders[k].submission == Some(r.id)
            else w' == w
  {
    var r := w.rows[at];
    if r.merchant.Some? && r.bankAmount.Some? {
      var op := Fund(r.merchant.value, r.bankAmount.value, postingId);
      CommitsExactly(w.store, op);
      if Commits(w.store, op) {
        FundCredits(w.store, r.merchant.value, r.bankAmount.value, postingId);
      }
    }
  }

  /** What an approver is told: a row that no longer waits before whose record it is, and both before the ledger. */
  lemma ApprovalRefusals(w: Desk, at: nat, admin: string, postingId: string)
    requires at < |w.rows|
    ensures var answer, r := SecondApproval(w, at, admin, postingId), w.rows[at];
            var waits := r.status == Matched && r.merchant.Some? && r.bankAmount.Some?;
            && (answer == Failure(NotWaiting) <==> !waits)
            && (answer == Failure(SameApprover) <==> waits && r.recordedBy == Some(admin))
  {
  }

  // --- a payment through the gateway ----------------------------------------------------------------------------

  /** A settled payment leaves its order's shop and amount, and the gateway's own reference, on a row nobody recorded. */
  lemma GatewayRowTells(w: Desk, at: nat, seen: OrderStatus, p: Payment, id: string)
    requires Sound(w) && at < |w.orders| && Settles(w, at, seen, p) && Unsettled(w, at, p, id)
    ensures var w', o := StepDesk(w, Gateway(at, seen, p, id)), w.orders[at];
            && OnlyCredits(w.store, w'.store, o.shop, o.amount)
            && w'.rows == w.rows + [Submission(id, Some(o.shop), o.reference, p.providerReference, Some(o.amount),
                                               Some(o.amount), Credited, None, None, None)]
  {
    var o := w.orders[at];
    GatewaySettlesExactly(w, at, seen, p, id);
    FundCredits(w.store, o.shop, o.amount, GatewayPosting(o.reference));
  }

  /** Postings are named after what they pay: two meet exactly for one deposit, one order, or an id spelled like one. */
  lemma PostingNamesExactly(x: string, y: string)
    ensures DepositPosting(x) == DepositPosting(y) <==> x == y
    ensures GatewayPosting(x) == GatewayPosting(y) <==> x == y
    ensures DepositPosting(x) == GatewayPosting(y) <==> x == "chapa_" + y
  {
    assert DepositPosting(x)[8..] == x && DepositPosting(y)[8..] == y;
    assert GatewayPosting(x)[14..] == x && GatewayPosting(y)[14..] == y;
    assert GatewayPosting(y) == "posting_" + ("chapa_" + y);
    assert GatewayPosting(y)[8..] == "chapa_" + y;
  }

  /** A slip is printed once, open and unpaid; an open one can lapse or be withdrawn, and then stays so. */
  lemma SlipsOpenAndLapse(w: Desk, reference: string, shop: string, amount: int, at: nat, expired: bool)
    ensures var printed := StepDesk(w, Print(reference, shop, amount));
            if amount > 0 && (forall k :: 0 <= k < |w.orders| ==> w.orders[k].reference != reference)
            then printed == w.(orders := w.orders + [Order(reference, shop, amount, Open, None)]) else printed == w
    ensures at < |w.orders| && w.orders[at].status == Open ==>
              var lapsed := StepDesk(w, Close(at, expired));
              && lapsed.orders[at] == w.orders[at].(status := lapsed.orders[at].status)
              && (lapsed.orders[at].status == Expired <==> expired) && (lapsed.orders[at].status == Cancelled <==> !expired)
              && forall again :: StepDesk(lapsed, Close(at, again)) == lapsed
  {
  }

  predicate OtherOrder(p: Payment, o: Order) {
    Reference.Normalize(p.reference) != Reference.Normalize(o.reference)
  }

  /** Why a payment is not taken: whose it is comes before the order's state, and that before currency and amount. */
  lemma GatewayRefusals(p: Payment, o: Order)
    ensures var answer, own := DecideGateway(p, o), p.succeeded && !OtherOrder(p, o);
            && (answer == Failure(NotSuccessful) <==> !p.succeeded)
            && (answer == Failure(ReferenceMismatch) <==> p.succeeded && OtherOrder(p, o))
            && (answer == Failure(PaidAlready) <==> own && o.status == OrderStatus.Paid)
            && (answer == Failure(OrderNotOpen) <==> own && o.status in {Expired, Cancelled})
            && (answer == Failure(WrongCurrency) <==> own && o.status == Open && !p.birr)
            && (answer == Failure(Underpaid) <==> own && o.status == Open && p.birr && p.amount < o.amount)
            && (answer == Failure(Overpaid) <==> own && o.status == Open && p.birr && p.amount > o.amount)
  {
  }

  // --- the status table ------------------------------------------------------------------------------------------

  function Height(s: FundingStatus): nat {
    match s
    case Submitted => 0
    case AwaitingVerification => 1
    case Matched => 2
    case ManualReview => 3
    case _ => 4
  }

  /** Where each status can be come to from; moves only climb, and exactly the three decided ones have no way out. */
  lemma FundingTableExactly(from: FundingStatus, to: FundingStatus)
    ensures to in FundingTransitions(from) <==>
            match to
            case Submitted => false
            case AwaitingVerification => from == Submitted
            case Matched => from == AwaitingVerification
            case Credited => from in {Matched, ManualReview}
            case Rejected => from in {AwaitingVerification, ManualReview}
            case Duplicate => from in {AwaitingVerification, ManualReview}
            case ManualReview => from in {Submitted, AwaitingVerification, Matched}
    ensures to in FundingTransitions(from) ==> Height(from) < Height(to)
    ensures FundingTransitions(from) == {} <==> from in {Credited, Rejected, Duplicate}
  {
    assert Credited in FundingTransitions(Matched) && Credited in FundingTransitions(ManualReview);
    assert AwaitingVerification in FundingTransitions(Submitted);
    assert Matched in FundingTransitions(AwaitingVerification);
  }
}
