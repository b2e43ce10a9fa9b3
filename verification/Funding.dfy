/** Deposits: the decision on a claim, its recording, the second approval, and payments through the gateway. */
module Funding {
  import opened Wrappers
  import opened Sequences
  import opened Ledger
  import opened Operations
  import opened Effects
  import Text
  import Reference = DepositReference

  datatype FundingStatus =
    | Submitted | AwaitingVerification | Matched | Credited | Rejected | Duplicate | ManualReview

  datatype BankRecord = BankRecord(reference: string, amount: int, account: string)

  datatype Claim = Claim(depositReference: string, bankReference: string, claimed: Option<int>)

  datatype RejectReason = NoBankRecord | WrongAccount | AmountNotPositive | BankReferenceMismatch

  datatype ReviewReason = ReferenceUnreadable | ReferenceNotAssigned | BankReferenceMissing

  datatype Decision =
    | Credit(merchant: string, amount: int, bankReference: string, claimDiffered: bool)
    | NeedsApproval(merchant: string, amount: int, bankReference: string)
    | IsDuplicate(bankReference: string)
    | Reject(reason: RejectReason)
    | Review(why: ReviewReason)

  datatype Verification = Verification(
    claim: Claim, bank: Option<BankRecord>, merchant: Option<string>, alreadyCredited: bool,
    expectedAccount: string, autoCreditCap: int)

  /** The first thing wrong decides; nothing wrong leads to value. */
  function VerifyDeposit(v: Verification): Decision {
    if v.merchant.None? then
      Review(if Text.Blank(v.claim.depositReference) then ReferenceUnreadable else ReferenceNotAssigned)
    else if Text.Blank(v.claim.bankReference) then Review(BankReferenceMissing)
    else if v.alreadyCredited then IsDuplicate(v.claim.bankReference)
    else if v.bank.None? then Reject(NoBankRecord)
    else if v.bank.value.reference != v.claim.bankReference then Reject(BankReferenceMismatch)
    else if v.bank.value.account != v.expectedAccount then Reject(WrongAccount)
    else if v.bank.value.amount <= 0 then Reject(RejectReason.AmountNotPositive)
    else
      var amount := v.bank.value.amount;
      if amount > v.autoCreditCap then NeedsApproval(v.merchant.value, amount, v.bank.value.reference)
      else Decision.Credit(v.merchant.value, amount, v.bank.value.reference,
                  v.claim.claimed.Some? && v.claim.claimed.value != amount)
  }

  function StatusAfterVerification(d: Decision): FundingStatus {
    match d
    case Credit(_, _, _, _) => Credited
    case NeedsApproval(_, _, _) => Matched
    case IsDuplicate(_) => Duplicate
    case Reject(_) => Rejected
    case Review(_) => ManualReview
  }

  function FundingTransitions(from: FundingStatus): set<FundingStatus> {
    match from
    case Submitted => {AwaitingVerification, ManualReview}
    case AwaitingVerification => {Matched, Rejected, Duplicate, ManualReview}
    case Matched => {Credited, ManualReview}
    case ManualReview => {Credited, Rejected, Duplicate}
    case _ => {}
  }

  // --- the tables and the ledger -----------------------------------------------------------------------

  /** A row of funding_submissions. Nobody keys in a gateway payment, so its recorder is None. */
  datatype Submission = Submission(
    id: string, merchant: Option<string>, quotedReference: string, bankReference: string, claimed: Option<int>,
    bankAmount: Option<int>, status: FundingStatus, postingId: Option<string>, recordedBy: Option<string>,
    approvedBy: Option<string>)

  datatype OrderStatus = Open | Paid | Expired | Cancelled

  /** A printed slip: a row of topup_orders, its reference in normal form. */
  datatype Order = Order(reference: string, shop: string, amount: int, status: OrderStatus, submission: Option<string>)

  datatype Desk = Desk(store: Store, rows: seq<Submission>, orders: seq<Order>)

  datatype DeskError = CheckFailed | DuplicateId | AlreadyCredited | NotPosted | NotWaiting | SameApprover

  /** What the operator typed; standing is the shop whose own code the quoted reference is, if any. */
  datatype Deposit = Deposit(
    id: string, claim: Claim, bank: Option<BankRecord>, standing: Option<string>,
    expectedAccount: string, autoCreditCap: int, recordedBy: string)

  predicate CreditedBefore(rows: seq<Submission>, bankReference: string) {
    exists i :: 0 <= i < |rows| && rows[i].bankReference == bankReference && rows[i].status == Credited
  }

  predicate IdTaken(rows: seq<Submission>, id: string) {
    exists i :: 0 <= i < |rows| && rows[i].id == id
  }

  function OrderFor(orders: seq<Order>, reference: string): (r: Option<nat>)
    ensures r.Some? ==> r.value < |orders| && orders[r.value].reference == reference
    ensures r.None? ==> forall k :: 0 <= k < |orders| ==> orders[k].reference != reference
  {
    IndexWhere(orders, (o: Order) => o.reference == reference)
  }

  /** Whose reference is this: a printed slip's shop first, then the standing one. */
  function ShopFor(orders: seq<Order>, d: Deposit): Option<string> {
    var at := OrderFor(orders, Reference.Normalize(d.claim.depositReference));
    if at.Some? then Some(orders[at.value].shop) else d.standing
  }

  /** UPDATE topup_orders SET status = 'PAID' ... WHERE reference = ? AND status = 'OPEN'. */
  function MarkPaid(orders: seq<Order>, reference: string, submission: string): seq<Order> {
    var at := OrderFor(orders, reference);
    if at.Some? && orders[at.value].status == Open
    then orders[at.value := orders[at.value].(status := OrderStatus.Paid, submission := Some(submission))] else orders
  }

  function DecisionOn(w: Desk, d: Deposit): Decision {
    VerifyDeposit(Verification(d.claim, d.bank, ShopFor(w.orders, d), CreditedBefore(w.rows, d.claim.bankReference),
                               d.expectedAccount, d.autoCreditCap))
  }

  predicate PositiveOrAbsent(n: Option<int>) {
    n.Some? ==> n.value > 0
  }

  function BankAmount(d: Deposit): Option<int> {
    if d.bank.Some? then Some(d.bank.value.amount) else None
  }

  /** INSERT: the amount CHECKs, the primary key, and the unique index on credited bank references. */
  function InsertSubmission(rows: seq<Submission>, r: Submission): Result<seq<Submission>, DeskError> {
    if !PositiveOrAbsent(r.claimed) || !PositiveOrAbsent(r.bankAmount) then Failure(DeskError.CheckFailed)
    else if IdTaken(rows, r.id) then Failure(DuplicateId)
    else if r.status == Credited && CreditedBefore(rows, r.bankReference) then Failure(AlreadyCredited)
    else Success(rows + [r])
  }

  function RowFor(w: Desk, d: Deposit): Submission {
    Submission(d.id, ShopFor(w.orders, d), d.claim.depositReference, d.claim.bankReference, d.claim.claimed,
               BankAmount(d), StatusAfterVerification(DecisionOn(w, d)), None, Some(d.recordedBy), None)
  }

  function DepositPosting(id: string): string {
    "posting_" + id
  }

  /** The whole recording of a deposit: its row, and for a credit the posting and the quoted slip closed, or none of it. */
  function RecordDeposit(w: Desk, d: Deposit): Result<Desk, DeskError> {
    var decision := DecisionOn(w, d);
    var rows :- InsertSubmission(w.rows, RowFor(w, d));
    if !decision.Credit? then Success(w.(rows := rows))
    else
      var op := Fund(decision.merchant, decision.amount, DepositPosting(d.id));
      if !Commits(w.store, op) then Failure(NotPosted)
      else
        Success(Desk(Next(w.store, op), rows[|w.rows| := RowFor(w, d).(postingId := Some(DepositPosting(d.id)))],
                     MarkPaid(w.orders, Reference.Normalize(d.claim.depositReference), d.id)))
  }

  /**
   * A second person's approval of a deposit they read as waiting in MATCHED: the credit, then the row, then the
   * slip, in one transaction. The row's UPDATE names the status it expects, but nobody counts the rows it changed;
   * the slip is looked for under the bank's reference.
   */
  function ApproveAsSeen(w: Desk, at: nat, seen: Submission, admin: string, postingId: string): Result<Desk, DeskError>
    requires at < |w.rows|
  {
    if seen.status != Matched || seen.merchant.None? || seen.bankAmount.None? then Failure(NotWaiting)
    else if seen.recordedBy == Some(admin) then Failure(SameApprover)
    else
      var op := Fund(seen.merchant.value, seen.bankAmount.value, postingId);
      var orders := MarkPaid(w.orders, Reference.Normalize(seen.bankReference), seen.id);
      if !Commits(w.store, op) then Failure(NotPosted)
      else if w.rows[at].status != Matched then Success(Desk(Next(w.store, op), w.rows, orders))
      else if CreditedBefore(w.rows, w.rows[at].bankReference) then Failure(AlreadyCredited)
      else Success(Desk(Next(w.store, op), w.rows[at := Approved(w.rows[at], admin, postingId)], orders))
  }

  function Approved(r: Submission, admin: string, postingId: string): Submission {
    r.(status := Credited, approvedBy := Some(admin), postingId := Some(postingId))
  }

  /** The approval of a row that is still what was read. */
  function SecondApproval(w: Desk, at: nat, admin: string, postingId: string): Result<Desk, DeskError>
    requires at < |w.rows|
  {
    ApproveAsSeen(w, at, w.rows[at], admin, postingId)
  }

  // --- the gateway ---------------------------------------------------------------------------------------

  /** What the gateway says of a payment when it is asked. */
  datatype Payment = Payment(succeeded: bool, reference: string, birr: bool, amount: int, providerReference: string)

  datatype GatewayRefusal =
    | NotSuccessful | ReferenceMismatch | PaidAlready | OrderNotOpen | WrongCurrency | Underpaid | Overpaid

  /** Identity before status, status before currency and amount; the order's amount is the one credited. */
  function DecideGateway(p: Payment, o: Order): Result<int, GatewayRefusal> {
    if !p.succeeded then Failure(NotSuccessful)
    else if Reference.Normalize(p.reference) != Reference.Normalize(o.reference) then Failure(ReferenceMismatch)
    else if o.status == OrderStatus.Paid then Failure(PaidAlready)
    else if o.status != Open then Failure(OrderNotOpen)
    else if !p.birr then Failure(WrongCurrency)
    else if p.amount < o.amount then Failure(Underpaid)
    else if p.amount > o.amount then Failure(Overpaid)
    else Success(o.amount)
  }

  function GatewayPosting(reference: string): string {
    "posting_chapa_" + reference
  }

  function GatewayRow(o: Order, p: Payment, id: string): Submission {
    Submission(id, Some(o.shop), o.reference, p.providerReference, Some(o.amount), Some(o.amount), Credited, None, None, None)
  }

  /**
   * A payment decided on the order as it was read, then settled in one transaction that first claims the order:
   * whoever finds it no longer open has lost and changes nothing.
   */
  function SettleGateway(w: Desk, at: nat, seen: OrderStatus, p: Payment, id: string): Result<Desk, DeskError>
    requires at < |w.orders|
  {
    var o := w.orders[at];
    if DecideGateway(p, o.(status := seen)).Failure? || o.status != Open then Success(w)
    else
      var op := Fund(o.shop, o.amount, GatewayPosting(o.reference));
      if !Commits(w.store, op) then Failure(NotPosted)
      else
        var rows :- InsertSubmission(w.rows, GatewayRow(o, p, id));
        Success(Desk(Next(w.store, op), rows, w.orders[at := o.(status := OrderStatus.Paid, submission := Some(id))]))
  }

  // --- runs ------------------------------------------------------------------------------------------------

  datatype Act =
    | Record(deposit: Deposit)
    | Approve(at: nat, admin: string, postingId: string)
    | Gateway(order: nat, seen: OrderStatus, payment: Payment, id: string)
    | Print(reference: string, shop: string, amount: int)
    | Close(slip: nat, expired: bool)
    | Elsewhere(op: Op)

  function Kept(w: Desk, r: Result<Desk, DeskError>): Desk {
    if r.Success? then r.value else w
  }

  /** One unit of work: a deposit, an approval, a payment, a slip printed or closed, or any other ledger call. */
  function StepDesk(w: Desk, a: Act): Desk {
    match a
    case Record(d) => Kept(w, RecordDeposit(w, d))
    case Approve(at, admin, p) => if at < |w.rows| then Kept(w, SecondApproval(w, at, admin, p)) else w
    case Gateway(at, seen, p, id) => if at < |w.orders| then Kept(w, SettleGateway(w, at, seen, p, id)) else w
    case Print(reference, shop, amount) =>
      if amount <= 0 || OrderFor(w.orders, reference).Some? then w
      else w.(orders := w.orders + [Order(reference, shop, amount, Open, None)])
    case Close(at, expired) =>
      if at >= |w.orders| || w.orders[at].status != Open then w
      else w.(orders := w.orders[at := w.orders[at].(status := if expired then Expired else Cancelled)])
    case Elsewhere(op) => w.(store := Next(w.store, op))
  }

  function RunDesk(w: Desk, acts: seq<Act>): Desk
    decreases |acts|
  {
    if acts == [] then w else RunDesk(StepDesk(w, acts[0]), acts[1..])
  }

  // --- the decision --------------------------------------------------------------------------------------

  /** What can be wrong with a deposit, each judged on its own. */
  datatype Fault = NoShop | NoReference | PaidBefore | NotAtBank | OtherPayment | OtherAccount | NothingPaid

  predicate AtFault(v: Verification, f: Fault) {
    match f
    case NoShop => v.merchant.None?
    case NoReference => Text.Blank(v.claim.bankReference)
    case PaidBefore => v.alreadyCredited
    case NotAtBank => v.bank.None?
    case OtherPayment => v.bank.Some? && v.bank.value.reference != v.claim.bankReference
    case OtherAccount => v.bank.Some? && v.bank.value.account != v.expectedAccount
    case NothingPaid => v.bank.Some? && v.bank.value.amount <= 0
  }

  /** The turn each is looked for in. */
  function Turn(f: Fault): nat {
    match f
    case NoShop => 0
    case NoReference => 1
    case PaidBefore => 2
    case NotAtBank => 3
    case OtherPayment => 4
    case OtherAccount => 5
    case NothingPaid => 6
  }

  function Answer(v: Verification, f: Fault): Decision {
    match f
    case NoShop => Review(if Text.Blank(v.claim.depositReference) then ReferenceUnreadable else ReferenceNotAssigned)
    case NoReference => Review(BankReferenceMissing)
    case PaidBefore => IsDuplicate(v.claim.bankReference)
    case NotAtBank => Reject(NoBankRecord)
    case OtherPayment => Reject(BankReferenceMismatch)
    case OtherAccount => Reject(WrongAccount)
    case NothingPaid => Reject(RejectReason.AmountNotPositive)
  }

  /** A deposit that is not credited gets the answer of the first thing wrong with it. */
  lemma FirstFaultAnswers(v: Verification, f: Fault)
    requires AtFault(v, f) && forall g :: AtFault(v, g) ==> Turn(g) >= Turn(f)
    ensures VerifyDeposit(v) == Answer(v, f)
  {
    assert f != NoShop ==> !AtFault(v, NoShop);
    assert f != NoShop && f != NoReference ==> !AtFault(v, NoReference);
    assert Turn(f) > 2 ==> !AtFault(v, PaidBefore);
    assert Turn(f) > 3 ==> !AtFault(v, NotAtBank);
    assert Turn(f) > 4 ==> !AtFault(v, OtherPayment);
    assert Turn(f) > 5 ==> !AtFault(v, OtherAccount);
  }

  /** Everything a deposit must meet before any value can follow from it. */
  predicate Creditable(v: Verification) {
    && v.merchant.Some? && !Text.Blank(v.claim.bankReference) && !v.alreadyCredited
    && v.bank.Some? && v.bank.value.reference == v.claim.bankReference
    && v.bank.value.account == v.expectedAccount && v.bank.value.amount > 0
  }

  /**
   * Value follows exactly when nothing is wrong, at once up to the cap and on approval above it, and always to the
   * reference's shop in the bank's own amount.
   */
  lemma CreditExactly(v: Verification)
    ensures Creditable(v) <==> forall f :: !AtFault(v, f)
    ensures VerifyDeposit(v).Credit? <==> Creditable(v) && v.bank.value.amount <= v.autoCreditCap
    ensures VerifyDeposit(v).NeedsApproval? <==> Creditable(v) && v.bank.value.amount > v.autoCreditCap
    ensures var d := VerifyDeposit(v);
            d.Credit? || d.NeedsApproval? ==>
              Some(d.merchant) == v.merchant && d.amount == v.bank.value.amount && d.bankReference == v.bank.value.reference
    ensures VerifyDeposit(v).Credit? ==>
              (VerifyDeposit(v).claimDiffered <==> v.claim.claimed.Some? && v.claim.claimed != Some(v.bank.value.amount))
    ensures VerifyDeposit(v).IsDuplicate? <==>
            v.merchant.Some? && !Text.Blank(v.claim.bankReference) && v.alreadyCredited
    ensures VerifyDeposit(v).Review? <==> v.merchant.None? || Text.Blank(v.claim.bankReference)
  {
    if !Creditable(v) {
      var f := if v.merchant.None? then NoShop
        else if Text.Blank(v.claim.bankReference) then NoReference
        else if v.alreadyCredited then PaidBefore
        else if v.bank.None? then NotAtBank
        else if v.bank.value.reference != v.claim.bankReference then OtherPayment
        else if v.bank.value.account != v.expectedAccount then OtherAccount
        else NothingPaid;
      assert AtFault(v, f);
    }
  }

  /** A decision's status is a legal move from verification exactly when it is no credit: a credit skips the match. */
  lemma DecisionsFollowTheTable(v: Verification)
    ensures var status := StatusAfterVerification(VerifyDeposit(v));
            && (status in FundingTransitions(AwaitingVerification) <==> !VerifyDeposit(v).Credit?)
            && (status == Credited <==> VerifyDeposit(v).Credit?) && Credited in FundingTransitions(Matched)
            && status !in {Submitted, AwaitingVerification}
  {
  }

  function WithClaim(d: Deposit, claimed: Option<int>): Deposit {
    d.(claim := d.claim.(claimed := claimed))
  }

  /** Two tables alike but for what shops said they paid. */
  ghost predicate SameButClaims(a: seq<Submission>, b: seq<Submission>) {
    |a| == |b| && forall i :: 0 <= i < |a| ==> a[i] == b[i].(claimed := a[i].claimed)
  }

  /**
   * What the shop said it paid changes no shop, amount, status, posting or slip. It matters only where the
   * table's CHECK refuses it: a claim of nothing or less cannot be recorded at all.
   */
  lemma ClaimChangesNothing(w: Desk, d: Deposit, claimed: Option<int>)
    requires PositiveOrAbsent(d.claim.claimed) && RecordDeposit(w, d).Success?
    ensures RecordDeposit(w, WithClaim(d, claimed)).Success? <==> PositiveOrAbsent(claimed)
    ensures PositiveOrAbsent(claimed) ==>
              var a, b := RecordDeposit(w, d).value, RecordDeposit(w, WithClaim(d, claimed)).value;
              a.store == b.store && a.orders == b.orders && SameButClaims(a.rows, b.rows)
  {
  }

  /** What the operator brings is fit to be written: amounts, an id of its own, and for a credit a posting of its own. */
  ghost predicate Storable(w: Desk, d: Deposit) {
    && PositiveOrAbsent(d.claim.claimed) && PositiveOrAbsent(BankAmount(d)) && !IdTaken(w.rows, d.id)
    && (DecisionOn(w, d).Credit? ==> !PostingUsed(w.store.entries, DepositPosting(d.id)))
  }

  /** A decided deposit is recorded exactly when what it brings can be written; otherwise nothing of it stays. */
  lemma RecordedExactly(w: Desk, d: Deposit)
    requires Valid(w.store)
    ensures RecordDeposit(w, d).Success? <==> Storable(w, d)
    ensures !Storable(w, d) ==> StepDesk(w, Record(d)) == w
    ensures RecordDeposit(w, d).Success? ==> |RecordDeposit(w, d).value.rows| == |w.rows| + 1
  {
    var decision := DecisionOn(w, d);
    if decision.Credit? {
      CommitsExactly(w.store, Fund(decision.merchant, decision.amount, DepositPosting(d.id)));
      assert !CreditedBefore(w.rows, d.claim.bankReference);
    }
  }

  /** A rejection for a bank amount of nothing or less is decided but never stored: the row's CHECK refuses it. */
  lemma AmountRejectionIsNeverStored(w: Desk, d: Deposit)
    requires DecisionOn(w, d) == Reject(RejectReason.AmountNotPositive)
    ensures RecordDeposit(w, d).Failure? && StepDesk(w, Record(d)) == w
  {
  }

  /**
   * So is every other decision on such an amount: a bank figure that rounds to nothing, quoted for no known shop,
   * ought to go to review, and no row of it is kept.
   */
  lemma ReviewCanBeLost(w: Desk, d: Deposit)
    requires ShopFor(w.orders, d).None? && d.bank.Some? && d.bank.value.amount == 0
    ensures DecisionOn(w, d).Review? && RecordDeposit(w, d) == Failure(DeskError.CheckFailed)
    ensures StepDesk(w, Record(d)) == w
  {
  }

  /** And it happens on an empty desk, for every reference, account and operator. */
  lemma LostReview(id: string, quoted: string, bankReference: string, account: string, cap: int, operator: string)
    ensures var d := Deposit(id, Claim(quoted, bankReference, None), Some(BankRecord(bankReference, 0, account)), None,
                             account, cap, operator);
            DecisionOn(Desk(EMPTY, [], []), d).Review? && RecordDeposit(Desk(EMPTY, [], []), d).Failure?
  {
    var d := Deposit(id, Claim(quoted, bankReference, None), Some(BankRecord(bankReference, 0, account)), None,
                     account, cap, operator);
    assert OrderFor([], Reference.Normalize(quoted)).None?;
    ReviewCanBeLost(Desk(EMPTY, [], []), d);
  }

  /** A payment through the gateway credits exactly an order that is open, its own, and paid in full to the unit. */
  lemma GatewayCreditsExactly(p: Payment, o: Order)
    ensures DecideGateway(p, o).Success? <==>
            && p.succeeded && p.birr && o.status == Open && p.amount == o.amount
            && Reference.Normalize(p.reference) == Reference.Normalize(o.reference)
    ensures DecideGateway(p, o).Success? ==> DecideGateway(p, o).value == o.amount
  {
  }

  // --- what every run keeps -----------------------------------------------------------------------------------

  /** The posting that paid a credited row. A gateway row stores none: its posting is named after the order. */
  function PostingOf(r: Submission): Option<string> {
    if r.postingId.Some? then r.postingId
    else if r.recordedBy.None? then Some(GatewayPosting(r.quotedReference)) else None
  }

  /** A credited row names the shop, the amount and the posting of its own credit, and the ledger holds it. */
  ghost predicate Credits(s: Store, r: Submission) {
    && r.merchant.Some? && r.bankAmount.Some? && PostingOf(r).Some?
    && Holds(s.entries, PostingOf(r).value, FundLines(r.merchant.value, r.bankAmount.value))
  }

  /** Ids are distinct, each bank reference and each posting is credited once, and nobody approves their own record. */
  ghost predicate SoundRows(s: Store, rows: seq<Submission>) {
    && (forall i, j :: 0 <= i < j < |rows| ==> rows[i].id != rows[j].id)
    && (forall i :: 0 <= i < |rows| && rows[i].status == Credited ==> Credits(s, rows[i]))
    && (forall i, j :: 0 <= i < j < |rows| && rows[i].status == Credited && rows[j].status == Credited ==>
          rows[i].bankReference != rows[j].bankReference && PostingOf(rows[i]) != PostingOf(rows[j]))
    && (forall i :: 0 <= i < |rows| && rows[i].approvedBy.Some? ==> rows[i].recordedBy != rows[i].approvedBy)
  }

  ghost predicate CreditedId(rows: seq<Submission>, id: string) {
    exists i :: 0 <= i < |rows| && rows[i].id == id && rows[i].status == Credited
  }

  /** References are distinct, and a slip names a submission only when that submission was credited. */
  ghost predicate SoundOrders(rows: seq<Submission>, orders: seq<Order>) {
    && (forall i, j :: 0 <= i < j < |orders| ==> orders[i].reference != orders[j].reference)
    && (forall k :: 0 <= k < |orders| ==>
          && orders[k].amount > 0
          && (orders[k].submission.Some? <==> orders[k].status == OrderStatus.Paid)
          && (orders[k].status == OrderStatus.Paid ==> CreditedId(rows, orders[k].submission.value)))
  }

  ghost predicate Sound(w: Desk) {
    Valid(w.store) && SoundRows(w.store, w.rows) && SoundOrders(w.rows, w.orders)
  }

  function CreditedSum(rows: seq<Submission>, m: string): int {
    if rows == [] then 0
    else CreditedSum(rows[..|rows| - 1], m) + CreditedAmount(rows[|rows| - 1], m)
  }

  function CreditedAmount(r: Submission, m: string): int {
    if r.status == Credited && r.merchant == Some(m) && r.bankAmount.Some? then r.bankAmount.value else 0
  }

  function FundingCredits(s: Store, m: string): int {
    Total(s.entries, Filter.Funding(m))
  }

  /** What an act credits a shop with outside the deposits table. */
  function FundedElsewhere(w: Desk, a: Act, m: string): int {
    if a.Elsewhere? && a.op.Fund? && a.op.merchant == m && Commits(w.store, a.op) then a.op.amount else 0
  }

  /** The funding credits posted to a shop are those of its rows newly credited, and what was funded elsewhere. */
  ghost predicate Accounts(w: Desk, w': Desk, m: string, elsewhere: int) {
    FundingCredits(w'.store, m) - FundingCredits(w.store, m) ==
    CreditedSum(w'.rows, m) - CreditedSum(w.rows, m) + elsewhere
  }

  /** Shop by shop, every funding credit posted is that of a row newly credited. */
  ghost predicate Accounted(w: Desk, w': Desk) {
    forall m :: Accounts(w, w', m, 0)
  }

  /** A decided row never changes, rows are never removed, and a slip once closed stays as it is. */
  ghost predicate OnlyForward(w: Desk, w': Desk) {
    && |w.rows| <= |w'.rows| && |w.orders| <= |w'.orders|
    && (forall i :: 0 <= i < |w.rows| ==> RowForward(w.rows[i], w'.rows[i]))
    && (forall k :: 0 <= k < |w.orders| ==> OrderForward(w.orders[k], w'.orders[k]))
  }

  predicate RowForward(r: Submission, r': Submission) {
    r' == r || (r.status == Matched && r'.status == Credited
    && r' == r.(status := r'.status, postingId := r'.postingId, approvedBy := r'.approvedBy))
  }

  predicate OrderForward(o: Order, o': Order) {
    o' == o || (o.status == Open && o' == o.(status := o'.status, submission := o'.submission))
  }

  // --- credits in the ledger ----------------------------------------------------------------------------------

  lemma FundingLines(s: Store, op: Op, m: string)
    ensures LinesTotal(LinesOf(s, op), Filter.Funding(m)) == if op.Fund? && op.merchant == m then op.amount else 0
  {
    LinesWeight(s, op, Filter.Funding(m));
  }

  lemma FundingEffect(s: Store, op: Op, m: string)
    requires Valid(s)
    ensures FundingCredits(Next(s, op), m) ==
            FundingCredits(s, m) + if Commits(s, op) && op.Fund? && op.merchant == m then op.amount else 0
  {
    if Commits(s, op) {
      TotalsStep(s, op, Filter.Funding(m));
      FundingLines(s, op, m);
    }
  }

  /** The ledger only grows, so rows keep the credits they name. */
  lemma RowsOutlive(s: Store, op: Op, rows: seq<Submission>)
    requires Valid(s) && SoundRows(s, rows)
    ensures SoundRows(Next(s, op), rows)
  {
    if Commits(s, op) {
      CommitAppends(s, op);
      forall i | 0 <= i < |rows| && rows[i].status == Credited
        ensures Credits(Next(s, op), rows[i])
      {
        var r := rows[i];
        HoldsStays(s.entries, Next(s, op).entries, PostingOf(r).value, FundLines(r.merchant.value, r.bankAmount.value));
      }
    }
  }

  /** A credit just posted is held, and no row named its posting before. */
  lemma CreditIsNew(s: Store, rows: seq<Submission>, m: string, a: int, postingId: string)
    requires Valid(s) && SoundRows(s, rows) && Commits(s, Fund(m, a, postingId))
    ensures Holds(Next(s, Fund(m, a, postingId)).entries, postingId, FundLines(m, a))
    ensures forall i :: 0 <= i < |rows| && rows[i].status == Credited ==> PostingOf(rows[i]) != Some(postingId)
  {
    var op := Fund(m, a, postingId);
    CommitAppends(s, op);
    HoldsNew(s.entries, postingId, FundLines(m, a));
    forall i | 0 <= i < |rows| && rows[i].status == Credited
      ensures PostingOf(rows[i]) != Some(postingId)
    {
      assert Credits(s, rows[i]);
      HoldsUses(s.entries, PostingOf(rows[i]).value, FundLines(rows[i].merchant.value, rows[i].bankAmount.value));
    }
  }

  lemma {:induction false} CreditedSumUpdate(rows: seq<Submission>, at: nat, r: Submission, m: string)
    requires at < |rows|
    ensures CreditedSum(rows[at := r], m) == CreditedSum(rows, m) - CreditedAmount(rows[at], m) + CreditedAmount(r, m)
    decreases |rows|
  {
    var last := |rows| - 1;
    if at == last {
      assert rows[at := r][..last] == rows[..last];
    } else {
      assert rows[at := r][..last] == rows[..last][at := r];
      CreditedSumUpdate(rows[..last], at, r, m);
    }
  }

  lemma CreditedSumAppend(rows: seq<Submission>, r: Submission, m: string)
    ensures CreditedSum(rows + [r], m) == CreditedSum(rows, m) + CreditedAmount(r, m)
  {
    assert (rows + [r])[..|rows|] == rows;
  }

  // --- the three ways to a credit -----------------------------------------------------------------------------

  /** A new credited row, beside rows that never named its posting. */
  lemma RowAdded(t: Store, rows: seq<Submission>, r: Submission)
    requires SoundRows(t, rows) && r.status == Credited && Credits(t, r) && r.approvedBy.None?
    requires !IdTaken(rows, r.id) && !CreditedBefore(rows, r.bankReference)
    requires forall i :: 0 <= i < |rows| && rows[i].status == Credited ==> PostingOf(rows[i]) != PostingOf(r)
    ensures SoundRows(t, rows + [r])
  {
  }

  lemma AdditionAccounts(s: Store, rows: seq<Submission>, r: Submission, postingId: string)
    requires Valid(s) && r.status == Credited && r.merchant.Some? && r.bankAmount.Some?
    requires Commits(s, Fund(r.merchant.value, r.bankAmount.value, postingId))
    ensures var t := Next(s, Fund(r.merchant.value, r.bankAmount.value, postingId));
            forall m :: FundingCredits(t, m) - FundingCredits(s, m) == CreditedSum(rows + [r], m) - CreditedSum(rows, m)
  {
    var op := Fund(r.merchant.value, r.bankAmount.value, postingId);
    forall m
      ensures FundingCredits(Next(s, op), m) - FundingCredits(s, m) == CreditedSum(rows + [r], m) - CreditedSum(rows, m)
    {
      FundingEffect(s, op, m);
      CreditedSumAppend(rows, r, m);
    }
  }

  /** A row credited by the posting beside it. */
  lemma CreditedRowAdded(s: Store, rows: seq<Submission>, r: Submission, postingId: string)
    requires Valid(s) && SoundRows(s, rows) && !IdTaken(rows, r.id) && !CreditedBefore(rows, r.bankReference)
    requires r.status == Credited && r.merchant.Some? && r.bankAmount.Some? && r.approvedBy.None?
    requires PostingOf(r) == Some(postingId) && Commits(s, Fund(r.merchant.value, r.bankAmount.value, postingId))
    ensures var t := Next(s, Fund(r.merchant.value, r.bankAmount.value, postingId));
            && Valid(t) && SoundRows(t, rows + [r])
            && forall m :: FundingCredits(t, m) - FundingCredits(s, m) == CreditedSum(rows + [r], m) - CreditedSum(rows, m)
  {
    var op := Fund(r.merchant.value, r.bankAmount.value, postingId);
    ValidIsKept(s, op);
    RowsOutlive(s, op, rows);
    CreditIsNew(s, rows, op.merchant, op.amount, postingId);
    RowAdded(Next(s, op), rows, r);
    AdditionAccounts(s, rows, r, postingId);
  }

  lemma OrdersOutlive(rows: seq<Submission>, rows': seq<Submission>, orders: seq<Order>)
    requires SoundOrders(rows, orders) && |rows| <= |rows'|
    requires forall i :: 0 <= i < |rows| ==> RowForward(rows[i], rows'[i])
    ensures SoundOrders(rows', orders)
  {
    forall k | 0 <= k < |orders| && orders[k].status == OrderStatus.Paid
      ensures CreditedId(rows', orders[k].submission.value)
    {
      var i :| 0 <= i < |rows| && rows[i].id == orders[k].submission.value && rows[i].status == Credited;
      assert rows'[i] == rows[i];
    }
  }

  lemma MarkKeeps(rows: seq<Submission>, orders: seq<Order>, reference: string, id: string)
    requires SoundOrders(rows, orders) && CreditedId(rows, id)
    ensures SoundOrders(rows, MarkPaid(orders, reference, id))
    ensures |MarkPaid(orders, reference, id)| == |orders|
    ensures forall k :: 0 <= k < |orders| ==> OrderForward(orders[k], MarkPaid(orders, reference, id)[k])
  {
  }

  lemma RecordKeeps(w: Desk, d: Deposit)
    requires Sound(w) && RecordDeposit(w, d).Success?
    ensures Sound(RecordDeposit(w, d).value) && OnlyForward(w, RecordDeposit(w, d).value)
    ensures Accounted(w, RecordDeposit(w, d).value)
  {
    var w' := RecordDeposit(w, d).value;
    if DecisionOn(w, d).Credit? {
      var r := RowFor(w, d).(postingId := Some(DepositPosting(d.id)));
      assert w'.rows == w.rows + [r] && w'.rows[|w.rows|] == r;
      CreditedRowAdded(w.store, w.rows, r, DepositPosting(d.id));
      OrdersOutlive(w.rows, w'.rows, w.orders);
      MarkKeeps(w'.rows, w.orders, Reference.Normalize(d.claim.depositReference), d.id);
    } else {
      PlainRowKeeps(w, RowFor(w, d));
    }
  }

  lemma PlainRowKeeps(w: Desk, r: Submission)
    requires Sound(w) && r.status != Credited && r.approvedBy.None? && !IdTaken(w.rows, r.id)
    ensures var w' := w.(rows := w.rows + [r]);
            Sound(w') && OnlyForward(w, w') && Accounted(w, w')
  {
    var w' := w.(rows := w.rows + [r]);
    OrdersOutlive(w.rows, w'.rows, w.orders);
    forall m
      ensures CreditedSum(w'.rows, m) == CreditedSum(w.rows, m)
    {
      CreditedSumAppend(w.rows, r, m);
    }
  }

  /** A waiting row turned into a credited one, beside rows that never named its posting. */
  lemma RowCredited(t: Store, rows: seq<Submission>, at: nat, r: Submission)
    requires SoundRows(t, rows) && at < |rows| && rows[at].status == Matched && Credits(t, r)
    requires r.status == Credited && r.id == rows[at].id && r.bankReference == rows[at].bankReference
    requires r.recordedBy != r.approvedBy
    requires !CreditedBefore(rows, r.bankReference)
    requires forall i :: 0 <= i < |rows| && rows[i].status == Credited ==> PostingOf(rows[i]) != PostingOf(r)
    ensures SoundRows(t, rows[at := r])
  {
  }

  lemma ApprovedRows(s: Store, rows: seq<Submission>, at: nat, admin: string, postingId: string)
    requires Valid(s) && SoundRows(s, rows) && at < |rows| && rows[at].status == Matched
    requires rows[at].merchant.Some? && rows[at].bankAmount.Some? && rows[at].recordedBy != Some(admin)
    requires Commits(s, Fund(rows[at].merchant.value, rows[at].bankAmount.value, postingId))
    requires !CreditedBefore(rows, rows[at].bankReference)
    ensures var t := Next(s, Fund(rows[at].merchant.value, rows[at].bankAmount.value, postingId));
            Valid(t) && SoundRows(t, rows[at := Approved(rows[at], admin, postingId)])
  {
    var op := Fund(rows[at].merchant.value, rows[at].bankAmount.value, postingId);
    ValidIsKept(s, op);
    RowsOutlive(s, op, rows);
    CreditIsNew(s, rows, op.merchant, op.amount, postingId);
    RowCredited(Next(s, op), rows, at, Approved(rows[at], admin, postingId));
  }

  lemma ApprovalAccounts(s: Store, rows: seq<Submission>, at: nat, admin: string, postingId: string)
    requires Valid(s) && at < |rows| && rows[at].status == Matched
    requires rows[at].merchant.Some? && rows[at].bankAmount.Some?
    requires Commits(s, Fund(rows[at].merchant.value, rows[at].bankAmount.value, postingId))
    ensures var t := Next(s, Fund(rows[at].merchant.value, rows[at].bankAmount.value, postingId));
            var rows' := rows[at := Approved(rows[at], admin, postingId)];
            forall m :: FundingCredits(t, m) - FundingCredits(s, m) == CreditedSum(rows', m) - CreditedSum(rows, m)
  {
    var op := Fund(rows[at].merchant.value, rows[at].bankAmount.value, postingId);
    var rows' := rows[at := Approved(rows[at], admin, postingId)];
    forall m
      ensures FundingCredits(Next(s, op), m) - FundingCredits(s, m) == CreditedSum(rows', m) - CreditedSum(rows, m)
    {
      FundingEffect(s, op, m);
      CreditedSumUpdate(rows, at, rows'[at], m);
    }
  }

  lemma ApproveKeeps(w: Desk, at: nat, admin: string, postingId: string)
    requires Sound(w) && at < |w.rows| && SecondApproval(w, at, admin, postingId).Success?
    ensures var w' := SecondApproval(w, at, admin, postingId).value;
            Sound(w') && OnlyForward(w, w') && Accounted(w, w')
  {
    var w' := SecondApproval(w, at, admin, postingId).value;
    ApprovedRows(w.store, w.rows, at, admin, postingId);
    ApprovalAccounts(w.store, w.rows, at, admin, postingId);
    OrdersOutlive(w.rows, w'.rows, w.orders);
    assert w'.rows[at].id == w.rows[at].id && w'.rows[at].status == Credited;
    MarkKeeps(w'.rows, w.orders, Reference.Normalize(w.rows[at].bankReference), w.rows[at].id);
  }

  lemma GatewayKeeps(w: Desk, at: nat, seen: OrderStatus, p: Payment, id: string)
    requires Sound(w) && at < |w.orders| && SettleGateway(w, at, seen, p, id).Success?
    ensures var w' := SettleGateway(w, at, seen, p, id).value;
            Sound(w') && OnlyForward(w, w') && Accounted(w, w')
  {
    var o := w.orders[at];
    var w' := SettleGateway(w, at, seen, p, id).value;
    if w' != w {
      var r := GatewayRow(o, p, id);
      CreditedRowAdded(w.store, w.rows, r, GatewayPosting(o.reference));
      OrdersOutlive(w.rows, w'.rows, w.orders);
      assert w'.rows[|w.rows|] == r;
    }
  }

  lemma PrintKeeps(w: Desk, reference: string, shop: string, amount: int)
    requires Sound(w)
    ensures var w' := StepDesk(w, Print(reference, shop, amount));
            Sound(w') && OnlyForward(w, w') && Accounted(w, w')
  {
  }

  lemma CloseKeeps(w: Desk, at: nat, expired: bool)
    requires Sound(w)
    ensures var w' := StepDesk(w, Close(at, expired));
            Sound(w') && OnlyForward(w, w') && Accounted(w, w')
  {
  }

  lemma ElsewhereKeeps(w: Desk, op: Op)
    requires Sound(w)
    ensures var w' := StepDesk(w, Elsewhere(op));
            && Sound(w') && OnlyForward(w, w')
            && forall m :: Accounts(w, w', m, FundedElsewhere(w, Elsewhere(op), m))
  {
    ValidIsKept(w.store, op);
    RowsOutlive(w.store, op, w.rows);
    forall m {
      FundingEffect(w.store, op, m);
    }
  }

  /** What a payment must be, on the order as it stands, for its settlement to credit anything. */
  predicate Settles(w: Desk, at: nat, seen: OrderStatus, p: Payment)
    requires at < |w.orders|
  {
    && p.succeeded && p.birr && p.amount == w.orders[at].amount
    && Reference.Normalize(p.reference) == Reference.Normalize(w.orders[at].reference)
    && seen == Open && w.orders[at].status == Open
  }

  /** Its posting, its row and the gateway's own reference are all still unused. */
  ghost predicate Unsettled(w: Desk, at: nat, p: Payment, id: string)
    requires at < |w.orders|
  {
    && !PostingUsed(w.store.entries, GatewayPosting(w.orders[at].reference))
    && !IdTaken(w.rows, id) && !CreditedBefore(w.rows, p.providerReference)
  }

  /**
   * A payment that does not settle its order changes nothing. One that does credits the order's amount exactly when
   * its posting, row and reference are unused, and is otherwise refused whole.
   */
  lemma GatewaySettlesExactly(w: Desk, at: nat, seen: OrderStatus, p: Payment, id: string)
    requires Sound(w) && at < |w.orders|
    ensures !Settles(w, at, seen, p) ==> SettleGateway(w, at, seen, p, id) == Success(w)
    ensures Settles(w, at, seen, p) ==> (SettleGateway(w, at, seen, p, id).Success? <==> Unsettled(w, at, p, id))
    ensures Settles(w, at, seen, p) && Unsettled(w, at, p, id) ==>
              var w' := SettleGateway(w, at, seen, p, id).value;
              && w'.orders == w.orders[at := w.orders[at].(status := OrderStatus.Paid, submission := Some(id))]
              && w'.rows == w.rows + [GatewayRow(w.orders[at], p, id)]
  {
    var o := w.orders[at];
    GatewayCreditsExactly(p, o.(status := seen));
    CommitsExactly(w.store, Fund(o.shop, o.amount, GatewayPosting(o.reference)));
  }

  /**
   * A payment credits its order's shop exactly when it is complete, paid to the unit, the order was open when it was
   * read and still is, and nothing it writes is there already; then the order's amount is credited, and a second
   * delivery, on any reading, credits nothing more. Anything else leaves the desk as it was.
   */
  lemma GatewayCreditsOnce(w: Desk, at: nat, seen: OrderStatus, p: Payment, id: string)
    requires Sound(w) && at < |w.orders|
    ensures var w', o := Kept(w, SettleGateway(w, at, seen, p, id)), w.orders[at];
            var credits := Settles(w, at, seen, p) && Unsettled(w, at, p, id);
            && (w' != w <==> credits)
            && FundingCredits(w'.store, o.shop) == FundingCredits(w.store, o.shop) + (if credits then o.amount else 0)
            && (credits ==> forall again, q, other :: SettleGateway(w', at, again, q, other) == Success(w'))
  {
    var o := w.orders[at];
    GatewaySettlesExactly(w, at, seen, p, id);
    if Settles(w, at, seen, p) && Unsettled(w, at, p, id) {
      var op := Fund(o.shop, o.amount, GatewayPosting(o.reference));
      CommitsExactly(w.store, op);
      FundingEffect(w.store, op, o.shop);
    }
  }

  // --- runs ---------------------------------------------------------------------------------------------------

  lemma OwnStepKeeps(w: Desk, a: Act)
    requires Sound(w) && !a.Elsewhere?
    ensures var w' := StepDesk(w, a);
            Sound(w') && OnlyForward(w, w') && Accounted(w, w')
  {
    match a
    case Record(d) =>
      if RecordDeposit(w, d).Success? {
        RecordKeeps(w, d);
      }
    case Approve(at, admin, p) =>
      if at < |w.rows| && SecondApproval(w, at, admin, p).Success? {
        ApproveKeeps(w, at, admin, p);
      }
    case Gateway(at, seen, p, id) =>
      if at < |w.orders| && SettleGateway(w, at, seen, p, id).Success? {
        GatewayKeeps(w, at, seen, p, id);
      }
    case Print(reference, shop, amount) => PrintKeeps(w, reference, shop, amount);
    case Close(at, expired) => CloseKeeps(w, at, expired);
  }

  lemma StepKeeps(w: Desk, a: Act)
    requires Sound(w)
    ensures var w' := StepDesk(w, a);
            Sound(w') && OnlyForward(w, w') && forall m :: Accounts(w, w', m, FundedElsewhere(w, a, m))
  {
    if a.Elsewhere? {
      ElsewhereKeeps(w, a.op);
    } else {
      OwnStepKeeps(w, a);
      forall m
        ensures Accounts(w, StepDesk(w, a), m, FundedElsewhere(w, a, m))
      {
        assert Accounts(w, StepDesk(w, a), m, 0);
      }
    }
  }

  /** What a run credits a shop with outside the deposits table. */
  function AllElsewhere(w: Desk, acts: seq<Act>, m: string): int
    decreases |acts|
  {
    if acts == [] then 0 else FundedElsewhere(w, acts[0], m) + AllElsewhere(StepDesk(w, acts[0]), acts[1..], m)
  }

  lemma ForwardTwice(a: Desk, b: Desk, c: Desk)
    requires OnlyForward(a, b) && OnlyForward(b, c)
    ensures OnlyForward(a, c)
  {
    forall i | 0 <= i < |a.rows|
      ensures RowForward(a.rows[i], c.rows[i])
    {
      assert RowForward(a.rows[i], b.rows[i]) && RowForward(b.rows[i], c.rows[i]);
    }
    forall k | 0 <= k < |a.orders|
      ensures OrderForward(a.orders[k], c.orders[k])
    {
      assert OrderForward(a.orders[k], b.orders[k]) && OrderForward(b.orders[k], c.orders[k]);
    }
  }

  /**
   * Over any run of deposits, second approvals, gateway payments, slips printed and closed, and any other ledger
   * calls, funding calls among them: each bank reference is credited at most once, each credited row names its own
   * posting of its shop and bank amount and no two rows the same one, and shop by shop the credits posted are
   * exactly those of the credited rows and those made elsewhere.
   */
  lemma {:induction false} EveryRunIsSound(w: Desk, acts: seq<Act>)
    requires Sound(w)
    ensures Sound(RunDesk(w, acts)) && OnlyForward(w, RunDesk(w, acts))
    ensures forall m :: Accounts(w, RunDesk(w, acts), m, AllElsewhere(w, acts, m))
    decreases |acts|
  {
    if acts != [] {
      var w' := StepDesk(w, acts[0]);
      StepKeeps(w, acts[0]);
      EveryRunIsSound(w', acts[1..]);
      ForwardTwice(w, w', RunDesk(w', acts[1..]));
      forall m
        ensures Accounts(w, RunDesk(w, acts), m, AllElsewhere(w, acts, m))
      {
        assert Accounts(w, w', m, FundedElsewhere(w, acts[0], m));
        assert Accounts(w', RunDesk(w', acts[1..]), m, AllElsewhere(w', acts[1..], m));
      }
    }
  }

  lemma NothingRecordedIsSound()
    ensures Sound(Desk(EMPTY, [], []))
  {
  }

  // --- readings gone stale --------------------------------------------------------------------------------------

  /**
   * An approval that acts on an earlier reading of a row whose own particulars have not changed keeps deposits
   * and credits in step exactly when it is refused or the row is still waiting: once another writer has moved
   * the row on, the credit is posted and no row accounts for it.
   */
  lemma StaleApprovalExactly(w: Desk, at: nat, seen: Submission, admin: string, postingId: string)
    requires Sound(w) && at < |w.rows|
    requires seen == w.rows[at].(status := seen.status, approvedBy := seen.approvedBy, postingId := seen.postingId)
    requires ApproveAsSeen(w, at, seen, admin, postingId).Success?
    ensures var w' := ApproveAsSeen(w, at, seen, admin, postingId).value;
            Sound(w') && Accounted(w, w') <==> w.rows[at].status == Matched
  {
    if w.rows[at].status == Matched {
      assert ApproveAsSeen(w, at, seen, admin, postingId) == SecondApproval(w, at, admin, postingId);
      ApproveKeeps(w, at, admin, postingId);
    } else {
      FundingEffect(w.store, Fund(seen.merchant.value, seen.bankAmount.value, postingId), seen.merchant.value);
      CommitsExactly(w.store, Fund(seen.merchant.value, seen.bankAmount.value, postingId));
      assert !Accounts(w, ApproveAsSeen(w, at, seen, admin, postingId).value, seen.merchant.value, 0);
    }
  }

  lemma StaleCreditPosts(w: Desk, at: nat, seen: Submission, admin: string, postingId: string)
    requires Valid(w.store) && at < |w.rows| && w.rows[at].status != Matched
    requires seen.status == Matched && seen.merchant.Some? && seen.bankAmount.Some? && seen.bankAmount.value > 0
    requires seen.recordedBy != Some(admin) && !PostingUsed(w.store.entries, postingId)
    ensures var r := ApproveAsSeen(w, at, seen, admin, postingId);
            r.Success? && r.value.rows == w.rows && !Accounted(w, r.value)
  {
    var op := Fund(seen.merchant.value, seen.bankAmount.value, postingId);
    CommitsExactly(w.store, op);
    FundingEffect(w.store, op, seen.merchant.value);
    assert !Accounts(w, ApproveAsSeen(w, at, seen, admin, postingId).value, seen.merchant.value, 0);
  }

  /** Two people read one waiting deposit, and both approve it: the second credit goes through, unaccounted for. */
  lemma BothApprovalsPost(w: Desk, at: nat, first: string, second: string, p: string, q: string)
    requires Sound(w) && at < |w.rows| && SecondApproval(w, at, first, p).Success?
    requires w.rows[at].recordedBy != Some(second) && q != p && !PostingUsed(w.store.entries, q)
    ensures var w1 := SecondApproval(w, at, first, p).value;
            var r := ApproveAsSeen(w1, at, w.rows[at], second, q);
            r.Success? && !Accounted(w1, r.value)
  {
    var row := w.rows[at];
    var op := Fund(row.merchant.value, row.bankAmount.value, p);
    ApproveKeeps(w, at, first, p);
    CommitsExactly(w.store, op);
    CommitAppends(w.store, op);
    StaleCreditPosts(SecondApproval(w, at, first, p).value, at, row, second, q);
  }

  lemma ApprovalGoesThrough(w: Desk, at: nat, admin: string, postingId: string)
    requires Valid(w.store) && at < |w.rows| && w.rows[at].status == Matched
    requires w.rows[at].merchant.Some? && w.rows[at].bankAmount.Some? && w.rows[at].bankAmount.value > 0
    requires w.rows[at].recordedBy != Some(admin)
    requires !PostingUsed(w.store.entries, postingId) && !CreditedBefore(w.rows, w.rows[at].bankReference)
    ensures SecondApproval(w, at, admin, postingId).Success?
  {
    CommitsExactly(w.store, Fund(w.rows[at].merchant.value, w.rows[at].bankAmount.value, postingId));
  }

  lemma DepositWaits(w: Desk, d: Deposit)
    requires Sound(w) && w.rows == [] && DecisionOn(w, d).NeedsApproval? && PositiveOrAbsent(d.claim.claimed)
    ensures var w' := StepDesk(w, Record(d));
            && Sound(w') && w' == w.(rows := [RowFor(w, d)])
            && w'.rows[0].status == Matched && w'.rows[0].merchant == Some(DecisionOn(w, d).merchant)
            && w'.rows[0].bankAmount.Some? && w'.rows[0].bankAmount.value > 0
  {
    RecordKeeps(w, d);
  }

  /** And it happens: record a deposit above the cap on an empty desk, let two people read it, and let both approve. */
  lemma OneDepositCreditedTwice(d: Deposit, first: string, second: string, p: string, q: string)
    requires DecisionOn(Desk(EMPTY, [], []), d).NeedsApproval? && PositiveOrAbsent(d.claim.claimed)
    requires first != d.recordedBy && second != d.recordedBy && p != q
    ensures var w := StepDesk(Desk(EMPTY, [], []), Record(d));
            && |w.rows| == 1 && w.rows[0].status == Matched && SecondApproval(w, 0, first, p).Success?
            && var w1 := SecondApproval(w, 0, first, p).value;
               var r := ApproveAsSeen(w1, 0, w.rows[0], second, q);
               r.Success? && !Accounted(w1, r.value)
  {
    var w := StepDesk(Desk(EMPTY, [], []), Record(d));
    NothingRecordedIsSound();
    DepositWaits(Desk(EMPTY, [], []), d);
    ApprovalGoesThrough(w, 0, first, p);
    BothApprovalsPost(w, 0, first, second, p, q);
  }

  /**
   * Two deposits of one bank reference can both be waiting: the recording check looks only at credited rows.
   * Approving the second is then refused by the index, so nothing is posted for it.
   */
  lemma SecondOfTwoMatchesIsRefused(w: Desk, i: nat, j: nat, a: string, b: string, p: string, q: string)
    requires i < |w.rows| && j < |w.rows| && i != j && w.rows[i].bankReference == w.rows[j].bankReference
    requires SecondApproval(w, i, a, p).Success?
    ensures var w' := SecondApproval(w, i, a, p).value;
            SecondApproval(w', j, b, q).Failure? && StepDesk(w', Approve(j, b, q)) == w'
  {
    var w' := SecondApproval(w, i, a, p).value;
    assert w'.rows[i].status == Credited;
    assert CreditedBefore(w'.rows, w'.rows[j].bankReference);
  }

  // --- the slip a deposit answers -------------------------------------------------------------------------------

  /** A deposit credited when it is recorded goes to the shop of the slip it quotes, and leaves that slip closed. */
  lemma CreditedSlipIsClosed(w: Desk, d: Deposit)
    requires RecordDeposit(w, d).Success? && DecisionOn(w, d).Credit?
    ensures var at := OrderFor(w.orders, Reference.Normalize(d.claim.depositReference));
            at.Some? ==>
              && DecisionOn(w, d).merchant == w.orders[at.value].shop
              && RecordDeposit(w, d).value.orders[at.value].status != Open
              && (w.orders[at.value].status == Open ==> RecordDeposit(w, d).value.orders[at.value].submission == Some(d.id))
  {
  }

  /**
   * A deposit credited by a second approval closes the open slip it quoted exactly when the bank's reference is
   * that slip's own: the approval looks for the slip under the bank's reference.
   */
  lemma ApprovalClosesSlipExactly(w: Desk, at: nat, admin: string, postingId: string)
    requires at < |w.rows| && SecondApproval(w, at, admin, postingId).Success?
    requires var k := OrderFor(w.orders, Reference.Normalize(w.rows[at].quotedReference));
             k.Some? && w.orders[k.value].status == Open
    ensures var k := OrderFor(w.orders, Reference.Normalize(w.rows[at].quotedReference)).value;
            SecondApproval(w, at, admin, postingId).value.orders[k].status == OrderStatus.Paid <==>
            Reference.Normalize(w.rows[at].bankReference) == Reference.Normalize(w.rows[at].quotedReference)
  {
  }

  /** A desk with nothing on it but one printed slip. */
  function OneSlip(reference: string, shop: string, amount: int): Desk {
    Desk(EMPTY, [], [Order(reference, shop, amount, Open, None)])
  }

  lemma SlipIsPrinted(reference: string, shop: string, amount: int)
    requires amount > 0
    ensures Sound(OneSlip(reference, shop, amount))
    ensures StepDesk(Desk(EMPTY, [], []), Print(reference, shop, amount)) == OneSlip(reference, shop, amount)
    ensures OrderFor(OneSlip(reference, shop, amount).orders, reference) == Some(0)
  {
    assert OrderFor([], reference).None?;
    assert OneSlip(reference, shop, amount).orders[0].reference == reference;
  }

  lemma ApprovalElsewhere(w: Desk, admin: string, postingId: string)
    requires Valid(w.store) && |w.rows| == 1 && w.rows[0].status == Matched
    requires w.rows[0].merchant.Some? && w.rows[0].bankAmount.Some? && w.rows[0].bankAmount.value > 0
    requires w.rows[0].recordedBy != Some(admin) && !PostingUsed(w.store.entries, postingId)
    requires forall k :: 0 <= k < |w.orders| ==> w.orders[k].reference != Reference.Normalize(w.rows[0].bankReference)
    ensures SecondApproval(w, 0, admin, postingId).Success?
    ensures var w' := SecondApproval(w, 0, admin, postingId).value;
            w'.orders == w.orders && w'.rows == [Approved(w.rows[0], admin, postingId)]
  {
    ApprovalGoesThrough(w, 0, admin, postingId);
  }

  lemma CreditsTheShop(w: Desk, d: Deposit)
    requires DecisionOn(w, d).Credit? || DecisionOn(w, d).NeedsApproval?
    ensures Some(DecisionOn(w, d).merchant) == ShopFor(w.orders, d)
  {
  }

  lemma SlipQuoted(reference: string, shop: string, amount: int, d: Deposit)
    requires amount > 0 && Reference.Normalize(d.claim.depositReference) == reference
    ensures ShopFor(OneSlip(reference, shop, amount).orders, d) == Some(shop)
  {
    SlipIsPrinted(reference, shop, amount);
  }

  /**
   * So a slip paid above the cap stays open: print it, record the deposit that quotes it, approve the deposit.
   * The shop is credited and its slip still waits.
   */
  lemma ApprovedSlipStaysOpen(reference: string, shop: string, amount: int, d: Deposit, admin: string, p: string)
    requires amount > 0 && Reference.Normalize(d.claim.depositReference) == reference
    requires Reference.Normalize(d.claim.bankReference) != reference
    requires DecisionOn(OneSlip(reference, shop, amount), d).NeedsApproval?
    requires PositiveOrAbsent(d.claim.claimed) && admin != d.recordedBy
    ensures var w2 := StepDesk(OneSlip(reference, shop, amount), Record(d));
            && |w2.rows| == 1 && w2.rows[0].merchant == Some(shop) && SecondApproval(w2, 0, admin, p).Success?
            && var w3 := SecondApproval(w2, 0, admin, p).value;
               && w3.rows[0] == Approved(w2.rows[0], admin, p)
               && w3.orders == [Order(reference, shop, amount, Open, None)]
  {
    var w1 := OneSlip(reference, shop, amount);
    SlipIsPrinted(reference, shop, amount);
    SlipQuoted(reference, shop, amount, d);
    CreditsTheShop(w1, d);
    DepositWaits(w1, d);
    ApprovalElsewhere(StepDesk(w1, Record(d)), admin, p);
  }
}
