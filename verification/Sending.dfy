/** Transfers as shops send them: each request is decided, recorded, and posted or queued; the desk decides the rest. */
module Sending {
  import opened Wrappers
  import opened Ledger
  import opened Operations
  import opened Effects
  import opened Books
  import opened Runs
  import opened Transfers
  import Text

  datatype RowStatus = NeedsApproval | Settled | Refused

  /** A row of shop_transfers; its day is the one it was made on, its posting the one that moved its money. */
  datatype Row = Row(
    id: string, sender: string, recipient: string, amount: int, fee: int, status: RowStatus, day: int,
    postingId: Option<string>)

  datatype Book = Book(store: Store, rows: seq<Row>)

  datatype SendError = RowCheckFailed | DuplicateRow | NotPosted

  /** What the counter sends: the sender's and recipient's shops as they are found, if they are. */
  datatype Attempt = Attempt(
    id: string, sender: string, senderStatus: Option<ShopStatus>, recipient: Option<Shop>, amount: int, day: int,
    postingId: string)

  /** SUM(amount_minor) of what a shop has settled or queued from a day on. */
  function SentSince(rows: seq<Row>, sender: string, day: int): int {
    if rows == [] then 0
    else
      var last := rows[|rows| - 1];
      SentSince(rows[..|rows| - 1], sender, day)
      + if last.sender == sender && last.day >= day && last.status != RowStatus.Refused then last.amount else 0
  }

  /** INSERT: amounts, a sender that is not the recipient, and the primary key. */
  function InsertRow(rows: seq<Row>, r: Row): Result<seq<Row>, SendError> {
    if r.amount <= 0 || r.fee < 0 || r.sender == r.recipient then Failure(RowCheckFailed)
    else if exists i :: 0 <= i < |rows| && rows[i].id == r.id then Failure(DuplicateRow)
    else Success(rows + [r])
  }

  function RequestOf(b: Book, a: Attempt): Request
    requires a.senderStatus.Some?
  {
    Request(Shop(a.sender, a.senderStatus.value), Available(b.store.entries, a.sender),
            SentSince(b.rows, a.sender, a.day), a.recipient, a.amount)
  }

  /** Decide on the balance and the day so far; a refusal is recorded too, under the sender when nobody was found. */
  function Send(b: Book, p: Policy, a: Attempt): Result<Book, SendError> {
    if a.senderStatus.None? then Success(b)
    else
      match Decide(RequestOf(b, a), p)
      case Refused(_) =>
        var recipient := if a.recipient.Some? then a.recipient.value.id else a.sender;
        var amount := if a.amount > 0 then a.amount else 1;
        var rows :- InsertRow(b.rows, Row(a.id, a.sender, recipient, amount, 0, RowStatus.Refused, a.day, None));
        Success(b.(rows := rows))
      case NeedsApproval(fee, _, credit) =>
        var row := Row(a.id, a.sender, a.recipient.value.id, credit, fee, RowStatus.NeedsApproval, a.day, None);
        var rows :- InsertRow(b.rows, row);
        Success(b.(rows := rows))
      case Accepted(fee, _, credit) =>
        var op := ShopTransfer(a.sender, a.recipient.value.id, credit, fee, a.postingId);
        if !Commits(b.store, op) then Failure(NotPosted)
        else
          var row := Row(a.id, a.sender, a.recipient.value.id, credit, fee, RowStatus.Settled, a.day, Some(a.postingId));
          var rows :- InsertRow(b.rows, row);
          Success(Book(Next(b.store, op), rows))
  }

  predicate Waits(b: Book, at: nat) {
    at < |b.rows| && b.rows[at].status == RowStatus.NeedsApproval
  }

  /** The posting a queued row stands for. */
  function PostingFor(r: Row, postingId: string): Op {
    ShopTransfer(r.sender, r.recipient, r.amount, r.fee, postingId)
  }

  function SettledBy(r: Row, postingId: string): Row {
    r.(status := RowStatus.Settled, postingId := Some(postingId))
  }

  /** The row is claimed first and then posted; when the posting throws, the claim goes back with it. */
  function ApproveRow(b: Book, at: nat, postingId: string): Book {
    if !Waits(b, at) || !Commits(b.store, PostingFor(b.rows[at], postingId)) then b
    else Book(Next(b.store, PostingFor(b.rows[at], postingId)), b.rows[at := SettledBy(b.rows[at], postingId)])
  }

  function RefuseRow(b: Book, at: nat, reason: string): Book {
    if !Waits(b, at) || Text.Blank(reason) then b
    else b.(rows := b.rows[at := b.rows[at].(status := RowStatus.Refused)])
  }

  datatype Act =
    | Try(attempt: Attempt)
    | Approve(at: nat, postingId: string)
    | Refuse(at: nat, reason: string)
    | Elsewhere(op: Op)

  function Step(b: Book, p: Policy, a: Act): Book {
    match a
    case Try(attempt) => if Send(b, p, attempt).Success? then Send(b, p, attempt).value else b
    case Approve(at, postingId) => ApproveRow(b, at, postingId)
    case Refuse(at, reason) => RefuseRow(b, at, reason)
    case Elsewhere(op) => b.(store := Next(b.store, op))
  }

  function RunBook(b: Book, p: Policy, acts: seq<Act>): Book
    decreases |acts|
  {
    if acts == [] then b else RunBook(Step(b, p, acts[0]), p, acts[1..])
  }

  // --- the daily limit ------------------------------------------------------------------------------

  /** What a row counts towards a shop's day. */
  function DayShare(r: Row, sender: string, day: int): int {
    if r.sender == sender && r.day == day && r.status != RowStatus.Refused then r.amount else 0
  }

  function SentOn(rows: seq<Row>, sender: string, day: int): int {
    if rows == [] then 0 else SentOn(rows[..|rows| - 1], sender, day) + DayShare(rows[|rows| - 1], sender, day)
  }

  ghost predicate RowsChecked(rows: seq<Row>) {
    forall i :: 0 <= i < |rows| ==> rows[i].amount > 0 && rows[i].fee >= 0 && rows[i].sender != rows[i].recipient
  }

  /** Every row passed its CHECKs, and no shop has sent or queued more in a day than the limit. */
  ghost predicate WithinLimit(b: Book, p: Policy) {
    && RowsChecked(b.rows)
    && forall sender, day :: SentOn(b.rows, sender, day) <= if p.maxPerDay > 0 then p.maxPerDay else 0
  }

  lemma SentOnAppend(rows: seq<Row>, r: Row, sender: string, day: int)
    ensures SentOn(rows + [r], sender, day) == SentOn(rows, sender, day) + DayShare(r, sender, day)
  {
    assert (rows + [r])[..|rows|] == rows;
  }

  lemma {:induction false} SentOnUpdate(rows: seq<Row>, at: nat, r: Row, sender: string, day: int)
    requires at < |rows|
    ensures SentOn(rows[at := r], sender, day) == SentOn(rows, sender, day) - DayShare(rows[at], sender, day) + DayShare(r, sender, day)
    decreases |rows|
  {
    var last := |rows| - 1;
    if at == last {
      assert rows[at := r][..last] == rows[..last];
    } else {
      assert rows[at := r][..last] == rows[..last][at := r];
      SentOnUpdate(rows[..last], at, r, sender, day);
    }
  }

  /** What counts from a day on is at least what counts on it, rows of later days included. */
  lemma {:induction false} SinceCoversDay(rows: seq<Row>, sender: string, day: int)
    requires RowsChecked(rows)
    ensures 0 <= SentOn(rows, sender, day) <= SentSince(rows, sender, day)
  {
    if rows != [] {
      assert RowsChecked(rows[..|rows| - 1]);
      SinceCoversDay(rows[..|rows| - 1], sender, day);
    }
  }

  /** An added row that counts was let in by the limit. */
  lemma SendKeepsLimit(b: Book, p: Policy, a: Attempt)
    requires WithinLimit(b, p) && Send(b, p, a).Success?
    ensures WithinLimit(Send(b, p, a).value, p)
  {
    var after := Send(b, p, a).value;
    if a.senderStatus.Some? {
      var r := after.rows[|b.rows|];
      assert after.rows == b.rows + [r];
      forall sender, day
        ensures SentOn(after.rows, sender, day) <= if p.maxPerDay > 0 then p.maxPerDay else 0
      {
        SentOnAppend(b.rows, r, sender, day);
        SinceCoversDay(b.rows, a.sender, a.day);
        assert SentOn(b.rows, sender, day) <= if p.maxPerDay > 0 then p.maxPerDay else 0;
      }
    }
  }

  lemma DecisionKeepsLimit(b: Book, p: Policy, at: nat, decided: Row, store: Store)
    requires WithinLimit(b, p) && at < |b.rows| && b.rows[at].status == RowStatus.NeedsApproval
    requires decided == b.rows[at].(status := decided.status, postingId := decided.postingId)
    ensures WithinLimit(Book(store, b.rows[at := decided]), p)
  {
    var rows := b.rows[at := decided];
    forall sender, day
      ensures SentOn(rows, sender, day) <= if p.maxPerDay > 0 then p.maxPerDay else 0
    {
      SentOnUpdate(b.rows, at, decided, sender, day);
      assert SentOn(b.rows, sender, day) <= if p.maxPerDay > 0 then p.maxPerDay else 0;
    }
  }

  lemma StepKeepsLimit(b: Book, p: Policy, a: Act)
    requires WithinLimit(b, p)
    ensures WithinLimit(Step(b, p, a), p)
  {
    match a
    case Try(attempt) =>
      if Send(b, p, attempt).Success? {
        SendKeepsLimit(b, p, attempt);
      }
    case Approve(at, postingId) =>
      if Waits(b, at) {
        DecisionKeepsLimit(b, p, at, SettledBy(b.rows[at], postingId), Step(b, p, a).store);
      }
    case Refuse(at, _) =>
      if Waits(b, at) {
        DecisionKeepsLimit(b, p, at, b.rows[at].(status := RowStatus.Refused), b.store);
      }
    case Elsewhere(_) =>
  }

  /**
   * Over any run of requests, approvals, refusals and other ledger work, in any order of days, what a shop has
   * settled and queued on one day never exceeds the daily limit: nobody queues past it to be approved later.
   */
  lemma {:induction false} DailyLimitHolds(b: Book, p: Policy, acts: seq<Act>)
    requires WithinLimit(b, p)
    ensures WithinLimit(RunBook(b, p, acts), p)
    decreases |acts|
  {
    if acts != [] {
      StepKeepsLimit(b, p, acts[0]);
      DailyLimitHolds(Step(b, p, acts[0]), p, acts[1..]);
    }
  }

  lemma NothingSentIsWithin(p: Policy)
    ensures WithinLimit(Book(EMPTY, []), p)
  {
  }

  // --- what a request leads to ------------------------------------------------------------------------

  /**
   * A refusal is recorded for whoever looks later, except exactly when no other shop can be named in the row: a
   * recipient that was not found, or that is the sender. The table's CHECK then refuses the row, and the caller
   * gets that error instead of the refusal.
   */
  lemma RefusalIsRecordedExactly(b: Book, p: Policy, a: Attempt)
    requires a.senderStatus.Some? && Decide(RequestOf(b, a), p).Refused?
    requires forall i :: 0 <= i < |b.rows| ==> b.rows[i].id != a.id
    ensures Send(b, p, a).Success? <==> a.recipient.Some? && a.recipient.value.id != a.sender
    ensures Send(b, p, a).Failure? ==> Send(b, p, a).error == RowCheckFailed
    ensures Send(b, p, a).Success? ==> Send(b, p, a).value.store == b.store
  {
  }

  /** It happens to whoever mistypes a device: from nothing, under any policy, for every shop and amount. */
  lemma UnknownRecipientThrows(p: Policy, a: Attempt)
    requires a.senderStatus.Some? && a.recipient.None?
    ensures Decide(RequestOf(Book(EMPTY, []), a), p) == Decision.Refused(RecipientNotFound)
    ensures Send(Book(EMPTY, []), p, a) == Failure(RowCheckFailed)
  {
  }

  /** A request sent under new ids is settled or queued exactly when nothing is wrong with it, and overdraws nobody. */
  lemma SendKeepsCover(b: Book, p: Policy, a: Attempt)
    requires Valid(b.store) && NoOverdraft(b.store) && a.senderStatus.Some?
    requires !PostingUsed(b.store.entries, a.postingId) && forall i :: 0 <= i < |b.rows| ==> b.rows[i].id != a.id
    ensures Passes(RequestOf(b, a), p) ==> Send(b, p, a).Success?
    ensures Send(b, p, a).Success? ==>
              var after := Send(b, p, a).value;
              && NoOverdraft(after.store)
              && |after.rows| == |b.rows| + 1 && after.rows[..|b.rows|] == b.rows
              && (after.rows[|b.rows|].status != RowStatus.Refused <==> Passes(RequestOf(b, a), p))
  {
    var r := RequestOf(b, a);
    AcceptedExactly(r, p);
    if Decide(r, p).Accepted? {
      PostedAtOnce(b.store, r, p, a.postingId);
    }
  }

  // --- no overdraft over runs ------------------------------------------------------------------------------

  /** The ledger operation an act would run. */
  function OpOf(b: Book, p: Policy, a: Act): Option<Op> {
    match a
    case Try(attempt) =>
      if attempt.senderStatus.None? then None
      else
        var d := Decide(RequestOf(b, attempt), p);
        if d.Accepted? then
          Some(ShopTransfer(attempt.sender, attempt.recipient.value.id, d.credit, d.fee, attempt.postingId))
        else None
    case Approve(at, postingId) => if Waits(b, at) then Some(PostingFor(b.rows[at], postingId)) else None
    case Refuse(_, _) => None
    case Elsewhere(op) => Some(op)
  }

  lemma StoreStep(b: Book, p: Policy, a: Act)
    ensures var op := OpOf(b, p, a);
            || Step(b, p, a).store == b.store
            || (op.Some? && Commits(b.store, op.value) && Step(b, p, a).store == Next(b.store, op.value))
    ensures a.Approve? || a.Elsewhere? ==>
              Step(b, p, a).store == if OpOf(b, p, a).Some? then Next(b.store, OpOf(b, p, a).value) else b.store
  {
  }

  /** A request's own decision has just covered it; an approval or another call must be covered by its sender's balance. */
  predicate CoveredAct(b: Book, a: Act) {
    match a
    case Approve(at, postingId) => Waits(b, at) ==> Covered(b.store, PostingFor(b.rows[at], postingId))
    case Elsewhere(op) => Covered(b.store, op)
    case _ => true
  }

  lemma TryIsCovered(b: Book, p: Policy, a: Act)
    requires a.Try? && OpOf(b, p, a).Some?
    ensures Covered(b.store, OpOf(b, p, a).value)
  {
    AcceptedExactly(RequestOf(b, a.attempt), p);
  }

  /** One act overdraws somebody exactly when it commits an approval or another transfer its sender cannot cover. */
  lemma ActOverdrawsExactly(b: Book, p: Policy, a: Act)
    requires Valid(b.store) && NoOverdraft(b.store)
    ensures NoOverdraft(Step(b, p, a).store) <==>
            (OpOf(b, p, a).Some? && Commits(b.store, OpOf(b, p, a).value) ==> CoveredAct(b, a))
    ensures Valid(Step(b, p, a).store)
  {
    StoreStep(b, p, a);
    var op := OpOf(b, p, a);
    if op.Some? {
      OverdraftExactly(b.store, op.value);
      ValidIsKept(b.store, op.value);
      if a.Try? {
        TryIsCovered(b, p, a);
      }
    }
  }

  /** Each act of the run that commits is covered in the state it is made in. */
  predicate AllCovered(b: Book, p: Policy, acts: seq<Act>)
    decreases |acts|
  {
    acts == [] ||
    ((OpOf(b, p, acts[0]).Some? && Commits(b.store, OpOf(b, p, acts[0]).value) ==> CoveredAct(b, acts[0]))
    && AllCovered(Step(b, p, acts[0]), p, acts[1..]))
  }

  /** Over any run of requests, with approvals and other transfers covered when they post, nobody is ever overdrawn. */
  lemma {:induction false} SendingNeverOverdraws(b: Book, p: Policy, acts: seq<Act>)
    requires Valid(b.store) && NoOverdraft(b.store) && AllCovered(b, p, acts)
    ensures NoOverdraft(RunBook(b, p, acts).store)
    decreases |acts|
  {
    if acts != [] {
      ActOverdrawsExactly(b, p, acts[0]);
      SendingNeverOverdraws(Step(b, p, acts[0]), p, acts[1..]);
    }
  }

  // --- the queue -----------------------------------------------------------------------------------------------

  /** How many of a run's approvals of one row post it. */
  function Postings(b: Book, p: Policy, acts: seq<Act>, at: nat): nat
    decreases |acts|
  {
    if acts == [] then 0
    else
      var after := Step(b, p, acts[0]);
      (if acts[0].Approve? && acts[0].at == at && after.store != b.store then 1 else 0) + Postings(after, p, acts[1..], at)
  }

  /** What a step does to a row of the queue: only its own approval or refusal, and only once. */
  lemma RowStep(b: Book, p: Policy, a: Act, at: nat)
    requires Valid(b.store) && at < |b.rows|
    ensures Valid(Step(b, p, a).store) && at < |Step(b, p, a).rows|
    ensures var row, row' := b.rows[at], Step(b, p, a).rows[at];
            && (row' == row || (row.status == RowStatus.NeedsApproval && row'.status != RowStatus.NeedsApproval))
            && (a.Approve? && a.at == at && Step(b, p, a).store != b.store <==>
                row.status == RowStatus.NeedsApproval && row'.status == RowStatus.Settled)
  {
    StoreStep(b, p, a);
    var op := OpOf(b, p, a);
    if op.Some? {
      ValidIsKept(b.store, op.value);
    }
    if a.Approve? && Waits(b, a.at) && Commits(b.store, op.value) {
      CommitAppends(b.store, op.value);
      assert |Step(b, p, a).store.entries| > |b.store.entries|;
    }
  }

  /**
   * However many approvers press, and in whatever order with whatever else, a queued transfer is posted at most
   * once: exactly once when its row ends settled from waiting, never when it ends refused, and never again once
   * decided.
   */
  lemma {:induction false} PostedAtMostOnce(b: Book, p: Policy, acts: seq<Act>, at: nat)
    requires Valid(b.store) && at < |b.rows|
    ensures at < |RunBook(b, p, acts).rows|
    ensures Postings(b, p, acts, at) ==
            if Waits(b, at) && RunBook(b, p, acts).rows[at].status == RowStatus.Settled then 1 else 0
    ensures !Waits(b, at) ==> RunBook(b, p, acts).rows[at] == b.rows[at]
    decreases |acts|
  {
    if acts != [] {
      RowStep(b, p, acts[0], at);
      PostedAtMostOnce(Step(b, p, acts[0]), p, acts[1..], at);
    }
  }

  /**
   * Approving posts without reading the balance again: it overdraws the sender exactly when the balance
   * has since fallen below what the transfer takes.
   */
  lemma ApprovalOverdrawsExactly(b: Book, at: nat, postingId: string)
    requires Valid(b.store) && NoOverdraft(b.store) && RowsChecked(b.rows) && Waits(b, at)
    requires !PostingUsed(b.store.entries, postingId)
    ensures NoOverdraft(ApproveRow(b, at, postingId).store) <==>
            b.rows[at].amount + b.rows[at].fee <= Available(b.store.entries, b.rows[at].sender)
  {
    CommitsExactly(b.store, PostingFor(b.rows[at], postingId));
    OverdraftExactly(b.store, PostingFor(b.rows[at], postingId));
  }

  /** A shop's whole balance asked to be sent, under a policy by which it must wait. */
  function WholeBalance(c: Context, recipient: string, id: string, postingId: string): Attempt {
    Attempt(id, c.merchant, Some(Active), Some(Shop(recipient, Active)), c.amount, 0, postingId)
  }

  function WaitPolicy(c: Context): Policy {
    Policy(c.amount, c.amount, 0, 0)
  }

  lemma TransferIsQueued(c: Context, recipient: string, p0: string, id: string)
    requires c.amount > 0 && recipient != c.merchant
    ensures var s := Next(EMPTY, Fund(c.merchant, c.amount, p0));
            Step(Book(s, []), WaitPolicy(c), Try(WholeBalance(c, recipient, id, ""))) ==
            Book(s, [Row(id, c.merchant, recipient, c.amount, 0, RowStatus.NeedsApproval, 0, None)])
  {
    FundedState(c.merchant, c.amount, p0);
  }

  /**
   * The balance can fall between decision and approval: fund a shop, let it queue a transfer of everything, reserve a
   * sale of everything, and approve. The shop is overdrawn, for every shop and amount.
   */
  lemma QueuedTransferCanOverdraw(c: Context, recipient: string, id: string, p0: string, p2: string)
    requires c.amount > 0 && recipient != c.merchant
    requires c.postingId != p0 && p2 != p0 && p2 != c.postingId
    ensures var s := Next(EMPTY, Fund(c.merchant, c.amount, p0));
            var b1 := Step(Book(s, []), WaitPolicy(c), Try(WholeBalance(c, recipient, id, "")));
            var b2 := Step(b1, WaitPolicy(c), Elsewhere(Reserve(c, None)));
            && Waits(b2, 0) && NoOverdraft(b2.store)
            && !NoOverdraft(Step(b2, WaitPolicy(c), Approve(0, p2)).store)
  {
    var s := Next(EMPTY, Fund(c.merchant, c.amount, p0));
    var row := Row(id, c.merchant, recipient, c.amount, 0, RowStatus.NeedsApproval, 0, None);
    var b2 := Book(Next(s, Reserve(c, None)), [row]);
    TransferIsQueued(c, recipient, p0, id);
    FundedState(c.merchant, c.amount, p0);
    FirstReservation(c, c.amount, p0);
    OverdraftExactly(s, Reserve(c, None));
    ApprovalOverdrawsExactly(b2, 0, p2);
  }
}
