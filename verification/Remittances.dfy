/** What becomes of a request to send: each settled transfer is one posting, and each such posting one settled transfer. */
module Remittances {
  import opened Wrappers
  import opened Ledger
  import opened Operations
  import opened Effects
  import opened Books
  import opened Transfers
  import opened Sending
  import Text

  // --- one request --------------------------------------------------------------------------------------

  /** A request from a shop that exists, under a row id and a posting id never used. */
  ghost predicate NewRequest(b: Book, a: Attempt) {
    && Valid(b.store) && NoOverdraft(b.store) && a.senderStatus.Some?
    && !PostingUsed(b.store.entries, a.postingId) && forall i :: 0 <= i < |b.rows| ==> b.rows[i].id != a.id
  }

  /** Two different active shops, and an amount within both limits that the sender can pay with its fee. */
  predicate Sendable(b: Book, p: Policy, a: Attempt) {
    && a.senderStatus == Some(Active) && a.recipient.Some?
    && a.recipient.value.status == Active && a.recipient.value.id != a.sender
    && 0 < a.amount <= p.maxPerTransfer && SentSince(b.rows, a.sender, a.day) + a.amount <= p.maxPerDay
    && a.amount + FeeFor(a.amount, p.feeBps) <= Available(b.store.entries, a.sender)
  }

  /** The row a sendable request leaves. */
  function SentRow(p: Policy, a: Attempt, status: RowStatus, postingId: Option<string>): Row
    requires a.recipient.Some? && a.amount > 0
  {
    Row(a.id, a.sender, a.recipient.value.id, a.amount, FeeFor(a.amount, p.feeBps), status, a.day, postingId)
  }

  /** Amount and fee have left the sender, the amount is with the recipient, the fee with the platform. */
  ghost predicate MoneySent(s: Store, t: Store, sender: string, recipient: string, amount: int, fee: int) {
    && Available(t.entries, sender) == Available(s.entries, sender) - amount - fee
    && Available(t.entries, recipient) == Available(s.entries, recipient) + amount
    && Total(t.entries, Bucket(TelgaRevenue, None)) == Total(s.entries, Bucket(TelgaRevenue, None)) + fee
    && forall m :: m != sender && m != recipient ==> Available(t.entries, m) == Available(s.entries, m)
  }

  lemma TransferMoves(s: Store, sender: string, recipient: string, amount: int, fee: int, postingId: string)
    requires Valid(s) && sender != recipient && Commits(s, ShopTransfer(sender, recipient, amount, fee, postingId))
    ensures MoneySent(s, Next(s, ShopTransfer(sender, recipient, amount, fee, postingId)), sender, recipient, amount, fee)
  {
    var op := ShopTransfer(sender, recipient, amount, fee, postingId);
    forall m
      ensures Available(Next(s, op).entries, m) == Available(s.entries, m) + Delta(s, op, MerchantAvailable, Some(m))
    {
      AvailableEffect(s, op, m);
    }
    PostingEffect(s, op, TelgaRevenue, None);
  }

  /** Up to the threshold it settles at once: the row names the posting, and the posting moves the money. */
  lemma SmallTransferSettles(b: Book, p: Policy, a: Attempt)
    requires NewRequest(b, a) && Sendable(b, p, a) && a.amount <= p.approvalThreshold
    ensures Send(b, p, a).Success?
    ensures var after := Send(b, p, a).value;
            && after.rows == b.rows + [SentRow(p, a, RowStatus.Settled, Some(a.postingId))]
            && MoneySent(b.store, after.store, a.sender, a.recipient.value.id, a.amount, FeeFor(a.amount, p.feeBps))
            && NoOverdraft(after.store)
  {
    var r := RequestOf(b, a);
    AcceptedExactly(r, p);
    PostedAtOnce(b.store, r, p, a.postingId);
    TransferMoves(b.store, a.sender, a.recipient.value.id, a.amount, FeeFor(a.amount, p.feeBps), a.postingId);
  }

  /** Above it the request waits: the row names no posting, and nothing has moved. */
  lemma LargeTransferWaits(b: Book, p: Policy, a: Attempt)
    requires NewRequest(b, a) && Sendable(b, p, a) && a.amount > p.approvalThreshold
    ensures Send(b, p, a) == Success(b.(rows := b.rows + [SentRow(p, a, RowStatus.NeedsApproval, None)]))
  {
    AcceptedExactly(RequestOf(b, a), p);
  }

  /** Anything else is refused: nothing moves, and the row, if the table takes it, is of no fee and a positive amount. */
  lemma OtherRequestsAreRefused(b: Book, p: Policy, a: Attempt)
    requires NewRequest(b, a) && !Sendable(b, p, a)
    ensures Send(b, p, a) ==
            if a.recipient.None? || a.recipient.value.id == a.sender then Failure(RowCheckFailed)
            else Success(b.(rows := b.rows + [Row(a.id, a.sender, a.recipient.value.id, if a.amount > 0 then a.amount else 1,
                                                  0, RowStatus.Refused, a.day, None)]))
  {
    AcceptedExactly(RequestOf(b, a), p);
  }

  /** From a shop that does not exist nothing is asked of the tables and nothing is written. */
  lemma UnknownSenderLeavesNothing(b: Book, p: Policy, a: Attempt)
    requires a.senderStatus.None?
    ensures Send(b, p, a) == Success(b)
  {
  }

  /** A day's figure and what was sent after it make up the figure the limit is judged on. */
  lemma {:induction false} SinceSplitsByDay(rows: seq<Row>, sender: string, day: int)
    ensures SentSince(rows, sender, day) == SentOn(rows, sender, day) + SentSince(rows, sender, day + 1)
    ensures (forall i :: 0 <= i < |rows| ==> rows[i].day < day) ==> SentSince(rows, sender, day) == 0
  {
    if rows != [] {
      SinceSplitsByDay(rows[..|rows| - 1], sender, day);
    }
  }

  /** Approving a waiting transfer under a new posting id moves its money and names the posting in its row. */
  lemma ApprovalSettles(b: Book, at: nat, postingId: string)
    requires Valid(b.store) && RowsChecked(b.rows) && Waits(b, at) && !PostingUsed(b.store.entries, postingId)
    ensures var r, after := b.rows[at], ApproveRow(b, at, postingId);
            && after.rows == b.rows[at := r.(status := RowStatus.Settled, postingId := Some(postingId))]
            && MoneySent(b.store, after.store, r.sender, r.recipient, r.amount, r.fee)
  {
    var r := b.rows[at];
    CommitsExactly(b.store, PostingFor(r, postingId));
    TransferMoves(b.store, r.sender, r.recipient, r.amount, r.fee, postingId);
  }

  /** Refusing one with a reason moves nothing; neither decision can be taken twice or about a row that never waited. */
  lemma DecidedRowsStay(b: Book, at: nat, postingId: string, reason: string)
    ensures RefuseRow(b, at, reason) ==
            if Waits(b, at) && !Text.Blank(reason) then b.(rows := b.rows[at := b.rows[at].(status := RowStatus.Refused)]) else b
    ensures !Waits(b, at) ==> ApproveRow(b, at, postingId) == b
  {
  }

  // --- one row a step -----------------------------------------------------------------------------------------

  function Put(rows: seq<Row>, at: nat, r: Row): seq<Row>
    requires at <= |rows|
  {
    if at == |rows| then rows + [r] else rows[at := r]
  }

  /** A row as it is added, or as a waiting one is decided. */
  ghost predicate NewOrDecided(rows: seq<Row>, at: nat, r: Row) {
    && at <= |rows|
    && (at == |rows| ==>
          && r.amount > 0 && r.fee >= 0 && r.sender != r.recipient
          && (forall i :: 0 <= i < |rows| ==> rows[i].id != r.id)
          && (r.status != RowStatus.Settled ==> r.postingId.None?))
    && (at < |rows| ==>
          && rows[at].status == RowStatus.NeedsApproval
          && r == rows[at].(status := r.status, postingId := r.postingId)
          && (r.status != RowStatus.Settled ==> r.postingId == rows[at].postingId))
  }

  /** The money goes with the row: a row that becomes settled has just been posted, under the id it names. */
  ghost predicate PostedWith(s: Store, t: Store, r: Row) {
    if r.status == RowStatus.Settled then
      r.postingId.Some? && Commits(s, PostingFor(r, r.postingId.value)) && t == Next(s, PostingFor(r, r.postingId.value))
    else t == s
  }

  lemma StepIsOneRow(b: Book, p: Policy, a: Act) returns (at: nat, r: Row)
    requires !a.Elsewhere? && Step(b, p, a) != b
    ensures NewOrDecided(b.rows, at, r) && Step(b, p, a).rows == Put(b.rows, at, r)
    ensures PostedWith(b.store, Step(b, p, a).store, r)
  {
    at := if a.Try? then |b.rows| else a.at;
    r := Step(b, p, a).rows[at];
  }

  // --- over runs ------------------------------------------------------------------------------------------------

  /** The ledger holds the row's own posting, line by line. */
  ghost predicate PaidFor(s: Store, r: Row) {
    r.postingId.Some? && Holds(s.entries, r.postingId.value, TransferLines(r.sender, r.recipient, r.amount, r.fee))
  }

  /** Exactly the settled rows name a posting; the ledger holds it as the row says; and no two name the same one. */
  ghost predicate Sound(b: Book) {
    && Valid(b.store) && RowsChecked(b.rows)
    && (forall i, j :: 0 <= i < j < |b.rows| ==> b.rows[i].id != b.rows[j].id)
    && (forall i :: 0 <= i < |b.rows| ==> (b.rows[i].postingId.Some? <==> b.rows[i].status == RowStatus.Settled))
    && (forall i :: 0 <= i < |b.rows| && b.rows[i].status == RowStatus.Settled ==> PaidFor(b.store, b.rows[i]))
    && (forall i, j :: 0 <= i < j < |b.rows| && b.rows[i].status == b.rows[j].status == RowStatus.Settled ==>
          b.rows[i].postingId != b.rows[j].postingId)
  }

  /** The ledger only grows, so rows keep the postings they name. */
  lemma PostingsOutlive(b: Book, op: Op)
    requires Sound(b)
    ensures Sound(b.(store := Next(b.store, op)))
  {
    ValidIsKept(b.store, op);
    if Commits(b.store, op) {
      CommitAppends(b.store, op);
      forall i | 0 <= i < |b.rows| && b.rows[i].status == RowStatus.Settled
        ensures PaidFor(Next(b.store, op), b.rows[i])
      {
        var r := b.rows[i];
        assert PaidFor(b.store, r);
        HoldsStays(b.store.entries, Next(b.store, op).entries, r.postingId.value,
                   TransferLines(r.sender, r.recipient, r.amount, r.fee));
      }
    }
  }

  /** A posting just written is held, and no row named it before. */
  lemma PostingIsNew(b: Book, r: Row)
    requires Sound(b) && r.postingId.Some? && Commits(b.store, PostingFor(r, r.postingId.value))
    ensures PaidFor(Next(b.store, PostingFor(r, r.postingId.value)), r)
    ensures forall i :: 0 <= i < |b.rows| && b.rows[i].status == RowStatus.Settled ==> b.rows[i].postingId != r.postingId
  {
    CommitAppends(b.store, PostingFor(r, r.postingId.value));
    HoldsNew(b.store.entries, r.postingId.value, TransferLines(r.sender, r.recipient, r.amount, r.fee));
    forall i | 0 <= i < |b.rows| && b.rows[i].status == RowStatus.Settled
      ensures b.rows[i].postingId != r.postingId
    {
      var x := b.rows[i];
      assert PaidFor(b.store, x);
      HoldsUses(b.store.entries, x.postingId.value, TransferLines(x.sender, x.recipient, x.amount, x.fee));
    }
  }

  /** A row that names no posting, beside sound ones. */
  lemma PlainRowKeeps(b: Book, at: nat, r: Row)
    requires Sound(b) && NewOrDecided(b.rows, at, r) && r.status != RowStatus.Settled
    ensures Sound(b.(rows := Put(b.rows, at, r)))
  {
  }

  /** One that names a posting the ledger holds for it, and no other row names. */
  lemma SettledRowKeeps(b: Book, at: nat, r: Row)
    requires Sound(b) && NewOrDecided(b.rows, at, r) && r.status == RowStatus.Settled && PaidFor(b.store, r)
    requires forall i :: 0 <= i < |b.rows| && b.rows[i].status == RowStatus.Settled ==> b.rows[i].postingId != r.postingId
    ensures Sound(b.(rows := Put(b.rows, at, r)))
  {
  }

  lemma OwnStepIsSound(b: Book, p: Policy, a: Act)
    requires Sound(b) && !a.Elsewhere? && Step(b, p, a) != b
    ensures Sound(Step(b, p, a))
  {
    var at, r := StepIsOneRow(b, p, a);
    if r.status == RowStatus.Settled {
      var op := PostingFor(r, r.postingId.value);
      PostingsOutlive(b, op);
      PostingIsNew(b, r);
      SettledRowKeeps(b.(store := Next(b.store, op)), at, r);
    } else {
      PlainRowKeeps(b, at, r);
    }
  }

  lemma StepIsSound(b: Book, p: Policy, a: Act)
    requires Sound(b)
    ensures Sound(Step(b, p, a))
  {
    if a.Elsewhere? {
      PostingsOutlive(b, a.op);
    } else if Step(b, p, a) != b {
      OwnStepIsSound(b, p, a);
    }
  }

  /** What a settled row has moved on one account: the recipient's amount, the sender's amount and fee, the fee. */
  function RowMoves(r: Row, kind: AccountKind, who: Option<string>): int {
    if r.status != RowStatus.Settled then 0
    else
      If(kind == MerchantAvailable && who == Some(r.recipient), r.amount)
      - If(kind == MerchantAvailable && who == Some(r.sender), r.amount + r.fee)
      + If(kind == TelgaRevenue && who == None, r.fee)
  }

  function RowsMoved(rows: seq<Row>, kind: AccountKind, who: Option<string>): int {
    if rows == [] then 0 else RowsMoved(rows[..|rows| - 1], kind, who) + RowMoves(rows[|rows| - 1], kind, who)
  }

  function Settles(r: Row): nat {
    if r.status == RowStatus.Settled then 1 else 0
  }

  function SettledCount(rows: seq<Row>): nat {
    if rows == [] then 0
    else SettledCount(rows[..|rows| - 1]) + Settles(rows[|rows| - 1])
  }

  /** What a run's other calls moved on the account. */
  function MovedElsewhere(b: Book, p: Policy, acts: seq<Act>, kind: AccountKind, who: Option<string>): int
    decreases |acts|
  {
    if acts == [] then 0
    else
      (if acts[0].Elsewhere? && Commits(b.store, acts[0].op) then Delta(b.store, acts[0].op, kind, who) else 0)
      + MovedElsewhere(Step(b, p, acts[0]), p, acts[1..], kind, who)
  }

  /** How many of a run's requests and approvals posted to the ledger. */
  function TransfersPosted(b: Book, p: Policy, acts: seq<Act>): nat
    decreases |acts|
  {
    if acts == [] then 0
    else
      var after := Step(b, p, acts[0]);
      (if !acts[0].Elsewhere? && after.store != b.store then 1 else 0) + TransfersPosted(after, p, acts[1..])
  }

  lemma {:induction false} UpdateMoves(rows: seq<Row>, at: nat, r: Row, kind: AccountKind, who: Option<string>)
    requires at < |rows|
    ensures RowsMoved(rows[at := r], kind, who) == RowsMoved(rows, kind, who) - RowMoves(rows[at], kind, who) + RowMoves(r, kind, who)
    decreases |rows|
  {
    var last := |rows| - 1;
    if at == last {
      assert rows[at := r][..last] == rows[..last];
    } else {
      assert rows[at := r][..last] == rows[..last][at := r];
      UpdateMoves(rows[..last], at, r, kind, who);
    }
  }

  lemma {:induction false} UpdateCounts(rows: seq<Row>, at: nat, r: Row)
    requires at < |rows|
    ensures SettledCount(rows[at := r]) == SettledCount(rows) - Settles(rows[at]) + Settles(r)
    decreases |rows|
  {
    var last := |rows| - 1;
    if at == last {
      assert rows[at := r][..last] == rows[..last];
    } else {
      assert rows[at := r][..last] == rows[..last][at := r];
      UpdateCounts(rows[..last], at, r);
    }
  }

  lemma PutMoves(rows: seq<Row>, at: nat, r: Row, kind: AccountKind, who: Option<string>)
    requires at <= |rows| && (at < |rows| ==> rows[at].status != RowStatus.Settled)
    ensures RowsMoved(Put(rows, at, r), kind, who) == RowsMoved(rows, kind, who) + RowMoves(r, kind, who)
    ensures SettledCount(Put(rows, at, r)) == SettledCount(rows) + Settles(r)
  {
    if at == |rows| {
      assert (rows + [r])[..|rows|] == rows;
    } else {
      UpdateMoves(rows, at, r, kind, who);
      UpdateCounts(rows, at, r);
    }
  }

  /** A row's own posting moves on every account what the row says. */
  lemma PostingMoves(s: Store, r: Row, postingId: string, kind: AccountKind, who: Option<string>)
    requires Valid(s) && r.status == RowStatus.Settled && Commits(s, PostingFor(r, postingId))
    ensures var t := Next(s, PostingFor(r, postingId));
            && Valid(t) && t != s
            && Total(t.entries, Bucket(kind, who)) == Total(s.entries, Bucket(kind, who)) + RowMoves(r, kind, who)
  {
    var op := PostingFor(r, postingId);
    ValidIsKept(s, op);
    PostingEffect(s, op, kind, who);
    CommitAppends(s, op);
    assert |Next(s, op).entries| > |s.entries|;
  }

  lemma OwnStepIsAccounted(b: Book, p: Policy, a: Act, kind: AccountKind, who: Option<string>)
    requires Valid(b.store) && !a.Elsewhere? && Step(b, p, a) != b
    ensures var after := Step(b, p, a);
            && Valid(after.store)
            && Total(after.store.entries, Bucket(kind, who)) - Total(b.store.entries, Bucket(kind, who)) ==
               RowsMoved(after.rows, kind, who) - RowsMoved(b.rows, kind, who)
            && SettledCount(after.rows) - SettledCount(b.rows) == if after.store != b.store then 1 else 0
  {
    var at, r := StepIsOneRow(b, p, a);
    PutMoves(b.rows, at, r, kind, who);
    if r.status == RowStatus.Settled {
      PostingMoves(b.store, r, r.postingId.value, kind, who);
    }
  }

  lemma StepIsAccounted(b: Book, p: Policy, a: Act, kind: AccountKind, who: Option<string>)
    requires Valid(b.store)
    ensures var after := Step(b, p, a);
            && Valid(after.store)
            && Total(after.store.entries, Bucket(kind, who)) - Total(b.store.entries, Bucket(kind, who)) ==
               RowsMoved(after.rows, kind, who) - RowsMoved(b.rows, kind, who)
               + (if a.Elsewhere? && Commits(b.store, a.op) then Delta(b.store, a.op, kind, who) else 0)
            && SettledCount(after.rows) - SettledCount(b.rows) ==
               if !a.Elsewhere? && after.store != b.store then 1 else 0
  {
    if a.Elsewhere? {
      ValidIsKept(b.store, a.op);
      PostingEffect(b.store, a.op, kind, who);
    } else if Step(b, p, a) != b {
      OwnStepIsAccounted(b, p, a, kind, who);
    }
  }

  /**
   * Over any run of requests, approvals, refusals and other calls, settled transfers and their postings stay one
   * to one: each settled row has its own posting in the ledger, line by line, every other row has none, and as
   * many rows were settled as requests and approvals posted.
   */
  lemma {:induction false} EveryTransferHasItsPosting(b: Book, p: Policy, acts: seq<Act>)
    requires Sound(b)
    ensures Sound(RunBook(b, p, acts))
    ensures SettledCount(RunBook(b, p, acts).rows) == SettledCount(b.rows) + TransfersPosted(b, p, acts)
    decreases |acts|
  {
    if acts != [] {
      StepIsSound(b, p, acts[0]);
      StepIsAccounted(b, p, acts[0], MerchantAvailable, None);
      EveryTransferHasItsPosting(Step(b, p, acts[0]), p, acts[1..]);
    }
  }

  /** And the money is what the rows say: every account moves by its settled transfers and by other calls alone. */
  lemma {:induction false} EveryTransferIsAccounted(b: Book, p: Policy, acts: seq<Act>, kind: AccountKind, who: Option<string>)
    requires Valid(b.store)
    ensures Total(RunBook(b, p, acts).store.entries, Bucket(kind, who)) - Total(b.store.entries, Bucket(kind, who)) ==
            RowsMoved(RunBook(b, p, acts).rows, kind, who) - RowsMoved(b.rows, kind, who)
            + MovedElsewhere(b, p, acts, kind, who)
    decreases |acts|
  {
    if acts != [] {
      StepIsAccounted(b, p, acts[0], kind, who);
      EveryTransferIsAccounted(Step(b, p, acts[0]), p, acts[1..], kind, who);
    }
  }
}
