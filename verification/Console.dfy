/** The operations console's routes: rows changed step by step between BEGIN and COMMIT or ROLLBACK. */
module Console {
  import opened Wrappers
  import opened Operations
  import opened Driver
  import Funding
  import Sending
  import Reference = DepositReference
  import Text

  /** Deposits: recording one, and its second approval. */
  class FundingConsole {
    const driver: SqliteLedgerDriver
    var rows: seq<Funding.Submission>
    var orders: seq<Funding.Order>

    function Value(): Funding.Desk
      reads this, driver
    {
      Funding.Desk(driver.Value(), rows, orders)
    }

    constructor (driver: SqliteLedgerDriver)
      ensures Value() == Funding.Desk(driver.Value(), [], []) && this.driver == driver
    {
      this.driver, rows, orders := driver, [], [];
    }

    method InsertRow(r: Funding.Submission) returns (done: Result<(), Funding.DeskError>)
      modifies this`rows
      ensures match Funding.InsertSubmission(old(rows), r)
              case Success(after) => done == Success(()) && rows == after
              case Failure(e) => done == Failure(e) && rows == old(rows)
    {
      if !Funding.PositiveOrAbsent(r.claimed) || !Funding.PositiveOrAbsent(r.bankAmount) {
        return Failure(Funding.DeskError.CheckFailed);
      }
      if Funding.IdTaken(rows, r.id) {
        return Failure(Funding.DuplicateId);
      }
      if r.status == Funding.Credited && Funding.CreditedBefore(rows, r.bankReference) {
        return Failure(Funding.AlreadyCredited);
      }
      rows := rows + [r];
      done := Success(());
    }

    method Rollback(saved: Funding.Desk)
      modifies this, driver
      ensures Value() == saved
    {
      driver.Rollback(saved.store);
      rows, orders := saved.rows, saved.orders;
    }

    /** UPDATE ... WHERE reference = ? AND status = 'OPEN'. */
    method MarkPaid(reference: string, submission: string)
      modifies this`orders
      ensures orders == Funding.MarkPaid(old(orders), reference, submission)
    {
      var at := Funding.OrderFor(orders, reference);
      if at.Some? && orders[at.value].status == Funding.Open {
        orders := orders[at.value := orders[at.value].(status := Funding.OrderStatus.Paid, submission := Some(submission))];
      }
    }

    /** Decide, insert the row, post the credit if there is one, link the two, and close the slip. */
    method RecordWork(d: Funding.Deposit) returns (done: Result<(), Funding.DeskError>)
      modifies this, driver
      ensures match Funding.RecordDeposit(old(Value()), d)
              case Success(w) => done == Success(()) && Value() == w
              case Failure(e) => done == Failure(e)
    {
      var decision := Funding.DecisionOn(Value(), d);
      var row := Funding.RowFor(Value(), d);
      var _ :- InsertRow(row);
      if !decision.Credit? {
        return Success(());
      }
      var postingId := Funding.DepositPosting(d.id);
      var posted := driver.Transaction(Fund(decision.merchant, decision.amount, postingId));
      if posted.Failure? {
        return Failure(Funding.NotPosted);
      }
      rows := rows[|rows| - 1 := rows[|rows| - 1].(postingId := Some(postingId))];
      MarkPaid(Reference.Normalize(d.claim.depositReference), d.id);
      done := Success(());
    }

    /** The deposit route: all of it, or nothing. */
    method Record(d: Funding.Deposit) returns (done: Result<(), Funding.DeskError>)
      modifies this, driver
      ensures Value() == Funding.StepDesk(old(Value()), Funding.Record(d))
      ensures done.Success? <==> Funding.RecordDeposit(old(Value()), d).Success?
      ensures done.Failure? ==> Value() == old(Value())
    {
      var saved := Value();
      done := RecordWork(d);
      if done.Failure? {
        Rollback(saved);
      }
    }

    /** The credit first, then the row if it still waits, then the slip. */
    method ApproveWork(at: nat, seen: Funding.Submission, admin: string, postingId: string)
      returns (done: Result<(), Funding.DeskError>)
      requires at < |rows|
      modifies this, driver
      ensures match Funding.ApproveAsSeen(old(Value()), at, seen, admin, postingId)
              case Success(w) => done == Success(()) && Value() == w
              case Failure(e) => done == Failure(e)
    {
      if seen.status != Funding.Matched || seen.merchant.None? || seen.bankAmount.None? {
        return Failure(Funding.NotWaiting);
      }
      if seen.recordedBy == Some(admin) {
        return Failure(Funding.SameApprover);
      }
      var posted := driver.Transaction(Fund(seen.merchant.value, seen.bankAmount.value, postingId));
      if posted.Failure? {
        return Failure(Funding.NotPosted);
      }
      if rows[at].status == Funding.Matched {
        if Funding.CreditedBefore(rows, rows[at].bankReference) {
          return Failure(Funding.AlreadyCredited);
        }
        rows := rows[at := Funding.Approved(rows[at], admin, postingId)];
      }
      MarkPaid(Reference.Normalize(seen.bankReference), seen.id);
      done := Success(());
    }

    /** The second-approval route, the row read just before. */
    method ApproveSecond(at: nat, admin: string, postingId: string) returns (done: Result<(), Funding.DeskError>)
      requires at < |rows|
      modifies this, driver
      ensures Value() == Funding.StepDesk(old(Value()), Funding.Approve(at, admin, postingId))
      ensures done.Success? <==> Funding.SecondApproval(old(Value()), at, admin, postingId).Success?
      ensures done.Failure? ==> Value() == old(Value())
    {
      var saved := Value();
      done := ApproveWork(at, rows[at], admin, postingId);
      if done.Failure? {
        Rollback(saved);
      }
    }
  }

  /** The transfers table and the people deciding its queue. */
  class TransferConsole {
    const driver: SqliteLedgerDriver
    var rows: seq<Sending.Row>

    function Value(): Sending.Book
      reads this, driver
    {
      Sending.Book(driver.Value(), rows)
    }

    constructor (driver: SqliteLedgerDriver, rows: seq<Sending.Row>)
      ensures Value() == Sending.Book(driver.Value(), rows) && this.driver == driver
    {
      this.driver, this.rows := driver, rows;
    }

    /** Only an approval brings a posting id; a refusal leaves that column alone. */
    function Claimed(r: Sending.Row, status: Sending.RowStatus, postingId: Option<string>): Sending.Row {
      r.(status := status, postingId := if postingId.Some? then postingId else r.postingId)
    }

    /** UPDATE ... WHERE id = ? AND status = 'NEEDS_APPROVAL'; the number of rows changed. */
    method Claim(at: nat, status: Sending.RowStatus, postingId: Option<string>) returns (changed: nat)
      requires at < |rows|
      modifies this`rows
      ensures changed == if old(rows)[at].status == Sending.NeedsApproval then 1 else 0
      ensures rows == if changed == 1 then old(rows)[at := Claimed(old(rows)[at], status, postingId)] else old(rows)
    {
      if rows[at].status != Sending.NeedsApproval {
        return 0;
      }
      rows := rows[at := Claimed(rows[at], status, postingId)];
      changed := 1;
    }

    /** The claim decides between two approvers, so it comes before the posting. */
    method Approve(at: nat, postingId: string) returns (moved: bool)
      modifies this, driver
      ensures Value() == Sending.ApproveRow(old(Value()), at, postingId)
      ensures moved <==> rows != old(rows)
      ensures !moved ==> Value() == old(Value())
    {
      moved := false;
      if at >= |rows| {
        return;
      }
      var saved := Value();
      var row := rows[at];
      var claimed := Claim(at, Sending.Settled, Some(postingId));
      if claimed == 1 {
        var posted := driver.Transaction(ShopTransfer(row.sender, row.recipient, row.amount, row.fee, postingId));
        if posted.Failure? {
          driver.Rollback(saved.store);
          rows := saved.rows;
          return;
        }
        assert rows[at] != saved.rows[at];
        moved := true;
      }
    }

    /** Refusing takes a reason and moves no money, since queueing had moved none. */
    method Refuse(at: nat, reason: string) returns (refused: bool)
      modifies this`rows
      ensures Value() == Sending.RefuseRow(old(Value()), at, reason)
      ensures refused <==> rows != old(rows)
    {
      refused := false;
      if at >= |rows| || rows[at].status != Sending.NeedsApproval || Text.Blank(reason) {
        return;
      }
      var before := rows[at];
      var changed := Claim(at, Sending.Refused, None);
      assert rows[at] != before;
      refused := changed == 1;
    }
  }
}
