/** Shop-to-shop transfers: the decision, the fee and the posting it leads to. */
module Transfers {
  import opened Wrappers
  import opened Ledger
  import opened Operations
  import opened Effects
  import opened Books

  datatype ShopStatus = Onboarding | Active | Suspended | Closed

  datatype Refusal =
    | RecipientNotFound
    | RecipientIsSender
    | SenderNotActive
    | RecipientNotActive
    | AmountNotPositive
    | AboveTransferLimit
    | AboveDailyLimit
    | InsufficientBalance

  datatype Policy = Policy(maxPerTransfer: int, maxPerDay: int, approvalThreshold: int, feeBps: int)

  datatype Shop = Shop(id: string, status: ShopStatus)

  datatype Request = Request(
    sender: Shop, senderAvailable: int, sentToday: int, recipient: Option<Shop>, amount: int)

  datatype Decision =
    | Refused(refusal: Refusal)
    | Accepted(fee: int, totalDebit: int, credit: int)
    | NeedsApproval(fee: int, totalDebit: int, credit: int)

  /** Math.ceil of amount * bps / 10000. */
  function FeeFor(amount: nat, bps: int): nat {
    if bps <= 0 then 0 else (amount * bps + 9_999) / 10_000
  }

  /** The first check that fails names the refusal. */
  function Decide(r: Request, p: Policy): Decision {
    if r.recipient.None? then Refused(RecipientNotFound)
    else if r.recipient.value.id == r.sender.id then Refused(RecipientIsSender)
    else if r.sender.status != Active then Refused(SenderNotActive)
    else if r.recipient.value.status != Active then Refused(RecipientNotActive)
    else if r.amount <= 0 then Refused(Refusal.AmountNotPositive)
    else if r.amount > p.maxPerTransfer then Refused(AboveTransferLimit)
    else if r.sentToday + r.amount > p.maxPerDay then Refused(AboveDailyLimit)
    else
      var fee := FeeFor(r.amount, p.feeBps);
      if r.amount + fee > r.senderAvailable then Refused(InsufficientBalance)
      else if r.amount > p.approvalThreshold then NeedsApproval(fee, r.amount + fee, r.amount)
      else Accepted(fee, r.amount + fee, r.amount)
  }

  /** The fee is the least whole amount that is not below its rate. */
  lemma FeeIsLeast(amount: nat, bps: int)
    ensures FeeFor(amount, bps) * 10_000 >= amount * bps
    ensures forall f: nat :: f * 10_000 >= amount * bps ==> FeeFor(amount, bps) <= f
  {
  }

  /** Everything a request must meet. */
  predicate Passes(r: Request, p: Policy) {
    && r.recipient.Some? && r.recipient.value.id != r.sender.id
    && r.sender.status == Active && r.recipient.value.status == Active
    && 0 < r.amount <= p.maxPerTransfer && r.sentToday + r.amount <= p.maxPerDay
    && r.amount + FeeFor(r.amount, p.feeBps) <= r.senderAvailable
  }

  /** The fault each refusal names, judged on its own. */
  predicate Faulty(r: Request, p: Policy, x: Refusal) {
    match x
    case RecipientNotFound => r.recipient.None?
    case RecipientIsSender => r.recipient.Some? && r.recipient.value.id == r.sender.id
    case SenderNotActive => r.sender.status != Active
    case RecipientNotActive => r.recipient.Some? && r.recipient.value.status != Active
    case AmountNotPositive => r.amount <= 0
    case AboveTransferLimit => r.amount > p.maxPerTransfer
    case AboveDailyLimit => r.sentToday + r.amount > p.maxPerDay
    case InsufficientBalance => r.amount > 0 && r.amount + FeeFor(r.amount, p.feeBps) > r.senderAvailable
  }

  /** Identity before status, status before shape, shape before limits, limits before money. */
  function Precedence(x: Refusal): nat {
    match x
    case RecipientNotFound => 0
    case RecipientIsSender => 1
    case SenderNotActive => 2
    case RecipientNotActive => 3
    case AmountNotPositive => 4
    case AboveTransferLimit => 5
    case AboveDailyLimit => 6
    case InsufficientBalance => 7
  }

  /** A refusal names the first thing wrong in that order, and a request with anything wrong is refused. */
  lemma RefusalExactly(r: Request, p: Policy, x: Refusal)
    ensures Decide(r, p) == Refused(x) <==>
            Faulty(r, p, x) && forall y :: Precedence(y) < Precedence(x) ==> !Faulty(r, p, y)
  {
    if Faulty(r, p, x) && forall y :: Precedence(y) < Precedence(x) ==> !Faulty(r, p, y) {
      assert Precedence(x) > 0 ==> !Faulty(r, p, RecipientNotFound);
      assert Precedence(x) > 1 ==> !Faulty(r, p, RecipientIsSender);
      assert Precedence(x) > 2 ==> !Faulty(r, p, SenderNotActive);
      assert Precedence(x) > 3 ==> !Faulty(r, p, RecipientNotActive);
      assert Precedence(x) > 4 ==> !Faulty(r, p, Refusal.AmountNotPositive);
      assert Precedence(x) > 5 ==> !Faulty(r, p, AboveTransferLimit);
      assert Precedence(x) > 6 ==> !Faulty(r, p, AboveDailyLimit);
    }
  }

  /**
   * The request is accepted exactly when none of the eight faults is there, whatever the order they are looked
   * for in; the recipient is then owed the whole amount and the sender pays the fee on top.
   */
  lemma AcceptedExactly(r: Request, p: Policy)
    ensures !Decide(r, p).Refused? <==> Passes(r, p)
    ensures Passes(r, p) <==> forall x :: !Faulty(r, p, x)
    ensures Decide(r, p).NeedsApproval? <==> Passes(r, p) && r.amount > p.approvalThreshold
    ensures var d := Decide(r, p); !d.Refused? ==> d.credit == r.amount && d.totalDebit == d.credit + d.fee
  {
    if !Passes(r, p) {
      assert Decide(r, p).Refused?;
      RefusalExactly(r, p, Decide(r, p).refusal);
    }
  }

  function Posting(r: Request, d: Decision, postingId: string): Op
    requires r.recipient.Some? && !d.Refused?
  {
    ShopTransfer(r.sender.id, r.recipient.value.id, d.credit, d.fee, postingId)
  }

  /**
   * A transfer posted at once from a decision on the current balance commits, takes amount and fee from
   * the sender, gives the amount to the recipient, and overdraws nobody.
   */
  lemma PostedAtOnce(s: Store, r: Request, p: Policy, postingId: string)
    requires Valid(s) && NoOverdraft(s) && !PostingUsed(s.entries, postingId)
    requires r.senderAvailable == Available(s.entries, r.sender.id) && !Decide(r, p).Refused?
    ensures var d := Decide(r, p);
            var op := Posting(r, d, postingId);
            var t := Next(s, op);
            && Commits(s, op) && NoOverdraft(t)
            && Available(t.entries, r.sender.id) == Available(s.entries, r.sender.id) - d.totalDebit
            && Available(t.entries, r.recipient.value.id) == Available(s.entries, r.recipient.value.id) + d.credit
            && Total(t.entries, Bucket(TelgaRevenue, None)) == Total(s.entries, Bucket(TelgaRevenue, None)) + d.fee
  {
    var op := Posting(r, Decide(r, p), postingId);
    AcceptedExactly(r, p);
    CommitsExactly(s, op);
    OverdraftExactly(s, op);
    AvailableEffect(s, op, r.sender.id);
    AvailableEffect(s, op, r.recipient.value.id);
    PostingEffect(s, op, TelgaRevenue, None);
  }
}
