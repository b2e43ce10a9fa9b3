/** The append-only double-entry ledger: entries, postings and the totals read from them. */
module Ledger {
  import opened Wrappers
  import opened Decimals

  datatype AccountKind =
    | MerchantFunds
    | MerchantAvailable
    | MerchantReserved
    | MerchantUnderReview
    | TelgaRevenue
    | ProviderSettlement
    | HardwareDeposits
    | RefundReserves
    | BankClearing

  datatype Direction = Debit | Credit

  datatype Reason = FundingCredit | SaleDebit | CommissionCredit | FeeDebit | Reversal | Adjustment

  /** One line of a posting. Amounts are whole minor units of the only currency, ETB. */
  datatype Draft = Draft(
    kind: AccountKind,
    merchant: Option<string>,
    transaction: Option<string>,
    direction: Direction,
    amount: int,
    reason: Reason,
    ruleVersion: Option<string>)

  /** A written line. Its primary key is derived from the posting id and the line's index. */
  datatype Entry = Entry(postingId: string, index: nat, line: Draft)

  datatype LedgerError = NotBalanced(residual: int) | CheckFailed | DuplicateEntryId | AlreadyPosted

  function EntryKey(postingId: string, index: nat): string {
    postingId + "_" + Decimal(index)
  }

  function EntryId(e: Entry): string {
    EntryKey(e.postingId, e.index)
  }

  /** A line's amount with its direction as the sign. */
  function Signed(d: Draft): int {
    if d.direction.Credit? then d.amount else -d.amount
  }

  predicate IsMerchantKind(kind: AccountKind) {
    kind in {MerchantFunds, MerchantAvailable, MerchantReserved, MerchantUnderReview}
  }

  /** What a total or a count is taken over. */
  datatype Filter =
    | Everything
    | Bucket(kind: AccountKind, merchant: Option<string>)
    | MerchantOwned(owner: string)
    | SaleBucket(saleKind: AccountKind, sale: string)
    | SaleLegs(legKind: AccountKind, legDirection: Direction, legSale: string)
    | Tagged(tagReason: Reason, tagMerchant: string, tag: string)
    | Funding(funded: string)
    | Revenue(earner: string, adjusting: bool)

  predicate Selects(f: Filter, d: Draft) {
    match f
    case Everything => true
    case Bucket(kind, merchant) => d.kind == kind && d.merchant == merchant
    case MerchantOwned(owner) => IsMerchantKind(d.kind) && d.merchant == Some(owner)
    case SaleBucket(kind, sale) => d.kind == kind && d.transaction == Some(sale)
    case SaleLegs(kind, direction, sale) =>
      d.kind == kind && d.direction == direction && d.transaction == Some(sale)
    case Tagged(reason, merchant, tag) =>
      d.kind == MerchantAvailable && d.reason == reason && d.merchant == Some(merchant) && d.ruleVersion == Some(tag)
    case Funding(merchant) => d.reason == FundingCredit && d.merchant == Some(merchant)
    case Revenue(earner, adjusting) =>
      d.kind == TelgaRevenue && d.merchant == Some(earner) && (adjusting <==> d.reason == Adjustment)
  }

  function Weight(d: Draft, f: Filter): int {
    if Selects(f, d) then Signed(d) else 0
  }

  /** Signed total of the selected lines of a posting. */
  function LinesTotal(ds: seq<Draft>, f: Filter): int {
    if ds == [] then 0 else LinesTotal(ds[..|ds| - 1], f) + Weight(ds[|ds| - 1], f)
  }

  function LinesCount(ds: seq<Draft>, f: Filter): nat {
    if ds == [] then 0 else LinesCount(ds[..|ds| - 1], f) + if Selects(f, ds[|ds| - 1]) then 1 else 0
  }

  /** Signed total of the selected entries of a ledger. */
  function Total(es: seq<Entry>, f: Filter): int {
    if es == [] then 0 else Total(es[..|es| - 1], f) + Weight(es[|es| - 1].line, f)
  }

  function Count(es: seq<Entry>, f: Filter): nat {
    if es == [] then 0 else Count(es[..|es| - 1], f) + if Selects(f, es[|es| - 1].line) then 1 else 0
  }

  function Residual(ds: seq<Draft>): int {
    LinesTotal(ds, Everything)
  }

  /** The entries a posting's lines become. */
  function Stamp(postingId: string, ds: seq<Draft>): (es: seq<Entry>)
    ensures |es| == |ds|
  {
    seq(|ds|, i requires 0 <= i < |ds| => Entry(postingId, i, ds[i]))
  }

  // --- appending, as the repository does it ----------------------------------

  predicate KeyTaken(es: seq<Entry>, key: string) {
    exists i :: 0 <= i < |es| && EntryId(es[i]) == key
  }

  ghost predicate PostingUsed(es: seq<Entry>, postingId: string) {
    exists i :: 0 <= i < |es| && es[i].postingId == postingId
  }

  /** Insert the lines from index k on, one row at a time; a row's CHECK is judged before its primary key. */
  function InsertFrom(es: seq<Entry>, postingId: string, ds: seq<Draft>, k: nat): Result<seq<Entry>, LedgerError>
    requires k <= |ds|
    decreases |ds| - k
  {
    if k == |ds| then Success(es)
    else if ds[k].amount <= 0 then Failure(CheckFailed)
    else if KeyTaken(es, EntryKey(postingId, k)) then Failure(DuplicateEntryId)
    else InsertFrom(es + [Entry(postingId, k, ds[k])], postingId, ds, k + 1)
  }

  /** Append a balanced posting to the entries table. */
  function Append(es: seq<Entry>, postingId: string, ds: seq<Draft>): Result<seq<Entry>, LedgerError> {
    if Residual(ds) != 0 then Failure(NotBalanced(Residual(ds)))
    else InsertFrom(es, postingId, ds, 0)
  }

  // --- the in-memory ledger of the domain package ---------------------------

  /** What the domain's ledger says about the same posting. */
  function Post(es: seq<Entry>, postingId: string, ds: seq<Draft>): Result<seq<Entry>, LedgerError> {
    if ds == [] then Failure(NotBalanced(0))
    else if Residual(ds) != 0 then Failure(NotBalanced(Residual(ds)))
    else if exists i :: 0 <= i < |es| && es[i].postingId == postingId then Failure(AlreadyPosted)
    else Success(es + Stamp(postingId, ds))
  }

  class AppendOnlyLedger {
    var posted: seq<Entry>

    constructor ()
      ensures posted == []
    {
      posted := [];
    }

    /** Post a balanced set of lines; a refusal writes nothing. */
    method PostEntries(postingId: string, ds: seq<Draft>) returns (r: Result<seq<Entry>, LedgerError>)
      modifies this
      ensures Post(old(posted), postingId, ds).Failure? ==>
                posted == old(posted) && r.Failure? && r.error == Post(old(posted), postingId, ds).error
      ensures Post(old(posted), postingId, ds).Success? ==>
                r == Success(Stamp(postingId, ds)) && posted == Post(old(posted), postingId, ds).value
    {
      if ds == [] {
        return Failure(NotBalanced(0));
      }
      if Residual(ds) != 0 {
        return Failure(NotBalanced(Residual(ds)));
      }
      if exists i :: 0 <= i < |posted| && posted[i].postingId == postingId {
        return Failure(AlreadyPosted);
      }
      var written: seq<Entry> := [];
      for k := 0 to |ds|
        invariant posted == old(posted)
        invariant written == Stamp(postingId, ds)[..k]
      {
        written := written + [Entry(postingId, k, ds[k])];
      }
      assert written == Stamp(postingId, ds);
      posted := posted + written;
      r := Success(written);
    }
  }

  // --- well-formed tables ----------------------------------------------------

  ghost predicate HasFirst(es: seq<Entry>, postingId: string) {
    exists i :: 0 <= i < |es| && es[i].postingId == postingId && es[i].index == 0
  }

  /** Every row passed its CHECK, keys are distinct, and no posting is missing its first line. */
  ghost predicate WellPosted(es: seq<Entry>) {
    && (forall i :: 0 <= i < |es| ==> es[i].line.amount > 0)
    && (forall i, j :: 0 <= i < j < |es| ==> EntryId(es[i]) != EntryId(es[j]))
    && (forall i :: 0 <= i < |es| ==> HasFirst(es, es[i].postingId))
  }

  predicate AllPositive(ds: seq<Draft>) {
    forall i :: 0 <= i < |ds| ==> ds[i].amount > 0
  }

  // --- totals over concatenations --------------------------------------------

  lemma {:induction false} TotalSplits(es: seq<Entry>, fs: seq<Entry>, f: Filter)
    ensures Total(es + fs, f) == Total(es, f) + Total(fs, f)
    ensures Count(es + fs, f) == Count(es, f) + Count(fs, f)
    decreases |fs|
  {
    if fs == [] {
      assert es + fs == es;
    } else {
      assert (es + fs)[..|es + fs| - 1] == es + fs[..|fs| - 1];
      TotalSplits(es, fs[..|fs| - 1], f);
    }
  }

  lemma {:induction false} StampTotals(postingId: string, ds: seq<Draft>, f: Filter)
    ensures Total(Stamp(postingId, ds), f) == LinesTotal(ds, f)
    ensures Count(Stamp(postingId, ds), f) == LinesCount(ds, f)
    decreases |ds|
  {
    if ds != [] {
      assert Stamp(postingId, ds)[..|ds| - 1] == Stamp(postingId, ds[..|ds| - 1]);
      StampTotals(postingId, ds[..|ds| - 1], f);
    }
  }

  lemma TotalsAfter(es: seq<Entry>, postingId: string, ds: seq<Draft>, f: Filter)
    ensures Total(es + Stamp(postingId, ds), f) == Total(es, f) + LinesTotal(ds, f)
    ensures Count(es + Stamp(postingId, ds), f) == Count(es, f) + LinesCount(ds, f)
  {
    TotalSplits(es, Stamp(postingId, ds), f);
    StampTotals(postingId, ds, f);
  }

  lemma OfTwo(a: Draft, b: Draft, f: Filter)
    ensures LinesTotal([a, b], f) == Weight(a, f) + Weight(b, f)
    ensures LinesCount([a, b], f) == (if Selects(f, a) then 1 else 0) + (if Selects(f, b) then 1 else 0)
  {
    assert [a, b][..1] == [a];
    assert [a][..0] == [];
    assert LinesTotal([a], f) == Weight(a, f);
    assert LinesCount([a], f) == if Selects(f, a) then 1 else 0;
  }

  lemma OfThree(a: Draft, b: Draft, c: Draft, f: Filter)
    ensures LinesTotal([a, b, c], f) == Weight(a, f) + Weight(b, f) + Weight(c, f)
    ensures LinesCount([a, b, c], f) ==
            (if Selects(f, a) then 1 else 0) + (if Selects(f, b) then 1 else 0) + (if Selects(f, c) then 1 else 0)
  {
    assert [a, b, c][..2] == [a, b];
    OfTwo(a, b, f);
  }

  // --- when a posting is accepted --------------------------------------------

  /** A well-formed table holds a key exactly when it holds that line of that posting. */
  lemma KeyTakenMeaning(es: seq<Entry>, postingId: string, k: nat)
    ensures KeyTaken(es, EntryKey(postingId, k)) <==>
            exists i :: 0 <= i < |es| && es[i].postingId == postingId && es[i].index == k
  {
    forall i | 0 <= i < |es|
      ensures EntryId(es[i]) == EntryKey(postingId, k) <==> es[i].postingId == postingId && es[i].index == k
    {
      SuffixedInjective(es[i].postingId, es[i].index, postingId, k);
    }
  }

  lemma {:induction false} InsertUnused(es: seq<Entry>, postingId: string, ds: seq<Draft>, k: nat)
    requires k <= |ds| <= |es| + |ds|
    requires k <= |es| && es[|es| - k..] == Stamp(postingId, ds)[..k]
    requires !PostingUsed(es[..|es| - k], postingId)
    ensures InsertFrom(es, postingId, ds, k).Success? <==> AllPositive(ds[k..])
    ensures InsertFrom(es, postingId, ds, k).Failure? ==> InsertFrom(es, postingId, ds, k).error == CheckFailed
    ensures InsertFrom(es, postingId, ds, k).Success? ==>
              InsertFrom(es, postingId, ds, k).value == es[..|es| - k] + Stamp(postingId, ds)
    decreases |ds| - k
  {
    if k == |ds| {
      assert es == es[..|es| - k] + es[|es| - k..];
      assert Stamp(postingId, ds)[..k] == Stamp(postingId, ds);
    } else {
      KeyTakenMeaning(es, postingId, k);
      forall i | 0 <= i < |es|
        ensures es[i].postingId == postingId ==> es[i].index != k
      {
        if i < |es| - k {
          assert es[i] == es[..|es| - k][i];
        } else {
          assert es[i] == es[|es| - k..][i - (|es| - k)];
        }
      }
      if ds[k].amount > 0 {
        var es' := es + [Entry(postingId, k, ds[k])];
        assert es'[|es'| - (k + 1)..] == es[|es| - k..] + [Entry(postingId, k, ds[k])];
        assert es'[..|es'| - (k + 1)] == es[..|es| - k];
        InsertUnused(es', postingId, ds, k + 1);
        assert ds[k..] == [ds[k]] + ds[k + 1..];
      } else {
        assert ds[k..][0] == ds[k];
      }
    }
  }

  /**
   * The entries table takes a non-empty posting exactly when it balances, every amount is positive
   * and its id was never written; it then holds the old rows followed by the posting's lines.
   */
  lemma AppendExactly(es: seq<Entry>, postingId: string, ds: seq<Draft>)
    requires WellPosted(es) && ds != []
    ensures Append(es, postingId, ds).Success? <==>
            Residual(ds) == 0 && AllPositive(ds) && !PostingUsed(es, postingId)
    ensures Append(es, postingId, ds).Success? ==>
              Append(es, postingId, ds).value == es + Stamp(postingId, ds)
  {
    if PostingUsed(es, postingId) {
      var i :| 0 <= i < |es| && es[i].postingId == postingId;
      assert HasFirst(es, es[i].postingId);
      KeyTakenMeaning(es, postingId, 0);
    } else {
      assert es[..|es| - 0] == es && es[|es| - 0..] == [];
      assert Stamp(postingId, ds)[..0] == [];
      InsertUnused(es, postingId, ds, 0);
      assert ds[0..] == ds;
    }
  }

  /** Why the table refuses: what does not balance, then the first row's amount or key, then any later amount. */
  lemma AppendRefusals(es: seq<Entry>, postingId: string, ds: seq<Draft>)
    requires WellPosted(es) && ds != []
    ensures var told, used := Append(es, postingId, ds), PostingUsed(es, postingId);
            && (told == Failure(NotBalanced(Residual(ds))) <==> Residual(ds) != 0)
            && (told == Failure(CheckFailed) <==>
                Residual(ds) == 0 && (if used then ds[0].amount <= 0 else !AllPositive(ds)))
            && (told == Failure(DuplicateEntryId) <==> Residual(ds) == 0 && used && ds[0].amount > 0)
  {
    if PostingUsed(es, postingId) {
      var i :| 0 <= i < |es| && es[i].postingId == postingId;
      assert HasFirst(es, es[i].postingId);
      KeyTakenMeaning(es, postingId, 0);
    } else {
      assert es[..|es| - 0] == es && es[|es| - 0..] == [];
      assert Stamp(postingId, ds)[..0] == [];
      InsertUnused(es, postingId, ds, 0);
      assert ds[0..] == ds;
    }
  }

  /** And why the domain's ledger does: balance comes before a posting id written before. */
  lemma PostRefusals(es: seq<Entry>, postingId: string, ds: seq<Draft>)
    ensures var told := Post(es, postingId, ds);
            && (told == Failure(NotBalanced(0)) <==> ds == [])
            && (told == Failure(NotBalanced(Residual(ds))) <==> ds == [] || Residual(ds) != 0)
            && (told == Failure(AlreadyPosted) <==> ds != [] && Residual(ds) == 0 && PostingUsed(es, postingId))
            && (told.Success? ==> told.value == es + Stamp(postingId, ds))
  {
  }

  /** An accepted posting leaves a well-formed table. */
  lemma AppendKeepsWellPosted(es: seq<Entry>, postingId: string, ds: seq<Draft>)
    requires WellPosted(es) && AllPositive(ds) && !PostingUsed(es, postingId)
    ensures WellPosted(es + Stamp(postingId, ds))
  {
    var all := es + Stamp(postingId, ds);
    forall i, j | 0 <= i < j < |all|
      ensures EntryId(all[i]) != EntryId(all[j])
    {
      if j >= |es| {
        SuffixedInjective(all[i].postingId, all[i].index, all[j].postingId, all[j].index);
      }
    }
    forall i | 0 <= i < |all|
      ensures HasFirst(all, all[i].postingId)
    {
      if i < |es| {
        assert HasFirst(es, es[i].postingId);
        var j :| 0 <= j < |es| && es[j].postingId == es[i].postingId && es[j].index == 0;
        assert all[j] == es[j];
      } else {
        assert all[|es|] == Stamp(postingId, ds)[0];
      }
    }
  }

  // --- what a ledger holds -----------------------------------------------------

  ghost predicate HoldsAt(es: seq<Entry>, postingId: string, ds: seq<Draft>, k: nat) {
    k + |ds| <= |es| && es[k..k + |ds|] == Stamp(postingId, ds)
  }

  /** The ledger holds exactly these lines, side by side, under this posting id. */
  ghost predicate Holds(es: seq<Entry>, postingId: string, ds: seq<Draft>) {
    exists k: nat :: HoldsAt(es, postingId, ds, k)
  }

  lemma HoldsStays(es: seq<Entry>, fs: seq<Entry>, postingId: string, ds: seq<Draft>)
    requires Holds(es, postingId, ds) && es <= fs
    ensures Holds(fs, postingId, ds)
  {
    var k: nat :| HoldsAt(es, postingId, ds, k);
    assert fs[k..k + |ds|] == es[k..k + |ds|];
    assert HoldsAt(fs, postingId, ds, k);
  }

  lemma HoldsNew(es: seq<Entry>, postingId: string, ds: seq<Draft>)
    ensures Holds(es + Stamp(postingId, ds), postingId, ds)
  {
    assert (es + Stamp(postingId, ds))[|es|..|es| + |ds|] == Stamp(postingId, ds);
    assert HoldsAt(es + Stamp(postingId, ds), postingId, ds, |es|);
  }

  lemma HoldsUses(es: seq<Entry>, postingId: string, ds: seq<Draft>)
    requires Holds(es, postingId, ds) && ds != []
    ensures PostingUsed(es, postingId)
  {
    var k: nat :| HoldsAt(es, postingId, ds, k);
    assert es[k] == es[k..k + |ds|][0] == Stamp(postingId, ds)[0];
  }

  /**
   * The persistence layer's table and the domain's in-memory ledger give one answer on a posting exactly when
   * it is not empty and either every amount is positive or both refuse it anyway: the table takes an empty
   * posting, and the domain takes a line of nothing or less. Where both accept, they come to the same entries.
   */
  lemma TwoLedgersAgree(es: seq<Entry>, postingId: string, ds: seq<Draft>)
    requires WellPosted(es)
    ensures (Append(es, postingId, ds).Success? <==> Post(es, postingId, ds).Success?) <==>
            ds != [] && (AllPositive(ds) || Residual(ds) != 0 || PostingUsed(es, postingId))
    ensures Append(es, postingId, ds).Success? && Post(es, postingId, ds).Success? ==>
              Append(es, postingId, ds) == Post(es, postingId, ds)
  {
    if ds != [] {
      AppendExactly(es, postingId, ds);
    }
  }

  /** The two ways they differ, at their smallest: nothing at all, and one line of nothing. */
  lemma TwoLedgersDiffer(es: seq<Entry>, postingId: string, d: Draft)
    requires WellPosted(es) && !PostingUsed(es, postingId) && d.amount == 0
    ensures Append(es, postingId, []) == Success(es) && Post(es, postingId, []).Failure?
    ensures Append(es, postingId, [d]).Failure? && Post(es, postingId, [d]).Success?
  {
    var ds := [d];
    assert ds[..|ds| - 1] == [];
    assert LinesTotal(ds, Everything) == Weight(d, Everything) == 0;
    assert ds[0].amount == 0;
    TwoLedgersAgree(es, postingId, ds);
  }
}
