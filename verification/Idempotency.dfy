/** Sale intents, their keys and fingerprints, and the store that lets a request happen once. */
module Idempotency {
  import opened Wrappers
  import opened Fingerprints
  import opened Decimals

  datatype SaleIntent = SaleIntent(
    merchant: Utf16, device: Utf16, product: Utf16, amount: int, recipient: Utf16, clientRequest: Utf16)

  const BAR: Utf16 := [0x7C]
  const ETB: Utf16 := [0x45, 0x54, 0x42]

  function Ascii(s: string): Utf16
    requires forall i :: 0 <= i < |s| ==> s[i] < '\U{80}'
  {
    seq(|s|, i requires 0 <= i < |s| => s[i] as nat)
  }

  /** String(minor). */
  function Minor(amount: int): Utf16 {
    if amount < 0 then [0x2D] + Ascii(Decimal(-amount)) else Ascii(Decimal(amount))
  }

  /** Field order is fixed. */
  function CanonicalPayload(i: SaleIntent): Utf16 {
    i.merchant + BAR + i.device + BAR + i.product + BAR + ETB + BAR + Minor(i.amount) + BAR + i.recipient
    + BAR + i.clientRequest
  }

  function PayloadFingerprint(i: SaleIntent): string {
    Fingerprint(CanonicalPayload(i))
  }

  /** Who asked, from which till, and the number the till gave the request. */
  function CanonicalKeySource(i: SaleIntent): Utf16 {
    i.merchant + BAR + i.device + BAR + i.clientRequest
  }

  function DeriveKey(i: SaleIntent): string {
    "idem_" + Fingerprint(CanonicalKeySource(i))
  }

  datatype Record = Record(
    key: string, merchant: Utf16, device: Utf16, mark: string, transaction: string, createdAt: string)

  datatype Outcome = New(record: Record) | Replay(record: Record)

  datatype IdemError = PayloadMismatch(key: string) | DuplicateInProgress(key: string, transaction: string)

  /** One call on the store. */
  datatype Request = Request(intent: SaleIntent, transaction: string, at: string)

  function RecordOf(r: Request): Record {
    Record(DeriveKey(r.intent), r.intent.merchant, r.intent.device, PayloadFingerprint(r.intent), r.transaction, r.at)
  }

  type Records = map<string, Record>

  /** Only a key not seen before is written. */
  function RecordsAfter(records: Records, r: Request): Records {
    if DeriveKey(r.intent) in records then records else records[DeriveKey(r.intent) := RecordOf(r)]
  }

  class IdempotencyStore {
    var records: Records

    /** Every call ever made, oldest first. */
    ghost var history: seq<Request>

    ghost predicate Valid()
      reads this
    {
      records == Remembered(history)
    }

    constructor ()
      ensures Valid() && history == []
    {
      records, history := map[], [];
    }

    /** First writer wins: unseen keys are recorded, same payloads replayed, others refused. */
    method Register(intent: SaleIntent, transaction: string, at: string) returns (r: Result<Outcome, IdemError>)
      requires Valid()
      modifies this
      ensures Valid() && history == old(history) + [Request(intent, transaction, at)]
      ensures r == Verdict(old(history), Request(intent, transaction, at))
      ensures !(r.Success? && r.value.New?) ==> records == old(records)
    {
      ghost var call := Request(intent, transaction, at);
      FirstIsRemembered(history, DeriveKey(intent));
      var key := DeriveKey(intent);
      var payload := PayloadFingerprint(intent);
      if key in records {
        var existing := records[key];
        if existing.mark != payload {
          r := Failure(PayloadMismatch(key));
        } else {
          r := Success(Replay(existing));
        }
      } else {
        var record := Record(key, intent.merchant, intent.device, payload, transaction, at);
        records := records[key := record];
        r := Success(New(record));
      }
      assert (history + [call])[..|history|] == history;
      history := history + [call];
    }

    /** Refuses exactly the keys some earlier call registered. */
    method AssertNotInProgress(intent: SaleIntent) returns (r: Result<(), IdemError>)
      requires Valid()
      ensures r.Failure? <==> FirstWith(history, DeriveKey(intent)).Some?
      ensures r.Failure? ==>
                r.error == DuplicateInProgress(DeriveKey(intent), FirstWith(history, DeriveKey(intent)).value.transaction)
    {
      FirstIsRemembered(history, DeriveKey(intent));
      var key := DeriveKey(intent);
      if key in records {
        return Failure(DuplicateInProgress(key, records[key].transaction));
      }
      r := Success(());
    }
  }

  // --- the store agrees with its history -------------------------------------------------------

  /** What the calls made so far leave in the store. */
  function Remembered(calls: seq<Request>): Records {
    if calls == [] then map[] else RecordsAfter(Remembered(calls[..|calls| - 1]), calls[|calls| - 1])
  }

  /** The first call made under a key. */
  function FirstWith(calls: seq<Request>, key: string): (r: Option<Request>)
    ensures r.Some? ==> r.value in calls && DeriveKey(r.value.intent) == key
    ensures r.None? ==> forall c :: c in calls ==> DeriveKey(c.intent) != key
  {
    if calls == [] then None
    else
      var earlier := FirstWith(calls[..|calls| - 1], key);
      assert calls == calls[..|calls| - 1] + [calls[|calls| - 1]];
      if earlier.Some? then earlier
      else if DeriveKey(calls[|calls| - 1].intent) == key then Some(calls[|calls| - 1])
      else None
  }

  /** The answer a call deserves, judged by the calls before it alone. */
  function Verdict(earlier: seq<Request>, r: Request): Result<Outcome, IdemError> {
    var first := FirstWith(earlier, DeriveKey(r.intent));
    if first.None? then Success(New(RecordOf(r)))
    else if PayloadFingerprint(first.value.intent) == PayloadFingerprint(r.intent) then
      Success(Replay(RecordOf(first.value)))
    else Failure(PayloadMismatch(DeriveKey(r.intent)))
  }

  /** Under each key the store holds exactly the record of the first call made with it. */
  lemma {:induction false} FirstIsRemembered(calls: seq<Request>, key: string)
    ensures key in Remembered(calls) <==> FirstWith(calls, key).Some?
    ensures key in Remembered(calls) ==> Remembered(calls)[key] == RecordOf(FirstWith(calls, key).value)
  {
    if calls != [] {
      FirstIsRemembered(calls[..|calls| - 1], key);
      FirstIsRemembered(calls[..|calls| - 1], DeriveKey(calls[|calls| - 1].intent));
    }
  }

  function NewAnswers(calls: seq<Request>, key: string): nat {
    if calls == [] then 0
    else
      var last := calls[|calls| - 1];
      var v := Verdict(calls[..|calls| - 1], last);
      NewAnswers(calls[..|calls| - 1], key) + if DeriveKey(last.intent) == key && v.Success? && v.value.New? then 1 else 0
  }

  /** However often a request is repeated or altered, its key is answered NEW once. */
  lemma {:induction false} NewOncePerKey(calls: seq<Request>, key: string)
    ensures NewAnswers(calls, key) == if FirstWith(calls, key).Some? then 1 else 0
  {
    if calls != [] {
      NewOncePerKey(calls[..|calls| - 1], key);
    }
  }

  // --- a tampered repeat is always caught ---------------------------------------------------------

  ghost predicate OneUnitApart(s: Utf16, t: Utf16) {
    exists before: Utf16, a: Unit, b: Unit, after: Utf16 ::
      a != b && s == before + [a] + after && t == before + [b] + after
  }

  /** Every intent that repeats a key with one character of its payload changed is refused, for ever. */
  lemma TamperedRepeatIsRefused(earlier: seq<Request>, r: Request)
    requires var first := FirstWith(earlier, DeriveKey(r.intent));
             first.Some? && OneUnitApart(CanonicalPayload(first.value.intent), CanonicalPayload(r.intent))
    ensures Verdict(earlier, r) == Failure(PayloadMismatch(DeriveKey(r.intent)))
  {
    var s := CanonicalPayload(FirstWith(earlier, DeriveKey(r.intent)).value.intent);
    var t := CanonicalPayload(r.intent);
    var before: Utf16, a: Unit, b: Unit, after: Utf16 :|
      a != b && s == before + [a] + after && t == before + [b] + after;
    OneUnitAlwaysShows(before, a, b, after);
  }

  /** A field that differs in one unit makes a whole that does. */
  lemma FieldShows(head: Utf16, x: Utf16, a: Unit, b: Unit, y: Utf16, tail: Utf16)
    requires a != b
    ensures OneUnitApart(head + (x + [a] + y) + tail, head + (x + [b] + y) + tail)
  {
    assert head + (x + [a] + y) + tail == (head + x) + [a] + (y + tail);
    assert head + (x + [b] + y) + tail == (head + x) + [b] + (y + tail);
  }

  /** Changing one character of the recipient changes one unit of the payload and leaves the key alone. */
  lemma RecipientChangeShows(i: SaleIntent, x: Utf16, a: Unit, b: Unit, y: Utf16)
    requires a != b && i.recipient == x + [a] + y
    ensures var j := i.(recipient := x + [b] + y);
            OneUnitApart(CanonicalPayload(i), CanonicalPayload(j)) && DeriveKey(i) == DeriveKey(j)
  {
    var j := i.(recipient := x + [b] + y);
    var head := i.merchant + BAR + i.device + BAR + i.product + BAR + ETB + BAR + Minor(i.amount) + BAR;
    var tail := BAR + i.clientRequest;
    assert CanonicalPayload(i) == head + i.recipient + tail;
    assert CanonicalPayload(j) == head + j.recipient + tail;
    FieldShows(head, x, a, b, y, tail);
  }

  /** What the payload holds after the product's bar. */
  function AfterProduct(i: SaleIntent): Utf16 {
    ETB + BAR + (Minor(i.amount) + BAR + (i.recipient + BAR + i.clientRequest))
  }

  lemma Regroup(head: Utf16, field: Utf16, tail: Utf16)
    ensures head + field + BAR + tail == head + (field + BAR + tail)
    ensures head + field + BAR + tail == head + field + (BAR + tail)
  {
  }

  lemma PayloadUnfolds(i: SaleIntent)
    ensures CanonicalPayload(i) == i.merchant + BAR + (i.device + BAR + (i.product + BAR + AfterProduct(i)))
    ensures CanonicalPayload(i) == i.merchant + BAR + i.device + BAR + i.product + (BAR + AfterProduct(i))
  {
    var shop := i.merchant + BAR;
    var till := shop + i.device + BAR;
    var product := till + i.product + BAR;
    var currency := product + ETB + BAR;
    var t1 := i.recipient + BAR + i.clientRequest;
    var t2 := Minor(i.amount) + BAR + t1;
    Regroup(currency + Minor(i.amount) + BAR, i.recipient, i.clientRequest);
    Regroup(currency, Minor(i.amount), t1);
    Regroup(product, ETB, t2);
    Regroup(till, i.product, AfterProduct(i));
    Regroup(shop, i.device, i.product + BAR + AfterProduct(i));
  }

  /** The same for the product. */
  lemma ProductChangeShows(i: SaleIntent, x: Utf16, a: Unit, b: Unit, y: Utf16)
    requires a != b && i.product == x + [a] + y
    ensures var j := i.(product := x + [b] + y);
            OneUnitApart(CanonicalPayload(i), CanonicalPayload(j)) && DeriveKey(i) == DeriveKey(j)
  {
    var j := i.(product := x + [b] + y);
    var head := i.merchant + BAR + i.device + BAR;
    var tail := BAR + AfterProduct(i);
    PayloadUnfolds(i);
    PayloadUnfolds(j);
    FieldShows(head, x, a, b, y, tail);
  }

  /** A digit of the amount changed in place, as a mistyped or altered figure does. */
  lemma AmountDigitChangeShows(i: SaleIntent, amount: int, x: Utf16, a: Unit, b: Unit, y: Utf16)
    requires a != b && Minor(i.amount) == x + [a] + y && Minor(amount) == x + [b] + y
    ensures var j := i.(amount := amount);
            OneUnitApart(CanonicalPayload(i), CanonicalPayload(j)) && DeriveKey(i) == DeriveKey(j)
  {
    var j := i.(amount := amount);
    var head := i.merchant + BAR + i.device + BAR + i.product + BAR + ETB + BAR;
    var tail := BAR + i.recipient + BAR + i.clientRequest;
    assert CanonicalPayload(i) == head + Minor(i.amount) + tail;
    assert CanonicalPayload(j) == head + Minor(amount) + tail;
    FieldShows(head, x, a, b, y, tail);
  }

  /** Two shops, devices or client requests whose ids differ in one character never share a key. */
  lemma RequestChangeChangesKey(i: SaleIntent, x: Utf16, a: Unit, b: Unit, y: Utf16)
    requires a != b
    ensures i.clientRequest == x + [a] + y ==> DeriveKey(i) != DeriveKey(i.(clientRequest := x + [b] + y))
    ensures i.device == x + [a] + y ==> DeriveKey(i) != DeriveKey(i.(device := x + [b] + y))
    ensures i.merchant == x + [a] + y ==> DeriveKey(i) != DeriveKey(i.(merchant := x + [b] + y))
  {
    if i.clientRequest == x + [a] + y {
      KeysDiffer(i, i.(clientRequest := x + [b] + y), i.merchant + BAR + i.device + BAR + x, a, b, y);
    }
    if i.device == x + [a] + y {
      DeviceChangesKey(i, x, a, b, y);
    }
    if i.merchant == x + [a] + y {
      ShopChangesKey(i, x, a, b, y);
    }
  }

  lemma DeviceChangesKey(i: SaleIntent, x: Utf16, a: Unit, b: Unit, y: Utf16)
    requires a != b && i.device == x + [a] + y
    ensures DeriveKey(i) != DeriveKey(i.(device := x + [b] + y))
  {
    KeysDiffer(i, i.(device := x + [b] + y), i.merchant + BAR + x, a, b, y + BAR + i.clientRequest);
  }

  lemma ShopChangesKey(i: SaleIntent, x: Utf16, a: Unit, b: Unit, y: Utf16)
    requires a != b && i.merchant == x + [a] + y
    ensures DeriveKey(i) != DeriveKey(i.(merchant := x + [b] + y))
  {
    KeysDiffer(i, i.(merchant := x + [b] + y), x, a, b, y + BAR + i.device + BAR + i.clientRequest);
  }

  lemma KeysDiffer(i: SaleIntent, j: SaleIntent, before: Utf16, a: Unit, b: Unit, after: Utf16)
    requires a != b
    requires CanonicalKeySource(i) == before + [a] + after
    requires CanonicalKeySource(j) == before + [b] + after
    ensures DeriveKey(i) != DeriveKey(j)
  {
    OneUnitAlwaysShows(before, a, b, after);
    assert DeriveKey(i)[5..] == Fingerprint(CanonicalKeySource(i));
    assert DeriveKey(j)[5..] == Fingerprint(CanonicalKeySource(j));
  }

  // --- what the two canonical forms tell apart -------------------------------------------------------

  predicate NoBar(s: Utf16) {
    forall i :: 0 <= i < |s| ==> s[i] != 0x7C
  }

  /** A field without a bar, and what follows the bar after it, can be read back. */
  lemma FieldIsReadable(x: Utf16, s: Utf16, y: Utf16, t: Utf16)
    requires NoBar(x) && NoBar(y) && x + BAR + s == y + BAR + t
    ensures x == y && s == t
  {
    var a, b := x + BAR + s, y + BAR + t;
    assert a[|x|] == b[|x|] == 0x7C && a[|y|] == b[|y|] == 0x7C;
    assert |x| == |y|;
    assert x == a[..|x|] && y == b[..|y|];
    assert s == a[|x| + 1..] && t == b[|y| + 1..];
  }

  /** Whose shop and till hold no bar: the key's source is one shop's, one till's and one request's alone. */
  lemma KeySourceExactly(i: SaleIntent, j: SaleIntent)
    requires NoBar(i.merchant) && NoBar(i.device) && NoBar(j.merchant) && NoBar(j.device)
    ensures CanonicalKeySource(i) == CanonicalKeySource(j) <==>
            i.merchant == j.merchant && i.device == j.device && i.clientRequest == j.clientRequest
  {
    if CanonicalKeySource(i) == CanonicalKeySource(j) {
      assert CanonicalKeySource(i) == i.merchant + BAR + (i.device + BAR + i.clientRequest);
      assert CanonicalKeySource(j) == j.merchant + BAR + (j.device + BAR + j.clientRequest);
      FieldIsReadable(i.merchant, i.device + BAR + i.clientRequest, j.merchant, j.device + BAR + j.clientRequest);
      FieldIsReadable(i.device, i.clientRequest, j.device, j.clientRequest);
    }
  }

  /** With a bar in an id two shops' requests can have one source, and so one key. */
  lemma BarsMakeKeysMeet(i: SaleIntent, x: Utf16, y: Utf16, z: Utf16)
    ensures var a := i.(merchant := x + BAR + y, device := z);
            var b := i.(merchant := x, device := y + BAR + z);
            CanonicalKeySource(a) == CanonicalKeySource(b) && DeriveKey(a) == DeriveKey(b)
  {
    var a := i.(merchant := x + BAR + y, device := z);
    var b := i.(merchant := x, device := y + BAR + z);
    assert CanonicalKeySource(a) == CanonicalKeySource(b);
  }

  lemma {:induction false} MinorInjective(m: int, n: int)
    requires Minor(m) == Minor(n)
    ensures m == n
  {
    var x, y := Decimal(if m < 0 then -m else m), Decimal(if n < 0 then -n else n);
    assert Ascii(x)[0] == x[0] as nat && Ascii(y)[0] == y[0] as nat;
    assert (m < 0) == (n < 0);
    assert Minor(m)[if m < 0 then 1 else 0..] == Ascii(x) && Minor(n)[if n < 0 then 1 else 0..] == Ascii(y);
    forall k | 0 <= k < |x|
      ensures x[k] == y[k]
    {
      assert Ascii(x)[k] == x[k] as nat && Ascii(y)[k] == y[k] as nat;
    }
    assert x == y;
    DecimalInjective(if m < 0 then -m else m, if n < 0 then -n else n);
  }

  lemma MinorHasNoBar(m: int)
    ensures NoBar(Minor(m))
  {
  }

  predicate BarFree(i: SaleIntent) {
    NoBar(i.merchant) && NoBar(i.device) && NoBar(i.product) && NoBar(i.recipient)
  }

  /** Where no field but the last holds a bar, the payload is the whole intent: it can be read back. */
  lemma PayloadExactly(i: SaleIntent, j: SaleIntent)
    requires BarFree(i) && BarFree(j)
    ensures CanonicalPayload(i) == CanonicalPayload(j) <==> i == j
  {
    if CanonicalPayload(i) == CanonicalPayload(j) {
      PayloadUnfolds(i);
      PayloadUnfolds(j);
      FieldIsReadable(i.merchant, i.device + BAR + (i.product + BAR + AfterProduct(i)),
                      j.merchant, j.device + BAR + (j.product + BAR + AfterProduct(j)));
      FieldIsReadable(i.device, i.product + BAR + AfterProduct(i), j.device, j.product + BAR + AfterProduct(j));
      FieldIsReadable(i.product, AfterProduct(i), j.product, AfterProduct(j));
      RestIsReadable(i, j);
    }
  }

  lemma RestIsReadable(i: SaleIntent, j: SaleIntent)
    requires BarFree(i) && BarFree(j) && AfterProduct(i) == AfterProduct(j)
    ensures i.amount == j.amount && i.recipient == j.recipient && i.clientRequest == j.clientRequest
  {
    MinorHasNoBar(i.amount);
    MinorHasNoBar(j.amount);
    FieldIsReadable(ETB, Minor(i.amount) + BAR + (i.recipient + BAR + i.clientRequest),
                    ETB, Minor(j.amount) + BAR + (j.recipient + BAR + j.clientRequest));
    FieldIsReadable(Minor(i.amount), i.recipient + BAR + i.clientRequest,
                    Minor(j.amount), j.recipient + BAR + j.clientRequest);
    FieldIsReadable(i.recipient, i.clientRequest, j.recipient, j.clientRequest);
    MinorInjective(i.amount, j.amount);
  }

  /** A key is the prefix and eight hexadecimal digits. */
  lemma KeyShape(i: SaleIntent)
    ensures |DeriveKey(i)| == 13 && DeriveKey(i)[..5] == "idem_" && HexDigits(DeriveKey(i)[5..])
  {
    FingerprintIsEightDigits(CanonicalKeySource(i));
    assert DeriveKey(i)[5..] == Fingerprint(CanonicalKeySource(i));
  }

  // --- the promise of a key -----------------------------------------------------------------------------

  lemma {:induction false} FirstStays(calls: seq<Request>, more: seq<Request>, key: string)
    requires FirstWith(calls, key).Some?
    ensures FirstWith(calls + more, key) == FirstWith(calls, key)
    decreases |more|
  {
    if more == [] {
      assert calls + more == calls;
    } else {
      var front := more[..|more| - 1];
      assert (calls + more)[..|calls + more| - 1] == calls + front;
      FirstStays(calls, front, key);
    }
  }

  lemma FirstIsLast(earlier: seq<Request>, r: Request)
    requires FirstWith(earlier, DeriveKey(r.intent)).None?
    ensures FirstWith(earlier + [r], DeriveKey(r.intent)) == Some(r)
  {
    assert (earlier + [r])[..|earlier|] == earlier;
  }

  /**
   * A request made for the first time is new, and its record names its own shop, till, sale and time. Made again,
   * after whatever other calls and under whatever new sale id, it is answered with that first record.
   */
  lemma RepeatIsReplayed(earlier: seq<Request>, r: Request, between: seq<Request>, transaction: string, at: string)
    requires FirstWith(earlier, DeriveKey(r.intent)).None?
    ensures exists record ::
              && Verdict(earlier, r) == Success(New(record))
              && Verdict(earlier + [r] + between, Request(r.intent, transaction, at)) == Success(Replay(record))
              && record.key == DeriveKey(r.intent) && record.mark == PayloadFingerprint(r.intent)
              && record.merchant == r.intent.merchant && record.device == r.intent.device
              && record.transaction == r.transaction && record.createdAt == r.at
  {
    FirstIsLast(earlier, r);
    FirstStays(earlier + [r], between, DeriveKey(r.intent));
    var record := RecordOf(r);
    assert Verdict(earlier, r) == Success(New(record));
  }
}
