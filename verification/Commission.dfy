/** Splitting a provider's commission between a shop and the platform. */
module Commission {
  import opened Wrappers
  import opened Ledger
  import opened Operations
  import opened Effects
  import opened Runs

  const BPS_PER_WHOLE := 10_000

  datatype Split = Split(provider: int, shop: int, platform: int, providerBps: int, shopBps: int)

  datatype RateError = InvalidRate(bps: int)

  predicate IsBps(bps: int) {
    0 <= bps <= BPS_PER_WHOLE
  }

  /** Math.round of n / 10000 for non-negative n: the nearest whole number, halves up. */
  function RoundBps(n: nat): nat {
    (2 * n + BPS_PER_WHOLE) / (2 * BPS_PER_WHOLE)
  }

  /** The first rate out of bounds is the one reported; money never taken earns nothing. */
  function SplitCommission(amount: int, providerBps: int, shopBps: int): Result<Split, RateError> {
    if !IsBps(providerBps) then Failure(InvalidRate(providerBps))
    else if !IsBps(shopBps) then Failure(InvalidRate(shopBps))
    else if amount <= 0 then Success(Split(0, 0, 0, providerBps, shopBps))
    else
      var provider := RoundBps(amount * providerBps);
      var shop := RoundBps(provider * shopBps);
      Success(Split(provider, shop, provider - shop, providerBps, shopBps))
  }

  // --- rounding ----------------------------------------------------------------------------

  lemma RoundNearest(n: nat)
    ensures -BPS_PER_WHOLE <= 2 * (BPS_PER_WHOLE * RoundBps(n) - n) <= BPS_PER_WHOLE
    ensures forall r: nat :: -BPS_PER_WHOLE < 2 * (BPS_PER_WHOLE * r - n) <= BPS_PER_WHOLE ==> r == RoundBps(n)
  {
  }

  lemma RoundMonotone(m: nat, n: nat)
    requires m <= n
    ensures RoundBps(m) <= RoundBps(n)
  {
  }

  lemma RoundWhole(n: nat, k: nat)
    ensures RoundBps(n + BPS_PER_WHOLE * k) == RoundBps(n) + k
  {
  }

  lemma MulLe(a: int, b: int, c: nat)
    requires a <= b
    ensures a * c <= b * c
  {
  }

  lemma Distributes(a: int, b: int, c: int)
    ensures (a + b) * c == a * c + b * c
    ensures (a - b) * c == a * c - b * c
  {
  }

  lemma RoundedShare(x: nat, y: nat, n: nat, d: nat)
    requires x <= BPS_PER_WHOLE * n && x <= y <= x + BPS_PER_WHOLE * d
    ensures RoundBps(x) <= n
    ensures RoundBps(x) <= RoundBps(y) <= RoundBps(x) + d
  {
    RoundWhole(0, n);
    RoundMonotone(x, BPS_PER_WHOLE * n);
    RoundMonotone(x, y);
    RoundMonotone(y, x + BPS_PER_WHOLE * d);
    RoundWhole(x, d);
  }

  /** A share of n is at most n, and grows by no more than n does. */
  lemma ShareBounds(n: nat, n': nat, bps: nat)
    requires n <= n' && bps <= BPS_PER_WHOLE
    ensures 0 <= n * bps && 0 <= n' * bps
    ensures 0 <= RoundBps(n * bps) <= n
    ensures RoundBps(n * bps) <= RoundBps(n' * bps) <= RoundBps(n * bps) + (n' - n)
  {
    MulLe(0, bps, n);
    MulLe(bps, BPS_PER_WHOLE, n);
    MulLe(n, n', bps);
    MulLe(bps, BPS_PER_WHOLE, n' - n);
    Distributes(n', n, bps);
    RoundedShare(n * bps, n' * bps, n, n' - n);
  }

  // --- the split ----------------------------------------------------------------------------

  predicate Rates(providerBps: int, shopBps: int) {
    IsBps(providerBps) && IsBps(shopBps)
  }

  /** A rate out of bounds is named, the provider's before the shop's; any other sale is split. */
  lemma RatesAreChecked(amount: int, providerBps: int, shopBps: int)
    ensures var r := SplitCommission(amount, providerBps, shopBps);
            && (r.Success? <==> 0 <= providerBps <= 10_000 && 0 <= shopBps <= 10_000)
            && (r.Failure? ==> r.error == InvalidRate(if 0 <= providerBps <= 10_000 then shopBps else providerBps))
            && (r.Success? ==> r.value.providerBps == providerBps && r.value.shopBps == shopBps)
  {
  }

  /** Nothing is created or lost: the two shares are the commission, and neither leaves 0..amount. */
  lemma SplitConserves(amount: int, providerBps: int, shopBps: int)
    requires Rates(providerBps, shopBps)
    ensures var s := SplitCommission(amount, providerBps, shopBps).value;
            && s.shop + s.platform == s.provider
            && 0 <= s.shop && 0 <= s.platform && s.provider <= if amount > 0 then amount else 0
  {
    if amount > 0 {
      ShareBounds(amount, amount, providerBps);
      ShareBounds(RoundBps(amount * providerBps), RoundBps(amount * providerBps), shopBps);
    }
  }

  /** A larger sale never earns either party less. */
  lemma SplitMonotone(amount: int, amount': int, providerBps: int, shopBps: int)
    requires Rates(providerBps, shopBps) && amount <= amount'
    ensures var s, s' := SplitCommission(amount, providerBps, shopBps).value,
                         SplitCommission(amount', providerBps, shopBps).value;
            s.provider <= s'.provider && s.shop <= s'.shop && s.platform <= s'.platform
  {
    if amount > 0 {
      ShareBounds(amount, amount', providerBps);
      ShareBounds(RoundBps(amount * providerBps), RoundBps(amount' * providerBps), shopBps);
    } else {
      SplitConserves(amount', providerBps, shopBps);
    }
  }

  const SQUARE := BPS_PER_WHOLE * BPS_PER_WHOLE

  /** The exact shares of a sale, in hundred-millionths of a minor unit. */
  function ExactShop(amount: int, providerBps: int, shopBps: int): int {
    amount * providerBps * shopBps
  }

  function ExactPlatform(amount: int, providerBps: int, shopBps: int): int {
    amount * providerBps * (BPS_PER_WHOLE - shopBps)
  }

  lemma ScaledError(e: int, bps: nat)
    requires -BPS_PER_WHOLE <= e <= BPS_PER_WHOLE && bps <= BPS_PER_WHOLE
    ensures -SQUARE <= e * bps <= SQUARE
  {
    MulLe(e, BPS_PER_WHOLE, bps);
    MulLe(-BPS_PER_WHOLE, e, bps);
  }

  /** The two rounding errors, doubled and scaled: e of the commission, d of the shop's share of it. */
  lemma ErrorsAdd(a: int, p: int, k: int, s: int, e: int, d: int)
    requires e == 2 * (BPS_PER_WHOLE * p - a)
    requires d == 2 * (BPS_PER_WHOLE * s - p * k)
    ensures 2 * (SQUARE * s - a * k) == BPS_PER_WHOLE * d + e * k
    ensures 2 * (SQUARE * (p - s) - a * (BPS_PER_WHOLE - k)) == e * (BPS_PER_WHOLE - k) - BPS_PER_WHOLE * d
  {
    assert e * k == 2 * BPS_PER_WHOLE * (p * k) - 2 * (a * k);
    assert e * (BPS_PER_WHOLE - k) == BPS_PER_WHOLE * e - e * k;
    assert a * (BPS_PER_WHOLE - k) == BPS_PER_WHOLE * a - a * k;
  }

  /** Both roundings together move each share by at most one minor unit from the exact figure. */
  lemma SplitNearExact(amount: nat, providerBps: int, shopBps: int)
    requires Rates(providerBps, shopBps)
    ensures var s := SplitCommission(amount, providerBps, shopBps).value;
            && -SQUARE <= SQUARE * s.shop - ExactShop(amount, providerBps, shopBps) <= SQUARE
            && -SQUARE <= SQUARE * s.platform - ExactPlatform(amount, providerBps, shopBps) <= SQUARE
  {
    if amount > 0 {
      ShareBounds(amount, amount, providerBps);
      var a := amount * providerBps;
      var p := RoundBps(a);
      ShareBounds(p, p, shopBps);
      var shop := RoundBps(p * shopBps);
      RoundNearest(a);
      RoundNearest(p * shopBps);
      var e, d := 2 * (BPS_PER_WHOLE * p - a), 2 * (BPS_PER_WHOLE * shop - p * shopBps);
      ScaledError(e, shopBps);
      ScaledError(e, BPS_PER_WHOLE - shopBps);
      ErrorsAdd(a, p, shopBps, shop, e, d);
    }
  }

  function ShopTotal(amounts: seq<nat>, providerBps: int, shopBps: int): int
    requires Rates(providerBps, shopBps)
  {
    if amounts == [] then 0
    else ShopTotal(amounts[1..], providerBps, shopBps) + SplitCommission(amounts[0], providerBps, shopBps).value.shop
  }

  function AmountTotal(amounts: seq<nat>): nat {
    if amounts == [] then 0 else AmountTotal(amounts[1..]) + amounts[0]
  }

  /** Over n sales at one pair of rates, what the shop was paid is within n minor units of its exact share. */
  lemma {:induction false} SalesNearExact(amounts: seq<nat>, providerBps: int, shopBps: int)
    requires Rates(providerBps, shopBps)
    ensures var n := |amounts|;
            -n * SQUARE <= SQUARE * ShopTotal(amounts, providerBps, shopBps)
                           - ExactShop(AmountTotal(amounts), providerBps, shopBps) <= n * SQUARE
  {
    if amounts != [] {
      SalesNearExact(amounts[1..], providerBps, shopBps);
      SplitNearExact(amounts[0], providerBps, shopBps);
      var a, b := AmountTotal(amounts[1..]), amounts[0];
      Distributes(a, b, providerBps);
      Distributes(a * providerBps, b * providerBps, shopBps);
    }
  }

  // --- paying the share out of the sale --------------------------------------------------------

  lemma WholeRounding(x: nat, n: nat)
    requires x <= BPS_PER_WHOLE * n
    ensures RoundBps(x) == n <==> 2 * (BPS_PER_WHOLE * n - x) <= BPS_PER_WHOLE
  {
    RoundNearest(x);
  }

  /** A share of a sale can be all of it only when the rate leaves at most half a minor unit behind. */
  lemma WholeShare(n: nat, bps: nat)
    requires bps <= BPS_PER_WHOLE
    ensures n * bps >= 0
    ensures RoundBps(n * bps) == n <==> 2 * n * (BPS_PER_WHOLE - bps) <= BPS_PER_WHOLE
  {
    MulLe(0, bps, n);
    MulLe(bps, BPS_PER_WHOLE, n);
    WholeRounding(n * bps, n);
    assert n * (BPS_PER_WHOLE - bps) == n * BPS_PER_WHOLE - n * bps;
    assert 2 * n * (BPS_PER_WHOLE - bps) == 2 * (n * (BPS_PER_WHOLE - bps));
  }

  /** The rates at which a sale's whole face value rounds into the shop's share. */
  predicate SwallowsSale(amount: int, providerBps: int, shopBps: int) {
    && 2 * amount * (BPS_PER_WHOLE - providerBps) <= BPS_PER_WHOLE
    && 2 * amount * (BPS_PER_WHOLE - shopBps) <= BPS_PER_WHOLE
  }

  /**
   * Finalising a held sale with the shop's share as its profit: the clamp never bites, and the sale
   * settles unless the share is the whole sale, which leaves the provider a zero line the entries table
   * refuses.
   */
  lemma ShareSettlesExactly(s: Store, c: Context, providerBps: int, shopBps: int, bps: Option<nat>)
    requires Valid(s) && Rates(providerBps, shopBps) && c.amount > 0
    requires Guard(s, Release(c))
    ensures var share := SplitCommission(c.amount, providerBps, shopBps).value.shop;
            && Clamp(Some(share), c.amount) == share
            && (Commits(s, Finalize(c, Some(share), bps)) <==> !SwallowsSale(c.amount, providerBps, shopBps))
  {
    var provider := RoundBps(c.amount * providerBps);
    var share := RoundBps(provider * shopBps);
    ShareBounds(c.amount, c.amount, providerBps);
    ShareBounds(provider, provider, shopBps);
    CommitsExactly(s, Finalize(c, Some(share), bps));
    WholeShare(c.amount, providerBps);
    WholeShare(provider, shopBps);
    assert share == c.amount <==> SwallowsSale(c.amount, providerBps, shopBps);
  }

  /**
   * It happens: fund one minor unit, sell it, and finalise at a provider's 50% and the shop's 70%. Both roundings go
   * up, the shop's share is the whole sale, and the finalisation is refused.
   */
  lemma OneUnitSaleIsRefused(c: Context, p0: string, postingId: string, auditId: string, bps: Option<nat>)
    requires c.amount == 1 && c.postingId != p0
    requires postingId != p0 && postingId != c.postingId && auditId != c.auditId
    ensures var s := Next(Next(EMPTY, Fund(c.merchant, 1, p0)), Reserve(c, None));
            var settle := c.(postingId := postingId, auditId := auditId);
            var share := SplitCommission(1, 5_000, 7_000).value.shop;
            share == 1 && Guard(s, Release(settle)) && !Commits(s, Finalize(settle, Some(share), bps))
  {
    var s := Next(Next(EMPTY, Fund(c.merchant, 1, p0)), Reserve(c, None));
    var settle := c.(postingId := postingId, auditId := auditId);
    FirstReservation(c, 1, p0);
    HeldAlone(s, settle);
    WholeSaleShared();
    ShareSettlesExactly(s, settle, 5_000, 7_000, bps);
  }

  lemma WholeSaleShared()
    ensures SplitCommission(1, 5_000, 7_000).value.shop == 1 && SwallowsSale(1, 5_000, 7_000)
  {
  }

  lemma HeldAlone(s: Store, c: Context)
    requires |s.reservations| == 1 && s.reservations[0].status == Held
    requires s.reservations[0].transaction == c.transaction && s.reservations[0].merchant == c.merchant
    ensures HasRowIn(s, c, Held)
  {
  }

  /** At the configured 70% share only a sale of a single minor unit can be swallowed. */
  lemma DefaultShareAlmostAlwaysSettles(amount: int, providerBps: int)
    requires amount > 0 && IsBps(providerBps)
    ensures SwallowsSale(amount, providerBps, 7_000) <==> amount == 1 && providerBps >= 5_000
  {
  }
}
