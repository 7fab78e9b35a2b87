/**
 * The belief price a swap message carries: the ratio of the two pool reserves in
 * fixed point with 18 fractional digits, computed with integers only
 * (calculateBeliefPrice in oro1.js).
 */
module Pricing {
  import opened Decimal
  import opened Pool
  import opened Wrappers

  /** The three errors calculateBeliefPrice throws, plus the TypeError of reading a CW20 entry. */
  datatype PriceError =
    | InvalidPoolData   // `assets` missing or not exactly two entries
    | AssetNotFound     // one of the two denominations is not in the pool
    | NotNativeAsset    // `find` reached an entry without `native_token` and threw
    | ZeroToReserve     // the "to" reserve is zero

  /** Number of fractional digits of a belief price. */
  const PrecisionDigits: nat := 18

  /** `10n ** 18n` */
  const Precision: nat := 1_000_000_000_000_000_000

  lemma PrecisionIsPow10()
    ensures Precision == Pow10(PrecisionDigits)
  {
    Pow10Add(9, 9);
    assert Pow10(9) == 1_000_000_000;
  }

  /** The two reserve amounts, after the checks calculateBeliefPrice makes before dividing. */
  function LookupReserves(assets: Option<seq<Asset>>, fromDenom: string, toDenom: string)
    : (r: Result<(nat, nat), PriceError>)
    ensures r == Err(InvalidPoolData) <==> assets.None? || |assets.value| != 2
    ensures r == Err(NotNativeAsset) <==>
      && assets.Some? && |assets.value| == 2
      && (Find(assets.value, fromDenom).Throws? || Find(assets.value, toDenom).Throws?)
    ensures r == Err(AssetNotFound) <==>
      && assets.Some? && |assets.value| == 2
      && !Find(assets.value, fromDenom).Throws? && !Find(assets.value, toDenom).Throws?
      && (Find(assets.value, fromDenom).Miss? || Find(assets.value, toDenom).Miss?)
    ensures r.Ok? ==>
      && assets.Some? && |assets.value| == 2
      && exists i: nat, j: nat :: IsFirstMatch(assets.value, i, fromDenom) && IsFirstMatch(assets.value, j, toDenom)
                        && r.value == (assets.value[i].amount, assets.value[j].amount)
  {
    if assets.None? || |assets.value| != 2 then Err(InvalidPoolData)
    else
      var from := Find(assets.value, fromDenom);
      var to := Find(assets.value, toDenom);
      if from.Throws? || to.Throws? then Err(NotNativeAsset)
      else if from.Miss? || to.Miss? then Err(AssetNotFound)
      else Ok((assets.value[from.index].amount, assets.value[to.index].amount))
  }

  /** Lines 149-154: the quotient's digits with a point inserted 18 places from the right. */
  function FormatPrice(q: nat): (r: string)
    ensures IsFixedPoint(r, PrecisionDigits)
    ensures ParseFixedPoint(r, PrecisionDigits) == Some(q)
  {
    FormatFixedRoundTrip(q, PrecisionDigits);
    FormatFixed(q, PrecisionDigits)
  }

  /**
   * `(amountFrom * 10n ** 18n) / amountTo`: BigInt division truncates, so
   * q * amountTo <= amountFrom * 10^18 < (q + 1) * amountTo.
   */
  function BeliefPriceQuotient(amountFrom: nat, amountTo: nat): (q: nat)
    requires amountTo > 0
    ensures q * amountTo <= amountFrom * Precision < (q + 1) * amountTo
  {
    var n := amountFrom * Precision;
    var q := n / amountTo;
    assert n == q * amountTo + n % amountTo;
    assert (q + 1) * amountTo == q * amountTo + amountTo;
    q
  }

  /** calculateBeliefPrice(poolInfo, fromDenom, toDenom), oro1.js:126-155. */
  function CalculateBeliefPrice(assets: Option<seq<Asset>>, fromDenom: string, toDenom: string)
    : (r: Result<string, PriceError>)
    ensures LookupReserves(assets, fromDenom, toDenom).Err? ==>
      r == Err(LookupReserves(assets, fromDenom, toDenom).error)
    ensures r == Err(ZeroToReserve) <==>
      LookupReserves(assets, fromDenom, toDenom).Ok? && LookupReserves(assets, fromDenom, toDenom).value.1 == 0
    ensures r.Ok? ==> IsFixedPoint(r.value, PrecisionDigits)
    ensures r.Ok? ==>
      exists i: nat, j: nat :: IsFirstMatch(assets.value, i, fromDenom) && IsFirstMatch(assets.value, j, toDenom)
        && assets.value[j].amount > 0
        && ParseFixedPoint(r.value, PrecisionDigits) == Some(BeliefPriceQuotient(assets.value[i].amount, assets.value[j].amount))
  {
    match LookupReserves(assets, fromDenom, toDenom)
    case Err(e) => Err(e)
    case Ok((amountFrom, amountTo)) =>
      if amountTo == 0 then Err(ZeroToReserve)
      else
        var q := BeliefPriceQuotient(amountFrom, amountTo);
        FormatPriceRoundTrip(q);
        Ok(FormatPrice(q))
  }

  /**
   * Round trip of the price text: one point and 18 fractional digits; reading it back gives
   * q; the integer part is the text of q / 10^18 and the fraction is q mod 10^18 left-padded
   * with zeros; the integer part is "0" exactly when q < 10^18.
   */
  lemma FormatPriceRoundTrip(q: nat)
    ensures IsFixedPoint(FormatPrice(q), PrecisionDigits)
    ensures ParseFixedPoint(FormatPrice(q), PrecisionDigits) == Some(q)
    ensures IntegerPart(FormatPrice(q), PrecisionDigits) == NatToString(q / Precision)
    ensures FractionPart(FormatPrice(q), PrecisionDigits) == PadStartZeros(NatToString(q % Precision), PrecisionDigits)
    ensures IntegerPart(FormatPrice(q), PrecisionDigits) == "0" <==> q < Precision
  {
    PrecisionIsPow10();
    FormatFixedRoundTrip(q, PrecisionDigits);
  }

  /** Both denominations present as the first matching native entries and a positive "to" reserve: a price. */
  lemma BeliefPriceSucceeds(assets: seq<Asset>, fromDenom: string, toDenom: string, i: nat, j: nat)
    requires |assets| == 2
    requires IsFirstMatch(assets, i, fromDenom) && IsFirstMatch(assets, j, toDenom)
    requires assets[j].amount > 0
    ensures CalculateBeliefPrice(Some(assets), fromDenom, toDenom)
         == Ok(FormatPrice(BeliefPriceQuotient(assets[i].amount, assets[j].amount)))
  {
    FirstMatchUnique(assets, i, Find(assets, fromDenom).index, fromDenom);
    FirstMatchUnique(assets, j, Find(assets, toDenom).index, toDenom);
  }

  /** Reserves {ZIG: 1_000_000_000, ORO: 500_000_000}: the ZIG-to-ORO price is exactly 2. */
  lemma ExamplePrice(zig: string, oro: string)
    requires zig != oro
    ensures CalculateBeliefPrice(
              Some([Asset(NativeToken(zig), 1_000_000_000), Asset(NativeToken(oro), 500_000_000)]), zig, oro)
         == Ok("2.000000000000000000")
  {
    var assets := [Asset(NativeToken(zig), 1_000_000_000), Asset(NativeToken(oro), 500_000_000)];
    assert IsFirstMatch(assets, 0, zig) && IsFirstMatch(assets, 1, oro);
    BeliefPriceSucceeds(assets, zig, oro, 0, 1);
    PriceOfTwo(BeliefPriceQuotient(1_000_000_000, 500_000_000));
  }

  /** 2 * 10^18 is written "2.000000000000000000". */
  lemma PriceOfTwo(q: nat)
    requires q == 2 * Precision
    ensures FormatPrice(q) == "2.000000000000000000"
  {
    PrecisionIsPow10();
    FormatFixedParts(q, PrecisionDigits);
    DivModUnique(q, Pow10(PrecisionDigits), 2, 0);
    assert High(q, PrecisionDigits) == 2;
    LowDigitsOfMod(q, PrecisionDigits);
    LowDigitsOfZero(PrecisionDigits);
    assert LowDigits(q, PrecisionDigits) == Zeros(18);
    TextOfTwoAndZeros();
    assert FormatPrice(q) == "2" + "." + "000000000000000000";
  }

  lemma TextOfTwoAndZeros()
    ensures NatToString(2) == "2"
    ensures Zeros(18) == "000000000000000000"
  {
    assert DigitChar(2) == '2';
  }
}
