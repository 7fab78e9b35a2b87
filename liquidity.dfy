/**
 * The ZIG amount addLiquidity pairs with a token amount so that the deposit keeps the
 * pool's current reserve ratio (oro1.js:180-185), in BigInt arithmetic.
 */
module Liquidity {
  import opened Wrappers
  import opened Pool
  import opened Decimal
  import Utility

  datatype LiquidityError =
    | MalformedPool      // TypeError: `assets` missing, an entry not found, or a CW20 entry reached
    | ZeroTokenReserve   // RangeError: BigInt division by a zero token reserve

  /** `(tokenMicro * zigAssetAmount) / tokenAssetAmount`: the truncated ratio. */
  function PairedAmount(tokenMicro: nat, zigReserve: nat, tokenReserve: nat): (r: nat)
    requires tokenReserve > 0
    ensures r * tokenReserve <= tokenMicro * zigReserve < (r + 1) * tokenReserve
  {
    var n := tokenMicro * zigReserve;
    var r := n / tokenReserve;
    assert n == r * tokenReserve + n % tokenReserve;
    assert (r + 1) * tokenReserve == r * tokenReserve + tokenReserve;
    r
  }

  /**
   * Lines 180-185: look up the ZIG and the token reserves (either lookup failing reads
   * `.amount` of `undefined` or throws inside `find`) and divide.
   */
  function ZigMicroNeeded(assets: Option<seq<Asset>>, tokenDenom: string, tokenMicro: nat)
    : (r: Result<nat, LiquidityError>)
    ensures r == Err(MalformedPool) <==>
      assets.None? || !Find(assets.value, Utility.ZigDenom).Hit? || !Find(assets.value, tokenDenom).Hit?
    ensures r == Err(ZeroTokenReserve) <==>
      && assets.Some? && Find(assets.value, Utility.ZigDenom).Hit? && Find(assets.value, tokenDenom).Hit?
      && assets.value[Find(assets.value, tokenDenom).index].amount == 0
    ensures r.Ok? ==>
      exists i: nat, j: nat ::
        && IsFirstMatch(assets.value, i, Utility.ZigDenom) && IsFirstMatch(assets.value, j, tokenDenom)
        && assets.value[j].amount > 0
        && r.value == PairedAmount(tokenMicro, assets.value[i].amount, assets.value[j].amount)
  {
    if assets.None? then Err(MalformedPool)
    else
      var zig := Find(assets.value, Utility.ZigDenom);
      if !zig.Hit? then Err(MalformedPool)
      else
        var token := Find(assets.value, tokenDenom);
        if !token.Hit? then Err(MalformedPool)
        else
          var tokenReserve := assets.value[token.index].amount;
          if tokenReserve == 0 then Err(ZeroTokenReserve)
          else Ok(PairedAmount(tokenMicro, assets.value[zig.index].amount, tokenReserve))
  }

  lemma MulStrictCancel(a: nat, b: nat, t: nat)
    requires a * t < b * t
    ensures a < b
  {
    if b <= a {
      MulMonotone(b, a, t);
    }
  }

  /** More token never needs less ZIG: the requirement is non-decreasing in the token amount. */
  lemma PairedAmountMonotone(t1: nat, t2: nat, zigReserve: nat, tokenReserve: nat)
    requires tokenReserve > 0 && t1 <= t2
    ensures PairedAmount(t1, zigReserve, tokenReserve) <= PairedAmount(t2, zigReserve, tokenReserve)
  {
    var r1, r2 := PairedAmount(t1, zigReserve, tokenReserve), PairedAmount(t2, zigReserve, tokenReserve);
    MulMonotone(t1, t2, zigReserve);
    assert r1 * tokenReserve < (r2 + 1) * tokenReserve;
    MulStrictCancel(r1, r2 + 1, tokenReserve);
  }

  /**
   * When the ZIG reserve is at least the token reserve, every extra micro-unit of token
   * needs strictly more ZIG.
   */
  lemma PairedAmountStrict(t1: nat, t2: nat, zigReserve: nat, tokenReserve: nat)
    requires tokenReserve > 0 && t1 < t2 && zigReserve >= tokenReserve
    ensures PairedAmount(t1, zigReserve, tokenReserve) < PairedAmount(t2, zigReserve, tokenReserve)
  {
    var r1, r2 := PairedAmount(t1, zigReserve, tokenReserve), PairedAmount(t2, zigReserve, tokenReserve);
    MulMonotone(t1 + 1, t2, zigReserve);
    assert (t1 + 1) * zigReserve == t1 * zigReserve + zigReserve;
    assert (r1 + 1) * tokenReserve == r1 * tokenReserve + tokenReserve;
    assert (r1 + 1) * tokenReserve < (r2 + 1) * tokenReserve;
    MulStrictCancel(r1 + 1, r2 + 1, tokenReserve);
  }

  /** With a ZIG reserve below the token reserve, one more micro-unit may need no more ZIG. */
  lemma PairedAmountNotStrict()
    ensures PairedAmount(1, 1, 2) == PairedAmount(0, 1, 2) == 0
  {
  }

  /** Reserves {ZIG: 1_000_000_000, ORO: 500_000_000}: 10 ORO (10_000_000 micro) needs 20 ZIG. */
  lemma ExampleLiquidity()
    ensures ZigMicroNeeded(
              Some([Asset(NativeToken(Utility.ZigDenom), 1_000_000_000),
                    Asset(NativeToken(Utility.OroDenom), 500_000_000)]),
              Utility.OroDenom, 10_000_000)
         == Ok(20_000_000)
  {
    var assets := [Asset(NativeToken(Utility.ZigDenom), 1_000_000_000),
                   Asset(NativeToken(Utility.OroDenom), 500_000_000)];
    assert IsFirstMatch(assets, 0, Utility.ZigDenom);
    assert IsFirstMatch(assets, 1, Utility.OroDenom);
    FirstMatchUnique(assets, 0, Find(assets, Utility.ZigDenom).index, Utility.ZigDenom);
    FirstMatchUnique(assets, 1, Find(assets, Utility.OroDenom).index, Utility.OroDenom);
  }
}
