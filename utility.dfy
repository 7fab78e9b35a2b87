/**
 * Chain constants and the small display helpers of oro1.js: getSymbolFromDenom and
 * getShortAddress.
 */
module Utility {
  import opened Wrappers

  /** chainInfo.denoms */
  const ZigDenom: string := "uzig"
  const OroDenom: string := "coin.zig10rfjm85jmzfhravjwpq3hcdz8ngxg7lxd0drkr.uoro"
  const BeeDenom: string := "coin.zig1ptxpjgl3lsxrq99zl6ad2nmrx4lhnhne26m6ys.bee"

  predicate IsKnownDenom(denom: string) {
    denom == ZigDenom || denom == OroDenom || denom == BeeDenom
  }

  /** getSymbolFromDenom: the ticker of one of the three known denominations, else "UNKNOWN". */
  function SymbolFromDenom(denom: string): (symbol: string)
    ensures symbol == "ZIG" <==> denom == ZigDenom
    ensures symbol == "ORO" <==> denom == OroDenom
    ensures symbol == "BEE" <==> denom == BeeDenom
    ensures symbol == "UNKNOWN" <==> !IsKnownDenom(denom)
  {
    if denom == ZigDenom then "ZIG"
    else if denom == OroDenom then "ORO"
    else if denom == BeeDenom then "BEE"
    else "UNKNOWN"
  }

  /** The chainInfo.denoms entry for a ticker. */
  function DenomOf(symbol: string): Option<string> {
    match symbol
    case "ZIG" => Some(ZigDenom)
    case "ORO" => Some(OroDenom)
    case "BEE" => Some(BeeDenom)
    case _ => None
  }

  /** The ticker lookup inverts the denomination table, in both directions. */
  lemma SymbolRoundTrip(denom: string, symbol: string)
    ensures IsKnownDenom(denom) ==> DenomOf(SymbolFromDenom(denom)) == Some(denom)
    ensures DenomOf(symbol).Some? ==> SymbolFromDenom(DenomOf(symbol).value) == symbol
  {
  }

  /** address.slice(0, n) for n >= 0: the first n characters, or all of a shorter string */
  function SliceHead(s: string, n: nat): (r: string)
    ensures |r| == if |s| < n then |s| else n
    ensures r == s[..|r|]
  {
    if |s| < n then s else s[..n]
  }

  /** address.slice(-n) for n > 0: the last n characters, or all of a shorter string */
  function SliceTail(s: string, n: nat): (r: string)
    ensures |r| == if |s| < n then |s| else n
    ensures r == s[|s| - |r|..]
  {
    if |s| < n then s else s[|s| - n..]
  }

  /**
   * getShortAddress: "N/A" for a missing or empty address, otherwise the first six
   * characters, "..." and the last four, where a short address gives all it has to each.
   */
  function ShortAddress(address: Option<string>): (r: string)
    ensures r == "N/A" <==> address.None? || address.value == []
    ensures address.Some? && |address.value| >= 6 ==>
      r == address.value[..6] + "..." + address.value[|address.value| - 4..]
    ensures address.Some? && 0 < |address.value| < 6 ==>
      r == address.value + "..." + address.value[(if |address.value| < 4 then 0 else |address.value| - 4)..]
    ensures address.Some? && |address.value| >= 10 ==> |r| == 13
  {
    if address.None? || address.value == [] then "N/A"
    else
      var a := address.value;
      var r := SliceHead(a, 6) + "..." + SliceTail(a, 4);
      assert |r| >= 5;
      r
  }

  /** Every character of a non-empty address shows up in the short form when it has at most four. */
  lemma ShortAddressOfShort(address: string)
    requires 0 < |address| <= 4
    ensures ShortAddress(Some(address)) == address + "..." + address
  {
  }
}
