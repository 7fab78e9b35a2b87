/**
 * The pool query answer of an Oroswap pair contract: a list of assets, each with its
 * asset info and its reserve amount, and the lookup the bot performs on it with
 * `assets.find(a => a.info.native_token.denom === denom)`.
 */
module Pool {
  import opened Wrappers


  /**
   * A pool asset is either a native bank denomination or a CW20 token contract. The bot
   * only reads `info.native_token.denom`; on a CW20 entry `native_token` is undefined and
   * reading `.denom` from it throws.
   */
  datatype AssetInfo = NativeToken(denom: string) | Token(contractAddr: string)

  /** One entry of `assets`; the reserve is the Uint128 `amount`, read with BigInt. */
  datatype Asset = Asset(info: AssetInfo, amount: nat)

  /** What `find` with that predicate yields: an entry, `undefined`, or a thrown TypeError. */
  datatype Lookup = Hit(index: nat) | Miss | Throws

  /** Entry i is a native entry for `denom` and no entry before it is. */
  predicate IsFirstMatch(assets: seq<Asset>, i: nat, denom: string) {
    && i < |assets|
    && assets[i].info == NativeToken(denom)
    && forall j :: 0 <= j < i ==> assets[j].info.NativeToken? && assets[j].info.denom != denom
  }

  /**
   * Array.prototype.find: the predicate is applied to the entries in order and the first
   * entry it accepts is returned; the first CW20 entry reached makes the predicate throw.
   */
  function Find(assets: seq<Asset>, denom: string): (r: Lookup)
    ensures r.Hit? <==> exists i :: IsFirstMatch(assets, i, denom)
    ensures r.Hit? ==> IsFirstMatch(assets, r.index, denom)
    ensures r.Miss? <==>
      forall j :: 0 <= j < |assets| ==> assets[j].info.NativeToken? && assets[j].info.denom != denom
    ensures r.Throws? <==>
      exists i :: 0 <= i < |assets| && assets[i].info.Token? &&
        forall j :: 0 <= j < i ==> assets[j].info.NativeToken? && assets[j].info.denom != denom
  {
    FindFrom(assets, denom, 0)
  }

  function FindFrom(assets: seq<Asset>, denom: string, from: nat): (r: Lookup)
    requires from <= |assets|
    requires forall j :: 0 <= j < from ==> assets[j].info.NativeToken? && assets[j].info.denom != denom
    ensures r.Hit? <==> exists i :: IsFirstMatch(assets, i, denom)
    ensures r.Hit? ==> IsFirstMatch(assets, r.index, denom)
    ensures r.Miss? <==>
      forall j :: 0 <= j < |assets| ==> assets[j].info.NativeToken? && assets[j].info.denom != denom
    ensures r.Throws? <==>
      exists i :: 0 <= i < |assets| && assets[i].info.Token? &&
        forall j :: 0 <= j < i ==> assets[j].info.NativeToken? && assets[j].info.denom != denom
    decreases |assets| - from
  {
    if from == |assets| then Miss
    else match assets[from].info
      case Token(_) => Throws
      case NativeToken(d) => if d == denom then assert IsFirstMatch(assets, from, denom); Hit(from) else FindFrom(assets, denom, from + 1)
  }

  /** At most one entry is the first match for a denomination. */
  lemma FirstMatchUnique(assets: seq<Asset>, i: nat, k: nat, denom: string)
    requires IsFirstMatch(assets, i, denom) && IsFirstMatch(assets, k, denom)
    ensures i == k
  {
  }
}
