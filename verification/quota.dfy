/**
 * Quota resolution: an API key is mapped to a user tier by its prefix, and
 * each tier to a fixed request limit over a fixed window.
 */
module Quota {
  import opened Wrappers

  datatype UserTier = Free | Premium | Vip

  /** The string value of each tier. */
  function TierName(t: UserTier): (s: string)
    ensures s != []
  {
    match t
    case Free => "free"
    case Premium => "premium"
    case Vip => "vip"
  }

  /** Tiers are identified by their string values. */
  lemma TierNamesDistinct(t1: UserTier, t2: UserTier)
    requires TierName(t1) == TierName(t2)
    ensures t1 == t2
  {
    assert TierName(t1)[0] == TierName(t2)[0];
  }

  /** At most `limit` requests per `window` seconds. */
  datatype Quota = Quota(limit: int, window: int)

  /** The tier table: every tier has a positive limit over a one-minute
      window. */
  function TierConfig(t: UserTier): (q: Quota)
    ensures q.limit > 0 && q.window == 60
  {
    match t
    case Free => Quota(5, 60)
    case Premium => Quota(50, 60)
    case Vip => Quota(500, 60)
  }

  /** Position of a tier in the order FREE, PREMIUM, VIP. */
  function Rank(t: UserTier): nat {
    match t
    case Free => 0
    case Premium => 1
    case Vip => 2
  }

  /** A higher tier gets a strictly larger limit over the same window. */
  lemma HigherTierMoreRequests(t1: UserTier, t2: UserTier)
    requires Rank(t1) < Rank(t2)
    ensures TierConfig(t1).window == TierConfig(t2).window
    ensures TierConfig(t1).limit < TierConfig(t2).limit
  {
  }

  const VipPrefix := "vip_"
  const PremiumPrefix := "prem_"

  /** The tier of an API key: a missing or empty key is FREE, a key starting
      with "vip_" is VIP, one starting with "prem_" is PREMIUM, and any other
      key is FREE. */
  function ResolveTier(apiKey: Option<string>): (t: UserTier)
    ensures t == Vip <==> apiKey.Some? && VipPrefix <= apiKey.value
    ensures t == Premium <==> apiKey.Some? && PremiumPrefix <= apiKey.value
    ensures t == Free <==> apiKey.None? || !(VipPrefix <= apiKey.value || PremiumPrefix <= apiKey.value)
  {
    if apiKey.None? || apiKey.value == [] then Free
    else if VipPrefix <= apiKey.value then PrefixesExclusive(apiKey.value); Vip
    else if PremiumPrefix <= apiKey.value then Premium
    else Free
  }

  /** No key starts with both prefixes, so the order of the two tests does
      not matter. */
  lemma PrefixesExclusive(key: string)
    ensures !(VipPrefix <= key && PremiumPrefix <= key)
  {
    assert VipPrefix[0] != PremiumPrefix[0];
  }

  /** The quota for an API key: the table entry of its tier. Every key gets a
      positive limit and a positive window, one of the three table entries. */
  function GetQuota(apiKey: Option<string>): (q: Quota)
    ensures q.limit > 0 && q.window > 0
    ensures q == TierConfig(Free) || q == TierConfig(Premium) || q == TierConfig(Vip)
  {
    TierConfig(ResolveTier(apiKey))
  }

  /** The empty key is treated like a missing one. */
  lemma EmptyKeyIsFree()
    ensures GetQuota(Some("")) == GetQuota(None) == Quota(5, 60)
  {
  }

  /** Keys of the paid tiers get more than an anonymous caller. */
  lemma PrefixedKeysGetMore(key: string)
    requires VipPrefix <= key || PremiumPrefix <= key
    ensures GetQuota(Some(key)).window == GetQuota(None).window
    ensures GetQuota(Some(key)).limit > GetQuota(None).limit
  {
    HigherTierMoreRequests(Free, ResolveTier(Some(key)));
  }
}
