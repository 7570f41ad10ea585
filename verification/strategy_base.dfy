/**
 * What every rate-limiting strategy produces: a two-valued decision and an
 * immutable response record carrying the header values, plus the way a
 * strategy turns a caller's key into a storage key.
 */
module StrategyBase {
  import opened Wrappers

  datatype RateLimitResult = Allowed | Denied

  /** The reply to one check. `retryAfter` is absent unless a strategy
      sets it. */
  datatype RateLimitResponse = RateLimitResponse(
    result: RateLimitResult,
    limit: int,
    remaining: int,
    resetAt: real,
    retryAfter: Option<real>)
  {
    predicate IsAllowed() {
      result == Allowed
    }
  }

  /** A response with no retry-after value, as the record's default gives. */
  function Response(result: RateLimitResult, limit: int, remaining: int, resetAt: real): (r: RateLimitResponse)
    ensures r.retryAfter == None
    ensures r.IsAllowed() <==> result == Allowed
  {
    RateLimitResponse(result, limit, remaining, resetAt, None)
  }

  /** The decision has exactly two values, and `IsAllowed` holds of exactly
      one of them. */
  lemma ResultIsTwoValued(r: RateLimitResponse)
    ensures r.result == Allowed || r.result == Denied
    ensures r.IsAllowed() <==> r.result != Denied
  {
  }

  /** The storage key `prefix:key` a strategy keeps its state under. */
  function StorageKey(prefix: string, key: string): string {
    prefix + ":" + key
  }

  /** Under one prefix, distinct caller keys get distinct storage keys. */
  lemma StorageKeyInjective(prefix: string, k1: string, k2: string)
    requires StorageKey(prefix, k1) == StorageKey(prefix, k2)
    ensures k1 == k2
  {
    var n := |prefix| + 1;
    assert k1 == StorageKey(prefix, k1)[n..];
    assert k2 == StorageKey(prefix, k2)[n..];
  }

  /** Two prefixes of the same length that differ give disjoint key spaces. */
  lemma StorageKeysDisjoint(p1: string, p2: string, k1: string, k2: string)
    requires |p1| == |p2| && p1 != p2
    ensures StorageKey(p1, k1) != StorageKey(p2, k2)
  {
    assert StorageKey(p1, k1)[..|p1|] == p1;
    assert StorageKey(p2, k2)[..|p2|] == p2;
  }
}
