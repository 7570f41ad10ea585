/**
 * The token bucket strategy. Each caller key owns a bucket of at most `limit`
 * tokens, stored as a value under `tb:key`; tokens flow back in at
 * `limit / window` per second, a check spends one, and a check that finds
 * less than one token is denied.
 */
module TokenBucket {
  import opened Wrappers
  import opened Numeric
  import opened MemoryBackend
  import opened StrategyBase

  const KeyPrefix: string := "tb"

  /** The stored bucket: its token count and the instant it was last
      refilled. */
  datatype BucketState = BucketState(tokens: real, lastRefill: real)

  function BucketKey(key: string): string {
    StorageKey(KeyPrefix, key)
  }

  /** Tokens regained per second. */
  function RefillRate(limit: int, window: int): real
    requires window > 0
  {
    limit as real / window as real
  }

  /** The tokens in the bucket at `now`: a missing bucket is full, a stored
      one has regained `elapsed * rate`, capped at `limit`. */
  function Available(state: Option<BucketState>, limit: int, window: int, now: real): real
    requires window > 0
  {
    match state
    case None => limit as real
    case Some(b) => MinReal(limit as real, b.tokens + (now - b.lastRefill) * RefillRate(limit, window))
  }

  /** The response to a check that finds `current` tokens. */
  function Decide(current: real, limit: int, window: int, now: real): RateLimitResponse
    requires limit > 0 && window > 0
  {
    if current >= 1.0 then
      Response(Allowed, limit, Trunc(current - 1.0), now + window as real)
    else
      var retryAfter := (1.0 - current) / RefillRate(limit, window);
      RateLimitResponse(Denied, limit, 0, now + retryAfter, Some(retryAfter))
  }

  /** The tokens a check on `key` at `now` finds in store `st`. */
  function Current<M>(st: Store<BucketState, M>, key: string, limit: int, window: int, now: real): real
    requires window > 0
  {
    Available(Lookup(st, BucketKey(key), now), limit, window, now)
  }

  /** The response of a check on `key` at `now`. */
  function Outcome<M>(st: Store<BucketState, M>, key: string, limit: int, window: int, now: real): RateLimitResponse
    requires limit > 0 && window > 0
  {
    Decide(Current(st, key, limit, window, now), limit, window, now)
  }

  /** The store after a check: the read expires a stale bucket, and an allowed
      check saves the spent bucket for twice the window. */
  function StepStore<M>(st: Store<BucketState, M>, key: string, limit: int, window: int, now: real): Store<BucketState, M>
    requires window > 0
  {
    var c := Cleanup(st, BucketKey(key), now);
    var current := Current(st, key, limit, window, now);
    if current >= 1.0 then Put(c, BucketKey(key), BucketState(current - 1.0, now), window * 2, now)
    else c
  }

  /** `n` checks on `key`, all at the same instant. */
  function Repeat<M>(st: Store<BucketState, M>, key: string, limit: int, window: int, now: real, n: nat): Store<BucketState, M>
    requires window > 0
  {
    if n == 0 then st else StepStore(Repeat(st, key, limit, window, now, n - 1), key, limit, window, now)
  }

  /** What a well-behaved stored bucket satisfies at time `now`: between zero
      and `limit` tokens, last refilled no later than `now`. */
  ghost predicate BucketOk<M>(st: Store<BucketState, M>, key: string, limit: int, now: real) {
    BucketKey(key) in st.data ==>
      var b := st.data[BucketKey(key)];
      0.0 <= b.tokens <= limit as real && b.lastRefill <= now
  }

  // ---------------------------------------------------------------------------
  // The strategy object
  // ---------------------------------------------------------------------------

  class TokenBucketStrategy<M(==)> {
    const backend: InMemoryBackend<BucketState, M>

    constructor (backend: InMemoryBackend<BucketState, M>)
      ensures this.backend == backend
    {
      this.backend := backend;
    }

    method Check(key: string, limit: int, window: int, now: real) returns (r: RateLimitResponse)
      requires backend.Valid() && limit > 0 && window > 0
      modifies backend
      ensures backend.Valid()
      ensures r == Outcome(old(backend.State()), key, limit, window, now)
      ensures backend.State() == StepStore(old(backend.State()), key, limit, window, now)
    {
      ghost var before := backend.State();
      var storageKey := BucketKey(key);
      var refillRate := limit as real / window as real;
      var state := GetState(storageKey, now);
      var currentTokens: real;
      if state.None? {
        currentTokens := limit as real;
      } else {
        var elapsed := now - state.value.lastRefill;
        var tokensToAdd := elapsed * refillRate;
        currentTokens := MinReal(limit as real, state.value.tokens + tokensToAdd);
      }
      assert currentTokens == Current(before, key, limit, window, now);
      if currentTokens >= 1.0 {
        var newTokens := currentTokens - 1.0;
        SaveState(storageKey, newTokens, now, window * 2, now);
        r := Response(Allowed, limit, Trunc(newTokens), now + window as real);
      } else {
        var tokensNeeded := 1.0 - currentTokens;
        var retryAfter := tokensNeeded / refillRate;
        r := RateLimitResponse(Denied, limit, 0, now + retryAfter, Some(retryAfter));
      }
    }

    method Reset(key: string)
      requires backend.Valid()
      modifies backend
      ensures backend.Valid()
      ensures backend.State() == Drop(old(backend.State()), BucketKey(key))
    {
      backend.Delete(BucketKey(key));
    }

    method GetState(storageKey: string, now: real) returns (state: Option<BucketState>)
      requires backend.Valid()
      modifies backend
      ensures backend.Valid()
      ensures state == Lookup(old(backend.State()), storageKey, now)
      ensures backend.State() == Cleanup(old(backend.State()), storageKey, now)
    {
      state := backend.Get(storageKey, now);
    }

    method SaveState(storageKey: string, tokens: real, lastRefill: real, ttl: int, now: real)
      requires backend.Valid()
      modifies backend
      ensures backend.Valid()
      ensures backend.State() == Put(old(backend.State()), storageKey, BucketState(tokens, lastRefill), ttl, now)
    {
      backend.Set(storageKey, BucketState(tokens, lastRefill), ttl, now);
    }
  }

  // ---------------------------------------------------------------------------
  // Properties of one check
  // ---------------------------------------------------------------------------

  /** A check is allowed exactly when at least one token is available; then
      the bucket is saved with one token fewer, stamped `now`, kept for twice
      the window, and the reply reports the whole tokens left and a reset one
      window ahead. A denied check leaves every key reading as before and
      reports no tokens left and the time one token takes to come back. */
  lemma CheckEffect<M>(st: Store<BucketState, M>, key: string, limit: int, window: int, now: real)
    requires limit > 0 && window > 0
    ensures var current := Current(st, key, limit, window, now);
            var r := Outcome(st, key, limit, window, now);
            var after := StepStore(st, key, limit, window, now);
            && r.limit == limit
            && (r.IsAllowed() <==> current >= 1.0)
            && (r.IsAllowed() ==>
                  && r.remaining == Trunc(current - 1.0)
                  && r.resetAt == now + window as real
                  && r.retryAfter == None
                  && Lookup(after, BucketKey(key), now) == Some(BucketState(current - 1.0, now))
                  && after.expiry[BucketKey(key)] == now + (2 * window) as real)
            && (!r.IsAllowed() ==>
                  && r.remaining == 0
                  && r.retryAfter == Some((1.0 - current) / RefillRate(limit, window))
                  && r.resetAt == now + r.retryAfter.value
                  && forall k :: Lookup(after, k, now) == Lookup(st, k, now))
  {
  }

  /** A key with no stored bucket starts full: the check is allowed and
      reports `limit - 1` tokens left. */
  lemma FreshKeyIsFull<M>(st: Store<BucketState, M>, key: string, limit: int, window: int, now: real)
    requires limit > 0 && window > 0
    requires Lookup(st, BucketKey(key), now) == None
    ensures Outcome(st, key, limit, window, now).IsAllowed()
    ensures Outcome(st, key, limit, window, now).remaining == limit - 1
    ensures Lookup(StepStore(st, key, limit, window, now), BucketKey(key), now)
            == Some(BucketState((limit - 1) as real, now))
  {
    assert (limit as real - 1.0) == (limit - 1) as real;
  }

  /** The refill never overfills the bucket, so an allowed check never reports
      more than `limit - 1` tokens left; from a well-behaved bucket and a clock
      that has not gone back, the count never goes negative. */
  lemma RefillIsCapped<M>(st: Store<BucketState, M>, key: string, limit: int, window: int, now: real)
    requires limit > 0 && window > 0
    ensures Current(st, key, limit, window, now) <= limit as real
    ensures Outcome(st, key, limit, window, now).IsAllowed() ==>
              Outcome(st, key, limit, window, now).remaining <= limit - 1
    ensures BucketOk(st, key, limit, now) ==> Current(st, key, limit, window, now) >= 0.0
  {
    AvailableBounds(Lookup(st, BucketKey(key), now), limit, window, now);
    var current := Current(st, key, limit, window, now);
    if current >= 1.0 {
      assert Trunc(current - 1.0) as real <= current - 1.0;
    }
  }

  lemma AvailableBounds(state: Option<BucketState>, limit: int, window: int, now: real)
    requires limit > 0 && window > 0
    ensures Available(state, limit, window, now) <= limit as real
    ensures state.Some? && 0.0 <= state.value.tokens && state.value.lastRefill <= now ==>
              Available(state, limit, window, now) >= 0.0
  {
    if state.Some? && 0.0 <= state.value.tokens && state.value.lastRefill <= now {
      var rate := RefillRate(limit, window);
      assert rate > 0.0;
      var gained := (now - state.value.lastRefill) * rate;
      ProductNonNegative(now - state.value.lastRefill, rate);
      assert Available(state, limit, window, now) == MinReal(limit as real, state.value.tokens + gained);
    }
  }

  lemma ProductNonNegative(a: real, b: real)
    requires a >= 0.0 && b >= 0.0
    ensures a * b >= 0.0
  {
  }

  /** A bucket stamped `now` holds, at `now`, exactly its stored tokens. */
  lemma NoRefillAtSameInstant(tokens: real, limit: int, window: int, now: real)
    requires window > 0 && tokens <= limit as real
    ensures Available(Some(BucketState(tokens, now)), limit, window, now) == tokens
  {
  }

  /** After an allowed check the spent bucket reads back at `now`. */
  lemma AllowedCheckSaves<M>(st: Store<BucketState, M>, key: string, limit: int, window: int, now: real)
    requires limit > 0 && window > 0 && Current(st, key, limit, window, now) >= 1.0
    ensures var after := StepStore(st, key, limit, window, now);
            && Lookup(after, BucketKey(key), now) == Some(BucketState(Current(st, key, limit, window, now) - 1.0, now))
            && BucketKey(key) in after.expiry
            && after.expiry[BucketKey(key)] == now + (2 * window) as real
  {
  }

  /** A well-behaved bucket stays well behaved as the clock moves forward. */
  lemma BucketOkLater<M>(st: Store<BucketState, M>, key: string, limit: int, now: real, later: real)
    requires BucketOk(st, key, limit, now) && now <= later
    ensures BucketOk(st, key, limit, later)
  {
  }

  /** A check keeps the bucket well behaved. */
  lemma CheckKeepsBucketOk<M>(st: Store<BucketState, M>, key: string, limit: int, window: int, now: real)
    requires limit > 0 && window > 0
    requires BucketOk(st, key, limit, now)
    ensures BucketOk(StepStore(st, key, limit, window, now), key, limit, now)
  {
    RefillIsCapped(st, key, limit, window, now);
  }

  /** On a well-behaved bucket a denial asks the caller to wait more than
      nothing and at most one window. */
  lemma DenialRetryBounds<M>(st: Store<BucketState, M>, key: string, limit: int, window: int, now: real)
    requires limit > 0 && window > 0
    requires BucketOk(st, key, limit, now)
    requires !Outcome(st, key, limit, window, now).IsAllowed()
    ensures var retry := Outcome(st, key, limit, window, now).retryAfter;
            retry.Some? && 0.0 < retry.value <= window as real
  {
    RefillIsCapped(st, key, limit, window, now);
    var current := Current(st, key, limit, window, now);
    var needed := 1.0 - current;
    assert 0.0 < needed <= 1.0;
    var rate := RefillRate(limit, window);
    assert needed / rate == needed * window as real / limit as real;
    assert needed * window as real <= window as real;
    assert window as real / limit as real <= window as real;
  }

  /** Checks at one instant on a fresh key: the first `limit` are allowed with
      `limit - 1`, `limit - 2`, ..., 0 tokens left, and the next is denied. */
  lemma {:induction false} BurstAtOneInstant<M>(st: Store<BucketState, M>, key: string, limit: int, window: int, now: real, n: nat)
    requires limit > 0 && window > 0 && n <= limit
    requires Lookup(st, BucketKey(key), now) == None
    ensures Current(Repeat(st, key, limit, window, now, n), key, limit, window, now) == (limit - n) as real
    ensures n > 0 ==>
              var after := Repeat(st, key, limit, window, now, n);
              && Lookup(after, BucketKey(key), now) == Some(BucketState((limit - n) as real, now))
              && BucketKey(key) in after.expiry
              && after.expiry[BucketKey(key)] == now + (2 * window) as real
    ensures var r := Outcome(Repeat(st, key, limit, window, now, n), key, limit, window, now);
            if n < limit then r.IsAllowed() && r.remaining == limit - n - 1
            else !r.IsAllowed() && r.remaining == 0
  {
    var after := Repeat(st, key, limit, window, now, n);
    if n > 0 {
      var prev := Repeat(st, key, limit, window, now, n - 1);
      BurstAtOneInstant(st, key, limit, window, now, n - 1);
      assert after == StepStore(prev, key, limit, window, now);
      AllowedCheckSaves(prev, key, limit, window, now);
      assert (limit - (n - 1)) as real - 1.0 == (limit - n) as real;
      NoRefillAtSameInstant((limit - n) as real, limit, window, now);
    }
    assert (limit - n) as real - 1.0 == (limit - n - 1) as real;
  }

  /** With two tokens per two-second window, two checks at time 0 empty the
      bucket, a third is denied, and a check 1.1 seconds later is allowed
      again. */
  lemma RefillAfterWaiting<M>(st: Store<BucketState, M>, key: string)
    requires Lookup(st, BucketKey(key), 0.0) == None
    ensures !Outcome(Repeat(st, key, 2, 2, 0.0, 2), key, 2, 2, 0.0).IsAllowed()
    ensures Outcome(Repeat(st, key, 2, 2, 0.0, 3), key, 2, 2, 1.1).IsAllowed()
  {
    BurstAtOneInstant(st, key, 2, 2, 0.0, 2);
    var spent := Repeat(st, key, 2, 2, 0.0, 2);
    var third := Repeat(st, key, 2, 2, 0.0, 3);
    assert third == StepStore(spent, key, 2, 2, 0.0);
    assert third == spent;
    assert Lookup(third, BucketKey(key), 1.1) == Some(BucketState(0.0, 0.0));
    assert Current(third, key, 2, 2, 1.1) == 1.1;
  }

  /** After a reset the key's bucket is gone, so the next check finds it full;
      every other key reads as before. */
  lemma ResetRestoresFullBucket<M>(st: Store<BucketState, M>, key: string, other: string, limit: int, window: int, now: real)
    requires limit > 0 && window > 0 && other != BucketKey(key)
    ensures Outcome(Drop(st, BucketKey(key)), key, limit, window, now).IsAllowed()
    ensures Outcome(Drop(st, BucketKey(key)), key, limit, window, now).remaining == limit - 1
    ensures Lookup(Drop(st, BucketKey(key)), other, now) == Lookup(st, other, now)
  {
    FreshKeyIsFull(Drop(st, BucketKey(key)), key, limit, window, now);
  }
}
