/**
 * The sliding window log strategy. Each caller key owns a sorted set under
 * `sw:key` holding one entry per allowed request, scored by its timestamp. A
 * check first drops the entries scored in [0, now - window], counts the rest,
 * and is allowed when fewer than `limit` remain; an allowed check records
 * `now` and pushes the key's expiry one window ahead.
 *
 * The member recorded for a request is its timestamp, so the sorted set here
 * has `real` members. The step is also defined for any member type
 * (`StepWith`), which is what the no-burst theorem is proved about.
 */
module SlidingWindow {
  import opened Wrappers
  import opened Numeric
  import opened SortedSet
  import opened MemoryBackend
  import opened StrategyBase
  import TokenBucket

  const KeyPrefix: string := "sw"

  function LogKey(key: string): string {
    StorageKey(KeyPrefix, key)
  }

  /** The store after the prune that opens every check. */
  function Pruned<V, M>(st: Store<V, M>, sk: string, window: int, now: real): Store<V, M> {
    ZRemStore(st, sk, 0.0, now - window as real, now)
  }

  /** The number of logged requests the check counts. */
  function Count<V, M>(st: Store<V, M>, sk: string, window: int, now: real): nat {
    ZCardCount(Pruned(st, sk, window, now), sk, now)
  }

  predicate Allows<V, M>(st: Store<V, M>, sk: string, limit: int, window: int, now: real) {
    Count(st, sk, window, now) < limit
  }

  /** The store after a check at `now` that records the request under
      `member`: prune, count, then either add the entry and set the expiry, or
      only read the oldest entry. */
  function StepWith<V, M(==)>(st: Store<V, M>, sk: string, limit: int, window: int, now: real, member: M): Store<V, M> {
    var c := Cleanup(Pruned(st, sk, window, now), sk, now);
    if Allows(st, sk, limit, window, now) then ExpireStore(ZAddStore(c, sk, now, member, now), sk, window, now)
    else Cleanup(c, sk, now)
  }

  /** A check as the strategy makes it: the member is the timestamp itself. */
  function Step<V>(st: Store<V, real>, key: string, limit: int, window: int, now: real): Store<V, real> {
    StepWith(st, LogKey(key), limit, window, now, now)
  }

  /** Seconds until a slot frees up: when the oldest logged request leaves the
      window, but at least 0.1; a whole window when the log is empty. */
  function RetryAfter<V>(st: Store<V, real>, sk: string, window: int, now: real): real {
    var oldest := ZRangeOf(st, sk, 0, 0, now);
    if |oldest| > 0 then MaxReal(0.1, (oldest[0] + window as real) - now) else window as real
  }

  /** The response of a check on `key` at `now`. */
  function Outcome<V>(st: Store<V, real>, key: string, limit: int, window: int, now: real): RateLimitResponse {
    var sk := LogKey(key);
    var count := Count(st, sk, window, now);
    if count < limit then
      Response(Allowed, limit, limit - count - 1, now + window as real)
    else
      var retryAfter := RetryAfter(Cleanup(Pruned(st, sk, window, now), sk, now), sk, window, now);
      RateLimitResponse(Denied, limit, 0, now + retryAfter, Some(retryAfter))
  }

  // ---------------------------------------------------------------------------
  // The strategy object
  // ---------------------------------------------------------------------------

  class SlidingWindowStrategy<V> {
    const backend: InMemoryBackend<V, real>

    constructor (backend: InMemoryBackend<V, real>)
      ensures this.backend == backend
    {
      this.backend := backend;
    }

    method Check(key: string, limit: int, window: int, now: real) returns (r: RateLimitResponse)
      requires backend.Valid()
      modifies backend
      ensures backend.Valid()
      ensures r == Outcome(old(backend.State()), key, limit, window, now)
      ensures backend.State() == Step(old(backend.State()), key, limit, window, now)
    {
      ghost var st0 := backend.State();
      var storageKey := LogKey(key);
      var windowStart := now - window as real;
      var _ := backend.ZRemRangeByScore(storageKey, 0.0, windowStart, now);
      ghost var pruned := backend.State();
      assert pruned == Pruned(st0, storageKey, window, now);
      var requestCount := backend.ZCard(storageKey, now);
      assert requestCount == Count(st0, storageKey, window, now);
      assert backend.State() == Cleanup(pruned, storageKey, now);
      if requestCount < limit {
        backend.ZAdd(storageKey, now, now, now);
        backend.Expire(storageKey, window, now);
        r := Response(Allowed, limit, limit - requestCount - 1, now + window as real);
      } else {
        var retryAfter := CalculateRetryAfter(storageKey, window, now);
        r := RateLimitResponse(Denied, limit, 0, now + retryAfter, Some(retryAfter));
      }
    }

    method Reset(key: string)
      requires backend.Valid()
      modifies backend
      ensures backend.Valid()
      ensures backend.State() == Drop(old(backend.State()), LogKey(key))
    {
      backend.Delete(LogKey(key));
    }

    method CalculateRetryAfter(storageKey: string, window: int, now: real) returns (retryAfter: real)
      requires backend.Valid()
      modifies backend
      ensures backend.Valid()
      ensures retryAfter == RetryAfter(old(backend.State()), storageKey, window, now)
      ensures backend.State() == Cleanup(old(backend.State()), storageKey, now)
    {
      var oldestTimestamps := backend.ZRange(storageKey, 0, 0, now);
      if |oldestTimestamps| > 0 {
        var oldest := oldestTimestamps[0];
        retryAfter := MaxReal(0.1, (oldest + window as real) - now);
      } else {
        retryAfter := window as real;
      }
    }
  }

  // ---------------------------------------------------------------------------
  // One check
  // ---------------------------------------------------------------------------

  /** The prune keeps exactly the entries scored outside [0, now - window] and
      the count is their number. An allowed check then holds `now` in the log,
      replacing an entry with the same member, and pushes the expiry to
      `now + window`; it reports `limit - count - 1` left and a reset one window
      ahead. A denied check adds nothing to the log and reports none left. */
  lemma CheckEffect<V>(st: Store<V, real>, key: string, limit: int, window: int, now: real)
    requires StoreValid(st)
    ensures var sk := LogKey(key);
            var before := SetOf(Cleanup(st, sk, now), sk);
            var kept := KeepOutside(before, 0.0, now - window as real);
            var r := Outcome(st, key, limit, window, now);
            var after := Step(st, key, limit, window, now);
            && Count(st, sk, window, now) == |kept|
            && (forall x :: x in kept <==> x in before && !(0.0 <= x.score <= now - window as real))
            && r.limit == limit
            && (r.IsAllowed() <==> |kept| < limit)
            && (r.IsAllowed() ==>
                  && r.remaining == limit - |kept| - 1
                  && r.resetAt == now + window as real
                  && r.retryAfter == None
                  && (forall x :: x in SetOf(after, sk) <==> x == Entry(now, now) || (x in kept && x.member != now))
                  && sk in after.expiry && after.expiry[sk] == now + window as real)
            && (!r.IsAllowed() ==>
                  && r.remaining == 0
                  && r.retryAfter.Some?
                  && r.resetAt == now + r.retryAfter.value
                  && SetOf(after, sk) == kept)
  {
    var sk := LogKey(key);
    var p := Pruned(st, sk, window, now);
    PrunedShape(st, sk, window, now);
    var after := Step(st, key, limit, window, now);
    if Allows(st, sk, limit, window, now) {
      ZAddEffect(p, sk, now, now, now);
      var q := ZAddStore(p, sk, now, now, now);
      assert after == ExpireStore(q, sk, window, now);
      assert sk in q.sortedSets;
      assert SetOf(after, sk) == SetOf(q, sk);
    } else {
      assert after == p;
    }
  }

  /** Pruning keeps the live entries outside the expired score range, leaves
      nothing for a later cleanup to do, and the count is their number. */
  lemma PrunedShape<V, M>(st: Store<V, M>, sk: string, window: int, now: real)
    requires StoreValid(st)
    ensures var p := Pruned(st, sk, window, now);
            var before := SetOf(Cleanup(st, sk, now), sk);
            var kept := KeepOutside(before, 0.0, now - window as real);
            && StoreValid(p)
            && SetOf(p, sk) == kept
            && Cleanup(p, sk, now) == p
            && Count(st, sk, window, now) == |kept|
            && (forall x :: x in kept <==> x in before && !(0.0 <= x.score <= now - window as real))
  {
    var hi := now - window as real;
    var p := Pruned(st, sk, window, now);
    var kept := KeepOutside(SetOf(Cleanup(st, sk, now), sk), 0.0, hi);
    ZRemValid(st, sk, 0.0, hi, now);
    assert StoreValid(p);
    ZRemLeavesClean(st, sk, 0.0, hi, now);
    assert SetOf(p, sk) == kept && Cleanup(p, sk, now) == p;
    assert Count(st, sk, window, now) == |SetOf(p, sk)|;
    ZRemEffect(st, sk, 0.0, hi, now);
  }

  /** A denial asks the caller to wait at least 0.1 seconds and at most one
      window, provided the window is at least a second and no logged request
      lies in the future. */
  lemma RetryAfterBounds<V>(st: Store<V, real>, sk: string, window: int, now: real)
    requires StoreValid(st) && window >= 1
    requires forall e :: e in SetOf(Cleanup(st, sk, now), sk) ==> e.member <= now
    ensures 0.0 < RetryAfter(st, sk, window, now) <= window as real
    ensures SetOf(Cleanup(st, sk, now), sk) != [] ==>
              RetryAfter(st, sk, window, now)
              == MaxReal(0.1, SetOf(Cleanup(st, sk, now), sk)[0].member + window as real - now)
  {
    ZRangeEffect(st, sk, now);
    var s := SetOf(Cleanup(st, sk, now), sk);
    if s != [] {
      assert s[0] in s;
    }
  }

  /** The same bounds for the retry-after of a denied check. */
  lemma DenialRetryBounds<V>(st: Store<V, real>, key: string, limit: int, window: int, now: real)
    requires StoreValid(st) && window >= 1
    requires forall e :: e in SetOf(st, LogKey(key)) ==> e.member <= now
    requires !Outcome(st, key, limit, window, now).IsAllowed()
    ensures var r := Outcome(st, key, limit, window, now);
            r.retryAfter.Some? && 0.0 < r.retryAfter.value <= window as real
            && r.resetAt == now + r.retryAfter.value && r.remaining == 0
  {
    var sk := LogKey(key);
    var hi := now - window as real;
    ZRemLeavesClean(st, sk, 0.0, hi, now);
    ZRemEffect(st, sk, 0.0, hi, now);
    ZRemValid(st, sk, 0.0, hi, now);
    var c := Cleanup(Pruned(st, sk, window, now), sk, now);
    forall e | e in SetOf(Cleanup(c, sk, now), sk) ensures e.member <= now {
      assert e in SetOf(Cleanup(st, sk, now), sk);
    }
    RetryAfterBounds(c, sk, window, now);
  }

  /** Once the oldest logged request has left the window, a key whose log held
      at most `limit` entries is allowed again. */
  lemma SlotFreedAfterWindow<V, M>(st: Store<V, M>, sk: string, limit: int, window: int, now: real)
    requires var log := SetOf(Cleanup(st, sk, now), sk);
             log != [] && |log| <= limit && 0.0 <= log[0].score <= now - window as real
    ensures Allows(st, sk, limit, window, now)
  {
    var log := SetOf(Cleanup(st, sk, now), sk);
    var hi := now - window as real;
    ZRemLeavesClean(st, sk, 0.0, hi, now);
    var keep := (e: Entry<M>) => !(0.0 <= e.score <= hi);
    assert Filter(log, keep) == Filter(log[1..], keep);
    FilterMembers(log[1..], keep);
  }

  /** After a reset the log is gone, so the next check is allowed when the
      limit is positive and reports `limit - 1` left; every other key's log
      and value read as before. */
  lemma ResetClearsLog<V>(st: Store<V, real>, key: string, other: string, limit: int, window: int, now: real)
    requires limit > 0 && other != LogKey(key)
    ensures Outcome(Drop(st, LogKey(key)), key, limit, window, now).IsAllowed()
    ensures Outcome(Drop(st, LogKey(key)), key, limit, window, now).remaining == limit - 1
    ensures SetOf(Drop(st, LogKey(key)), other) == SetOf(st, other)
    ensures Lookup(Drop(st, LogKey(key)), other, now) == Lookup(st, other, now)
  {
    var d := Drop(st, LogKey(key));
    ZRemLeavesClean(d, LogKey(key), 0.0, now - window as real, now);
  }

  /** The two strategies keep their state under different keys, whatever the
      caller keys are. */
  lemma StrategiesNeverShareKeys(k1: string, k2: string)
    ensures LogKey(k1) != TokenBucket.BucketKey(k2)
  {
    StorageKeysDisjoint(KeyPrefix, TokenBucket.KeyPrefix, k1, k2);
  }

  // ---------------------------------------------------------------------------
  // Runs of checks, and the no-burst invariant
  // ---------------------------------------------------------------------------

  /** The values of `times` above `lo`, in order. */
  function Above(times: seq<real>, lo: real): seq<real> {
    Filter(times, AboveP(lo))
  }

  function AboveP(lo: real): real -> bool {
    x => x > lo
  }

  function InWindowP(t: real, window: int): real -> bool {
    x => t - window as real < x <= t
  }

  /** How many of `times` fall in the window (t - window, t]. */
  function InWindow(times: seq<real>, t: real, window: int): nat {
    |Filter(times, InWindowP(t, window))|
  }

  datatype Request<M> = Request(time: real, member: M)

  /** The store after a sequence of checks on one log, and the times of the
      checks that were allowed. */
  datatype Trace<V, M> = Trace(store: Store<V, M>, allowed: seq<real>)

  function Run<V, M(==)>(st: Store<V, M>, sk: string, limit: int, window: int, reqs: seq<Request<M>>): Trace<V, M>
    decreases |reqs|
  {
    if reqs == [] then Trace(st, [])
    else
      var prev := Run(st, sk, limit, window, reqs[..|reqs| - 1]);
      var q := reqs[|reqs| - 1];
      Trace(StepWith(prev.store, sk, limit, window, q.time, q.member),
            if Allows(prev.store, sk, limit, window, q.time) then prev.allowed + [q.time] else prev.allowed)
  }

  /** The requests the strategy makes for checks at `times`: the member is the
      timestamp. */
  function AsWritten(times: seq<real>): (reqs: seq<Request<real>>)
    ensures |reqs| == |times|
    ensures forall i :: 0 <= i < |times| ==> reqs[i] == Request(times[i], times[i])
  {
    seq(|times|, i requires 0 <= i < |times| => Request(times[i], times[i]))
  }

  /** `n` copies of `x`. */
  function Constant(x: real, n: nat): (r: seq<real>)
    ensures |r| == n && forall i :: 0 <= i < n ==> r[i] == x
  {
    seq(n, _ => x)
  }

  /** Requests whose members are all distinct: the timestamp paired with the
      position of the request. */
  function Tagged(times: seq<real>): (reqs: seq<Request<(real, int)>>)
    ensures |reqs| == |times|
    ensures forall i :: 0 <= i < |times| ==> reqs[i] == Request(times[i], (times[i], i))
  {
    seq(|times|, i requires 0 <= i < |times| => Request(times[i], (times[i], i)))
  }

  ghost predicate TimesOk<M>(reqs: seq<Request<M>>) {
    && (forall i :: 0 <= i < |reqs| ==> 0.0 <= reqs[i].time)
    && (forall i, j :: 0 <= i < j < |reqs| ==> reqs[i].time <= reqs[j].time)
  }

  ghost predicate DistinctMembers<M>(reqs: seq<Request<M>>) {
    forall i, j :: 0 <= i < j < |reqs| ==> reqs[i].member != reqs[j].member
  }

  function MembersOf<M>(reqs: seq<Request<M>>): set<M> {
    set i | 0 <= i < |reqs| :: reqs[i].member
  }

  function LastTime<M>(reqs: seq<Request<M>>): real {
    if reqs == [] then 0.0 else reqs[|reqs| - 1].time
  }

  /** What holds of the log after the checks allowed at times `allowed`, the
      last check having been at `t`: the log's scores are exactly the allowed
      times still inside the window, its members were all handed out before,
      the key's expiry lies a window past every allowed time, and no window
      ever held more than `limit` allowed checks. */
  ghost predicate LogInv<V, M>(st: Store<V, M>, sk: string, limit: int, window: int, t: real, allowed: seq<real>, used: set<M>) {
    && StoreValid(st)
    && Scores(SetOf(st, sk)) == Above(allowed, t - window as real)
    && (forall i :: 0 <= i < |allowed| ==> 0.0 <= allowed[i] <= t)
    && (forall e :: e in SetOf(st, sk) ==> e.member in used)
    && (sk in st.expiry ==> forall i :: 0 <= i < |allowed| ==> allowed[i] <= st.expiry[sk] - window as real)
    && (forall T :: InWindow(allowed, T, window) <= limit)
  }

  lemma InAbove(times: seq<real>, lo: real, x: real)
    requires x in Above(times, lo)
    ensures x in times && x > lo
  {
    InFilter(times, AboveP(lo), x);
  }

  lemma AboveNone(times: seq<real>, lo: real)
    requires forall i :: 0 <= i < |times| ==> times[i] <= lo
    ensures Above(times, lo) == []
  {
    if Above(times, lo) != [] {
      InAbove(times, lo, Above(times, lo)[0]);
    }
  }

  lemma AboveShrinks(times: seq<real>, lo: real, hi: real)
    requires lo <= hi
    ensures Above(Above(times, lo), hi) == Above(times, hi)
  {
    FilterTwice(times, AboveP(lo), AboveP(hi));
  }

  lemma AboveAppend(times: seq<real>, x: real, lo: real)
    requires x > lo
    ensures Above(times + [x], lo) == Above(times, lo) + [x]
  {
    FilterConcat(times, [x], AboveP(lo));
    assert [x][1..] == [];
  }

  lemma ScoresAppend<M>(s: seq<Entry<M>>, e: Entry<M>)
    ensures Scores(s + [e]) == Scores(s) + [e.score]
  {
  }

  /** Adding a check at `now`, allowed because its window held fewer than
      `limit`, keeps every window at `limit` or fewer. */
  lemma WindowBoundAfterAppend(times: seq<real>, limit: int, window: int, now: real)
    requires window > 0
    requires forall i :: 0 <= i < |times| ==> times[i] <= now
    requires InWindow(times, now, window) < limit
    requires forall T :: InWindow(times, T, window) <= limit
    ensures forall T :: InWindow(times + [now], T, window) <= limit
  {
    forall T ensures InWindow(times + [now], T, window) <= limit {
      var inT := InWindowP(T, window);
      FilterConcat(times, [now], inT);
      assert [now][1..] == [];
      assert InWindow(times, T, window) <= limit;
      if T - window as real < now <= T {
        assert Filter([now], inT) == [now];
        FilterStricter(times, InWindowP(now, window), inT);
      } else {
        assert Filter([now], inT) == [];
      }
    }
  }

  /** Pruning [0, hi] from a log whose scores are the non-negative times above
      an earlier bound leaves the times above `hi`. */
  lemma PrunedScores<M>(log: seq<Entry<M>>, allowed: seq<real>, lo: real, hi: real)
    requires lo <= hi
    requires forall i :: 0 <= i < |allowed| ==> 0.0 <= allowed[i]
    requires Scores(log) == Above(allowed, lo)
    ensures Scores(KeepOutside(log, 0.0, hi)) == Above(allowed, hi)
  {
    var older := Above(allowed, lo);
    var outside := (x: real) => !(0.0 <= x <= hi);
    FilterScores(log, (e: Entry<M>) => !(0.0 <= e.score <= hi), outside);
    forall i | 0 <= i < |older| ensures outside(older[i]) == AboveP(hi)(older[i]) {
      InAbove(allowed, lo, older[i]);
    }
    FilterAgree(older, outside, AboveP(hi));
    AboveShrinks(allowed, lo, hi);
  }

  /** When no time lies after `now`, the times above `now - window` are the
      ones in the window ending at `now`. */
  lemma AboveIsWindow(allowed: seq<real>, now: real, window: int)
    requires forall i :: 0 <= i < |allowed| ==> allowed[i] <= now
    ensures |Above(allowed, now - window as real)| == InWindow(allowed, now, window)
  {
    FilterAgree(allowed, AboveP(now - window as real), InWindowP(now, window));
  }

  /** What the prune does to a log that satisfies the invariant: it keeps the
      allowed times inside the new window, and the count is the number of
      allowed checks in the window ending at `now`. */
  lemma PruneEffect<V, M>(st: Store<V, M>, sk: string, limit: int, window: int, t: real, allowed: seq<real>, used: set<M>, now: real)
    requires window > 0 && t <= now
    requires LogInv(st, sk, limit, window, t, allowed, used)
    ensures var p := Pruned(st, sk, window, now);
            && StoreValid(p)
            && Cleanup(p, sk, now) == p
            && Scores(SetOf(p, sk)) == Above(allowed, now - window as real)
            && (forall e :: e in SetOf(p, sk) ==> e in SetOf(st, sk))
            && (sk in p.expiry ==> sk in st.expiry && p.expiry[sk] == st.expiry[sk])
            && Count(st, sk, window, now) == InWindow(allowed, now, window)
  {
    var hi := now - window as real;
    var p := Pruned(st, sk, window, now);
    PrunedShape(st, sk, window, now);
    var kept := SetOf(p, sk);
    assert kept == KeepOutside(SetOf(Cleanup(st, sk, now), sk), 0.0, hi);
    if Expired(st, sk, now) {
      AboveNone(allowed, hi);
      assert kept == [];
    } else {
      assert kept == KeepOutside(SetOf(st, sk), 0.0, hi);
      PrunedScores(SetOf(st, sk), allowed, t - window as real, hi);
      forall e | e in kept ensures e in SetOf(st, sk) {
        InFilter(SetOf(st, sk), (x: Entry<M>) => !(0.0 <= x.score <= hi), e);
      }
    }
    assert p.expiry == Cleanup(st, sk, now).expiry by {
      ZRemLeavesClean(st, sk, 0.0, hi, now);
    }
    assert Count(st, sk, window, now) == |Scores(kept)|;
    AboveIsWindow(allowed, now, window);
  }

  /** Recording an allowed check at `now` in a freshly pruned log keeps the
      invariant. */
  lemma AppendKeepsLogInv<V, M>(p: Store<V, M>, sk: string, limit: int, window: int, allowed: seq<real>, used: set<M>, now: real, member: M)
    requires window > 0 && 0.0 <= now && member !in used
    requires StoreValid(p) && Cleanup(p, sk, now) == p
    requires Scores(SetOf(p, sk)) == Above(allowed, now - window as real)
    requires forall e :: e in SetOf(p, sk) ==> e.member in used
    requires forall i :: 0 <= i < |allowed| ==> 0.0 <= allowed[i] <= now
    requires InWindow(allowed, now, window) < limit
    requires forall T :: InWindow(allowed, T, window) <= limit
    ensures LogInv(ExpireStore(ZAddStore(p, sk, now, member, now), sk, window, now), sk, limit, window, now,
                   allowed + [now], used + {member})
  {
    var w := window as real;
    var log := SetOf(p, sk);
    var e := Entry(now, member);
    forall i | 0 <= i < |log| ensures log[i].member != member && log[i].score <= now {
      assert log[i] in log;
      assert Scores(log)[i] == log[i].score;
      InAbove(allowed, now - w, Scores(log)[i]);
    }
    FilterKeepsAll(log, (x: Entry<M>) => x.member != member);
    InsertAfterAll(log, e);
    var q := ZAddStore(p, sk, now, member, now);
    assert SetOf(q, sk) == log + [e];
    ZAddValid(p, sk, now, member, now);
    ScoresAppend(log, e);
    AboveAppend(allowed, now, now - w);
    WindowBoundAfterAppend(allowed, limit, window, now);
    var after := ExpireStore(q, sk, window, now);
    assert SetOf(after, sk) == log + [e];
    forall x | x in SetOf(after, sk) ensures x.member in used + {member} {
      if x != e {
        assert x in log;
      }
    }
  }

  /** One check keeps the invariant, provided the clock has not gone back, the
      time is not negative and the member is new. */
  lemma StepKeepsLogInv<V, M>(st: Store<V, M>, sk: string, limit: int, window: int, t: real, allowed: seq<real>, used: set<M>, now: real, member: M)
    requires window > 0 && t <= now && 0.0 <= now && member !in used
    requires LogInv(st, sk, limit, window, t, allowed, used)
    ensures Count(st, sk, window, now) == InWindow(allowed, now, window)
    ensures LogInv(StepWith(st, sk, limit, window, now, member), sk, limit, window, now,
                   if Allows(st, sk, limit, window, now) then allowed + [now] else allowed,
                   used + {member})
  {
    PruneEffect(st, sk, limit, window, t, allowed, used, now);
    var p := Pruned(st, sk, window, now);
    assert forall e :: e in SetOf(p, sk) ==> e.member in used;
    if Allows(st, sk, limit, window, now) {
      AppendKeepsLogInv(p, sk, limit, window, allowed, used, now, member);
    } else {
      assert StepWith(st, sk, limit, window, now, member) == p;
    }
  }

  /** The invariant holds after any run of checks on a log that starts empty,
      when the check times never go back nor below zero and every request has
      its own member. */
  lemma {:induction false} RunKeepsLogInv<V, M>(st: Store<V, M>, sk: string, limit: int, window: int, reqs: seq<Request<M>>)
    requires window > 0 && limit >= 0 && StoreValid(st) && SetOf(st, sk) == []
    requires TimesOk(reqs) && DistinctMembers(reqs)
    ensures var run := Run(st, sk, limit, window, reqs);
            LogInv(run.store, sk, limit, window, LastTime(reqs), run.allowed, MembersOf(reqs))
  {
    if reqs == [] {
      forall T ensures InWindow([], T, window) <= limit {
        assert Filter([], InWindowP(T, window)) == [];
      }
    } else {
      var prefix := reqs[..|reqs| - 1];
      var q := reqs[|reqs| - 1];
      RunKeepsLogInv(st, sk, limit, window, prefix);
      var prev := Run(st, sk, limit, window, prefix);
      assert q.member !in MembersOf(prefix);
      assert MembersOf(reqs) == MembersOf(prefix) + {q.member};
      assert LastTime(prefix) <= q.time;
      StepKeepsLogInv(prev.store, sk, limit, window, LastTime(prefix), prev.allowed, MembersOf(prefix), q.time, q.member);
    }
  }

  /** No burst: after any run of checks on a log that starts empty, with times
      that never go back nor below zero and a member of its own for every
      request, no window of `window` seconds holds more than `limit` allowed
      checks. */
  lemma NoBurst<V, M>(st: Store<V, M>, sk: string, limit: int, window: int, reqs: seq<Request<M>>)
    requires window > 0 && limit >= 0 && StoreValid(st) && SetOf(st, sk) == []
    requires TimesOk(reqs) && DistinctMembers(reqs)
    ensures forall T :: InWindow(Run(st, sk, limit, window, reqs).allowed, T, window) <= limit
  {
    RunKeepsLogInv(st, sk, limit, window, reqs);
  }

  /** The strategy as written keeps the bound when no two checks on a key share
      a timestamp. */
  lemma NoBurstAsWritten<V>(st: Store<V, real>, key: string, limit: int, window: int, times: seq<real>)
    requires window > 0 && limit >= 0 && StoreValid(st) && SetOf(st, LogKey(key)) == []
    requires forall i :: 0 <= i < |times| ==> 0.0 <= times[i]
    requires forall i, j :: 0 <= i < j < |times| ==> times[i] < times[j]
    ensures forall T :: InWindow(Run(st, LogKey(key), limit, window, AsWritten(times)).allowed, T, window) <= limit
  {
    NoBurst(st, LogKey(key), limit, window, AsWritten(times));
  }

  /** With a member unique to each request the bound holds for any times that
      never go back, equal timestamps included. */
  lemma NoBurstTagged<V>(st: Store<V, (real, int)>, key: string, limit: int, window: int, times: seq<real>)
    requires window > 0 && limit >= 0 && StoreValid(st) && SetOf(st, LogKey(key)) == []
    requires forall i :: 0 <= i < |times| ==> 0.0 <= times[i]
    requires forall i, j :: 0 <= i < j < |times| ==> times[i] <= times[j]
    ensures forall T :: InWindow(Run(st, LogKey(key), limit, window, Tagged(times)).allowed, T, window) <= limit
  {
    NoBurst(st, LogKey(key), limit, window, Tagged(times));
  }

  // ---------------------------------------------------------------------------
  // Checks within one window
  // ---------------------------------------------------------------------------

  /** Every allowed time is the time of some request. */
  lemma {:induction false} RunTimesFrom<V, M>(st: Store<V, M>, sk: string, limit: int, window: int, reqs: seq<Request<M>>, lo: real)
    requires forall i :: 0 <= i < |reqs| ==> lo <= reqs[i].time
    ensures forall i :: 0 <= i < |Run(st, sk, limit, window, reqs).allowed| ==> lo <= Run(st, sk, limit, window, reqs).allowed[i]
  {
    if reqs != [] {
      RunTimesFrom(st, sk, limit, window, reqs[..|reqs| - 1], lo);
    }
  }

  /** The last check of a run, spelled out. */
  lemma RunLast<V, M>(st: Store<V, M>, sk: string, limit: int, window: int, reqs: seq<Request<M>>)
    requires reqs != []
    ensures var prev := Run(st, sk, limit, window, reqs[..|reqs| - 1]);
            var q := reqs[|reqs| - 1];
            && Run(st, sk, limit, window, reqs).store == StepWith(prev.store, sk, limit, window, q.time, q.member)
            && Run(st, sk, limit, window, reqs).allowed
               == if Allows(prev.store, sk, limit, window, q.time) then prev.allowed + [q.time] else prev.allowed
  {
  }

  lemma PrefixOk<M>(reqs: seq<Request<M>>, k: nat)
    requires k <= |reqs| && TimesOk(reqs) && DistinctMembers(reqs)
    ensures TimesOk(reqs[..k]) && DistinctMembers(reqs[..k])
  {
  }

  /** The count a check sees after a run is the number of allowed checks in
      the window ending at its time, none of them later than that time. */
  lemma RunCount<V, M>(st: Store<V, M>, sk: string, limit: int, window: int, reqs: seq<Request<M>>)
    requires window > 0 && limit >= 0 && StoreValid(st) && SetOf(st, sk) == []
    requires TimesOk(reqs) && DistinctMembers(reqs) && reqs != []
    ensures var prev := Run(st, sk, limit, window, reqs[..|reqs| - 1]);
            var q := reqs[|reqs| - 1];
            && Count(prev.store, sk, window, q.time) == InWindow(prev.allowed, q.time, window)
            && forall i :: 0 <= i < |prev.allowed| ==> prev.allowed[i] <= q.time
  {
    var prefix := reqs[..|reqs| - 1];
    var q := reqs[|reqs| - 1];
    PrefixOk(reqs, |reqs| - 1);
    RunKeepsLogInv(st, sk, limit, window, prefix);
    var prev := Run(st, sk, limit, window, prefix);
    assert q.member !in MembersOf(prefix);
    assert LastTime(prefix) <= q.time;
    StepKeepsLogInv(prev.store, sk, limit, window, LastTime(prefix), prev.allowed, MembersOf(prefix), q.time, q.member);
  }

  /** When every check falls inside the window opened by the first, the count
      the last check sees is every check allowed before it. */
  lemma CountSeesWholeRun<V, M>(st: Store<V, M>, sk: string, limit: int, window: int, reqs: seq<Request<M>>)
    requires window > 0 && limit >= 0 && StoreValid(st) && SetOf(st, sk) == []
    requires TimesOk(reqs) && DistinctMembers(reqs) && reqs != []
    requires forall i :: 0 <= i < |reqs| ==> reqs[i].time < reqs[0].time + window as real
    ensures var prev := Run(st, sk, limit, window, reqs[..|reqs| - 1]);
            Count(prev.store, sk, window, reqs[|reqs| - 1].time) == |prev.allowed|
  {
    var prefix := reqs[..|reqs| - 1];
    var q := reqs[|reqs| - 1];
    var prev := Run(st, sk, limit, window, prefix);
    RunCount(st, sk, limit, window, reqs);
    RunTimesFrom(st, sk, limit, window, prefix, reqs[0].time);
    assert forall i :: 0 <= i < |prev.allowed| ==> InWindowP(q.time, window)(prev.allowed[i]);
    FilterKeepsAll(prev.allowed, InWindowP(q.time, window));
  }

  /** Checks on a log that starts empty, all inside one window: the first
      `limit` are allowed, each seeing one more logged request than the one
      before, and the rest are denied. */
  lemma {:induction false} OneWindow<V, M>(st: Store<V, M>, sk: string, limit: int, window: int, reqs: seq<Request<M>>)
    requires window > 0 && limit >= 0 && StoreValid(st) && SetOf(st, sk) == []
    requires TimesOk(reqs) && DistinctMembers(reqs)
    requires forall i :: 0 <= i < |reqs| ==> reqs[i].time < reqs[0].time + window as real
    ensures |Run(st, sk, limit, window, reqs).allowed| == if |reqs| <= limit then |reqs| else limit
    ensures reqs != [] ==>
              Count(Run(st, sk, limit, window, reqs[..|reqs| - 1]).store, sk, window, reqs[|reqs| - 1].time)
              == if |reqs| - 1 <= limit then |reqs| - 1 else limit
  {
    if reqs != [] {
      var prefix := reqs[..|reqs| - 1];
      PrefixOk(reqs, |reqs| - 1);
      assert forall i :: 0 <= i < |prefix| ==> prefix[i].time < prefix[0].time + window as real by {
        if prefix != [] {
          assert prefix[0] == reqs[0];
        }
      }
      OneWindow(st, sk, limit, window, prefix);
      CountSeesWholeRun(st, sk, limit, window, reqs);
      RunLast(st, sk, limit, window, reqs);
    }
  }

  /** The strategy as written, from an empty log, with increasing timestamps
      inside one window: check number n (from 0) is allowed with
      `limit - n - 1` left while n < limit, and denied with none left after. */
  lemma ExactlyLimitInOneWindow<V>(st: Store<V, real>, key: string, limit: int, window: int, times: seq<real>)
    requires window > 0 && limit >= 0 && StoreValid(st) && SetOf(st, LogKey(key)) == []
    requires forall i :: 0 <= i < |times| ==> 0.0 <= times[i] < times[0] + window as real
    requires forall i, j :: 0 <= i < j < |times| ==> times[i] < times[j]
    ensures forall n :: 0 <= n < |times| ==>
              var r := Outcome(Run(st, LogKey(key), limit, window, AsWritten(times[..n])).store, key, limit, window, times[n]);
              if n < limit then r.IsAllowed() && r.remaining == limit - n - 1
              else !r.IsAllowed() && r.remaining == 0
  {
    forall n | 0 <= n < |times|
      ensures var r := Outcome(Run(st, LogKey(key), limit, window, AsWritten(times[..n])).store, key, limit, window, times[n]);
              if n < limit then r.IsAllowed() && r.remaining == limit - n - 1
              else !r.IsAllowed() && r.remaining == 0
    {
      var reqs := AsWritten(times[..n + 1]);
      assert reqs[..n] == AsWritten(times[..n]);
      OneWindow(st, LogKey(key), limit, window, reqs);
    }
  }

  // ---------------------------------------------------------------------------
  // Checks at one instant, as written
  // ---------------------------------------------------------------------------

  /** A check at `now` on a log holding nothing, or only the entry an earlier
      check at `now` left, is allowed when the limit is 2 or more, and leaves
      only that one entry. */
  lemma SameInstantStep<V>(st: Store<V, real>, sk: string, limit: int, window: int, now: real)
    requires window > 0 && limit >= 2 && StoreValid(st)
    requires SetOf(Cleanup(st, sk, now), sk) == [] || SetOf(Cleanup(st, sk, now), sk) == [Entry(now, now)]
    ensures Allows(st, sk, limit, window, now)
    ensures var after := StepWith(st, sk, limit, window, now, now);
            && StoreValid(after)
            && SetOf(after, sk) == [Entry(now, now)]
            && sk in after.expiry && after.expiry[sk] == now + window as real
  {
    var hi := now - window as real;
    var e := Entry(now, now);
    var log := SetOf(Cleanup(st, sk, now), sk);
    ZRemLeavesClean(st, sk, 0.0, hi, now);
    ZRemValid(st, sk, 0.0, hi, now);
    var p := Pruned(st, sk, window, now);
    var keep := (x: Entry<real>) => !(0.0 <= x.score <= hi);
    assert [e][1..] == [];
    if log == [e] {
      assert Filter([e], keep) == [e];
    }
    assert SetOf(p, sk) == [] || SetOf(p, sk) == [e];
    if SetOf(p, sk) == [e] {
      assert WithoutMember([e], now) == WithoutMember([e][1..], now);
    }
    assert WithoutMember(SetOf(p, sk), now) == [];
    ZAddValid(p, sk, now, now, now);
  }

  /** A log that is empty, or holds one entry at `now` expiring a window
      later, reads the same way at `now`. */
  lemma LiveLogAtInstant<V>(st: Store<V, real>, sk: string, window: int, now: real)
    requires window > 0
    requires SetOf(st, sk) == [] || (SetOf(st, sk) == [Entry(now, now)] && sk in st.expiry && st.expiry[sk] == now + window as real)
    ensures SetOf(Cleanup(st, sk, now), sk) == [] || SetOf(Cleanup(st, sk, now), sk) == [Entry(now, now)]
  {
  }

  /** Because the member is the timestamp, a second allowed check at the same
      instant replaces the first one's entry instead of adding its own, so the
      log never grows past one entry and, with a limit of 2 or more, every
      check at that instant is allowed: `n` checks at one instant put `n`
      allowed checks in one window, whatever the limit. */
  lemma {:induction false} SameInstantAsWritten<V>(st: Store<V, real>, key: string, limit: int, window: int, now: real, n: nat)
    requires window > 0 && limit >= 2 && StoreValid(st) && SetOf(st, LogKey(key)) == []
    ensures var run := Run(st, LogKey(key), limit, window, AsWritten(Constant(now, n)));
            && run.allowed == Constant(now, n)
            && StoreValid(run.store)
            && (n > 0 ==> SetOf(run.store, LogKey(key)) == [Entry(now, now)]
                          && LogKey(key) in run.store.expiry
                          && run.store.expiry[LogKey(key)] == now + window as real)
            && InWindow(run.allowed, now, window) == n
  {
    var sk := LogKey(key);
    var reqs := AsWritten(Constant(now, n));
    var run := Run(st, sk, limit, window, reqs);
    if n > 0 {
      SameInstantAsWritten(st, key, limit, window, now, n - 1);
      assert reqs[..n - 1] == AsWritten(Constant(now, n - 1));
      var prev := Run(st, sk, limit, window, reqs[..n - 1]);
      RunLast(st, sk, limit, window, reqs);
      assert reqs[n - 1] == Request(now, now);
      LiveLogAtInstant(prev.store, sk, window, now);
      SameInstantStep(prev.store, sk, limit, window, now);
      assert run.store == StepWith(prev.store, sk, limit, window, now, now);
      assert run.allowed == prev.allowed + [now];
      assert Constant(now, n - 1) + [now] == Constant(now, n);
    }
    ConstantInWindow(now, window, n);
  }

  /** Every one of `n` checks at `now` lies in the window ending at `now`. */
  lemma ConstantInWindow(now: real, window: int, n: nat)
    requires window > 0
    ensures InWindow(Constant(now, n), now, window) == n
  {
    FilterKeepsAll(Constant(now, n), InWindowP(now, window));
  }

  /** The same checks with a member of their own are held to the limit. */
  lemma SameInstantTagged<V>(st: Store<V, (real, int)>, key: string, limit: int, window: int, now: real, n: nat)
    requires window > 0 && limit >= 0 && 0.0 <= now && StoreValid(st) && SetOf(st, LogKey(key)) == []
    ensures |Run(st, LogKey(key), limit, window, Tagged(Constant(now, n))).allowed| <= limit
  {
    var run := Run(st, LogKey(key), limit, window, Tagged(Constant(now, n)));
    NoBurstTagged(st, key, limit, window, Constant(now, n));
    RunTimesFrom(st, LogKey(key), limit, window, Tagged(Constant(now, n)), now);
    RunKeepsLogInv(st, LogKey(key), limit, window, Tagged(Constant(now, n)));
    assert InWindow(run.allowed, now, window) <= limit;
    FilterKeepsAll(run.allowed, InWindowP(now, window));
  }
}
