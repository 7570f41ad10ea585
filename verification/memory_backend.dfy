/**
 * The storage backend the strategies run against, in its in-memory form:
 * three dictionaries (plain values, sorted sets, expiry instants) with lazy
 * expiry, meaning a key past its expiry is removed when an operation touches
 * it. The clock is the explicit `now` argument of each operation.
 *
 * `Store` is the state of the three dictionaries as one value; the functions
 * over it say what each operation does and are what the class methods are
 * proved against.
 */
module MemoryBackend {
  import opened Wrappers
  import opened Numeric
  import opened SortedSet

  datatype Store<V, M> = Store(
    data: map<string, V>,
    sortedSets: map<string, seq<Entry<M>>>,
    expiry: map<string, real>)

  /** What every operation keeps: each sorted set ordered by score with unique
      members, and expiry instants only for keys that hold something. */
  ghost predicate StoreValid<V, M>(st: Store<V, M>) {
    && (forall k :: k in st.sortedSets ==> WellFormed(st.sortedSets[k]))
    && st.expiry.Keys <= st.data.Keys + st.sortedSets.Keys
  }

  /** A backend with nothing stored, as built and as left by `clear`. */
  function Empty<V, M>(): Store<V, M> {
    Store(map[], map[], map[])
  }

  predicate Expired<V, M>(st: Store<V, M>, key: string, now: real) {
    key in st.expiry && now > st.expiry[key]
  }

  /** `delete`: the key leaves all three dictionaries. */
  function Drop<V, M>(st: Store<V, M>, key: string): Store<V, M> {
    Store(st.data - {key}, st.sortedSets - {key}, st.expiry - {key})
  }

  /** The lazy expiry every reading operation starts with. */
  function Cleanup<V, M>(st: Store<V, M>, key: string, now: real): Store<V, M> {
    if Expired(st, key, now) then Drop(st, key) else st
  }

  /** The result of `get`. */
  function Lookup<V, M>(st: Store<V, M>, key: string, now: real): Option<V> {
    if Expired(st, key, now) || key !in st.data then None else Some(st.data[key])
  }

  /** `set`: the value, and an expiry `ttl` seconds after `now`. */
  function Put<V, M>(st: Store<V, M>, key: string, value: V, ttl: int, now: real): Store<V, M> {
    st.(data := st.data[key := value], expiry := st.expiry[key := now + ttl as real])
  }

  /** The sorted set stored under `key`, empty when there is none. */
  function SetOf<V, M>(st: Store<V, M>, key: string): seq<Entry<M>> {
    if key in st.sortedSets then st.sortedSets[key] else []
  }

  function ZAddStore<V, M(==)>(st: Store<V, M>, key: string, score: real, member: M, now: real): Store<V, M> {
    var c := Cleanup(st, key, now);
    c.(sortedSets := c.sortedSets[key := InsertByScore(WithoutMember(SetOf(c, key), member), Entry(score, member))])
  }

  function ZRemStore<V, M>(st: Store<V, M>, key: string, lo: real, hi: real, now: real): Store<V, M> {
    var c := Cleanup(st, key, now);
    if key !in c.sortedSets then c
    else c.(sortedSets := c.sortedSets[key := KeepOutside(c.sortedSets[key], lo, hi)])
  }

  /** The count `zremrangebyscore` returns. */
  function ZRemCount<V, M>(st: Store<V, M>, key: string, lo: real, hi: real, now: real): int {
    var c := Cleanup(st, key, now);
    if key !in c.sortedSets then 0
    else |c.sortedSets[key]| - |KeepOutside(c.sortedSets[key], lo, hi)|
  }

  /** The count `zcard` returns. */
  function ZCardCount<V, M>(st: Store<V, M>, key: string, now: real): nat {
    |SetOf(Cleanup(st, key, now), key)|
  }

  /** The members `zrange` returns, read with Redis index semantics; the
      backend's own index arithmetic agrees with it whenever the stop index
      is not more than one place before the start of the set. */
  function ZRangeOf<V, M>(st: Store<V, M>, key: string, start: int, stop: int, now: real): seq<M> {
    Members(RangeRedis(SetOf(Cleanup(st, key, now), key), start, stop))
  }

  function ExpireStore<V, M>(st: Store<V, M>, key: string, seconds: int, now: real): Store<V, M> {
    if key in st.data || key in st.sortedSets then st.(expiry := st.expiry[key := now + seconds as real])
    else st
  }

  /** The keys `keys` reports. */
  function LiveKeys<V, M>(st: Store<V, M>, now: real): set<string> {
    set k | k in st.data.Keys + st.sortedSets.Keys && !Expired(st, k, now)
  }

  // ---------------------------------------------------------------------------
  // The operations keep the store well formed
  // ---------------------------------------------------------------------------

  lemma CleanupValid<V, M>(st: Store<V, M>, key: string, now: real)
    requires StoreValid(st)
    ensures StoreValid(Cleanup(st, key, now)) && StoreValid(Drop(st, key))
  {
  }

  lemma ZAddValid<V, M>(st: Store<V, M>, key: string, score: real, member: M, now: real)
    requires StoreValid(st)
    ensures StoreValid(ZAddStore(st, key, score, member, now))
  {
    var c := Cleanup(st, key, now);
    var w := WithoutMember(SetOf(c, key), member);
    FilterSorted(SetOf(c, key), (e: Entry<M>) => e.member != member);
    FilterUnique(SetOf(c, key), (e: Entry<M>) => e.member != member);
    FilterMembers(SetOf(c, key), (e: Entry<M>) => e.member != member);
    assert member !in Members(w) by {
      if member in Members(w) {
        var i :| 0 <= i < |w| && Members(w)[i] == member;
        InFilter(SetOf(c, key), (e: Entry<M>) => e.member != member, w[i]);
      }
    }
    InsertByScoreSorted(w, Entry(score, member));
    InsertByScoreUnique(w, Entry(score, member));
  }

  lemma ZRemValid<V, M>(st: Store<V, M>, key: string, lo: real, hi: real, now: real)
    requires StoreValid(st)
    ensures StoreValid(ZRemStore(st, key, lo, hi, now))
  {
    var c := Cleanup(st, key, now);
    if key in c.sortedSets {
      FilterSorted(c.sortedSets[key], (e: Entry<M>) => !(lo <= e.score <= hi));
      FilterUnique(c.sortedSets[key], (e: Entry<M>) => !(lo <= e.score <= hi));
    }
  }

  // ---------------------------------------------------------------------------
  // The backend contract, stated over the operations
  // ---------------------------------------------------------------------------

  /** A stored value is returned until its ttl has passed; after that `get`
      returns nothing and the key is gone from all three dictionaries. Other
      keys read as before. */
  lemma GetAfterSet<V, M>(st: Store<V, M>, key: string, value: V, ttl: int, now: real, later: real, other: string)
    requires other != key
    ensures Lookup(Put(st, key, value, ttl, now), key, later)
            == (if later <= now + ttl as real then Some(value) else None)
    ensures later > now + ttl as real ==>
              var c := Cleanup(Put(st, key, value, ttl, now), key, later);
              key !in c.data && key !in c.sortedSets && key !in c.expiry
    ensures Lookup(Put(st, key, value, ttl, now), other, later) == Lookup(st, other, later)
  {
  }

  /** `delete` removes the key everywhere, leaves every other key as it was,
      and on a key that is not there changes nothing. */
  lemma DeleteEffect<V, M>(st: Store<V, M>, key: string, other: string, now: real)
    requires other != key
    ensures Lookup(Drop(st, key), key, now) == None && SetOf(Drop(st, key), key) == []
    ensures key !in LiveKeys(Drop(st, key), now)
    ensures Lookup(Drop(st, key), other, now) == Lookup(st, other, now)
    ensures SetOf(Drop(st, key), other) == SetOf(st, other)
    ensures (other in Drop(st, key).expiry <==> other in st.expiry)
    ensures key !in st.data && key !in st.sortedSets && key !in st.expiry ==> Drop(st, key) == st
  {
  }

  /** After `zadd` the set is still ordered with unique members, holds the
      member exactly with the new score, and keeps every other member with its
      score; it grew by one exactly when the member was new. */
  lemma ZAddEffect<V, M>(st: Store<V, M>, key: string, score: real, member: M, now: real)
    requires StoreValid(st)
    ensures var before := SetOf(Cleanup(st, key, now), key);
            var after := SetOf(ZAddStore(st, key, score, member, now), key);
            && WellFormed(after)
            && Entry(score, member) in after
            && (forall x :: x in after <==> x == Entry(score, member) || (x in before && x.member != member))
            && |after| == |before| + (if member in Members(before) then 0 else 1)
  {
    ZAddValid(st, key, score, member, now);
    var c := Cleanup(st, key, now);
    var before := SetOf(c, key);
    var keep := (e: Entry<M>) => e.member != member;
    var w := WithoutMember(before, member);
    var after := SetOf(ZAddStore(st, key, score, member, now), key);
    assert after == InsertByScore(w, Entry(score, member));
    InsertByScoreContents(w, Entry(score, member));
    FilterMembers(before, keep);
    forall x ensures x in after <==> x == Entry(score, member) || (x in before && x.member != member) {
      if x in w {
        InFilter(before, keep, x);
      }
    }
    assert StoreValid(c);
    assert UniqueMembers(before);
    RemoveOneMember(before, member);
  }

  /** Removing a member from a list where members are unique takes away one
      entry if the member was there and none otherwise. */
  lemma {:induction false} RemoveOneMember<M>(s: seq<Entry<M>>, m: M)
    requires UniqueMembers(s)
    ensures |WithoutMember(s, m)| == |s| - (if m in Members(s) then 1 else 0)
  {
    if s != [] {
      UniqueTail(s);
      RemoveOneMember(s[1..], m);
      assert Members(s) == [s[0].member] + Members(s[1..]);
      if s[0].member == m {
        assert m !in Members(s[1..]) by {
          forall i | 0 <= i < |s[1..]| ensures Members(s[1..])[i] != m {
            assert s[1..][i] in s[1..];
          }
        }
      }
    }
  }

  /** `zremrangebyscore` keeps exactly the entries whose score lies outside
      [lo, hi], in their order, and reports how many it removed; on a missing
      or expired key it removes nothing and reports 0. */
  lemma ZRemEffect<V, M>(st: Store<V, M>, key: string, lo: real, hi: real, now: real)
    requires StoreValid(st)
    ensures var before := SetOf(Cleanup(st, key, now), key);
            var after := SetOf(ZRemStore(st, key, lo, hi, now), key);
            && (forall x :: x in after <==> x in before && !(lo <= x.score <= hi))
            && WellFormed(after)
            && ZRemCount(st, key, lo, hi, now) == |before| - |after| >= 0
    ensures Expired(st, key, now) || key !in st.sortedSets ==>
              ZRemCount(st, key, lo, hi, now) == 0 && ZRemStore(st, key, lo, hi, now) == Cleanup(st, key, now)
  {
    var before := SetOf(Cleanup(st, key, now), key);
    var keep := (e: Entry<M>) => !(lo <= e.score <= hi);
    FilterMembers(before, keep);
    ZRemValid(st, key, lo, hi, now);
    forall x ensures x in SetOf(ZRemStore(st, key, lo, hi, now), key) <==> x in before && !(lo <= x.score <= hi) {
      if x in SetOf(ZRemStore(st, key, lo, hi, now), key) {
        InFilter(before, keep, x);
      }
    }
  }

  /** After `zremrangebyscore` the set is the pruned set, and the key is not
      expired at the same instant, so a following read cleans up nothing. */
  lemma ZRemLeavesClean<V, M>(st: Store<V, M>, key: string, lo: real, hi: real, now: real)
    ensures SetOf(ZRemStore(st, key, lo, hi, now), key) == KeepOutside(SetOf(Cleanup(st, key, now), key), lo, hi)
    ensures Cleanup(ZRemStore(st, key, lo, hi, now), key, now) == ZRemStore(st, key, lo, hi, now)
    ensures ZRemStore(st, key, lo, hi, now).expiry == Cleanup(st, key, now).expiry
  {
  }

  /** `zcard` counts the members, and a missing or expired key counts 0. */
  lemma ZCardEffect<V, M>(st: Store<V, M>, key: string, now: real)
    ensures Expired(st, key, now) || key !in st.sortedSets ==> ZCardCount(st, key, now) == 0
    ensures !Expired(st, key, now) && key in st.sortedSets ==> ZCardCount(st, key, now) == |st.sortedSets[key]|
  {
  }

  /** `zrange(key, 0, 0)` yields the member with the lowest score, or nothing
      for an empty, missing or expired set; `zrange(key, 0, -1)` yields all
      members in score order. */
  lemma ZRangeEffect<V, M>(st: Store<V, M>, key: string, now: real)
    requires StoreValid(st)
    ensures var s := SetOf(Cleanup(st, key, now), key);
            && ZRangeOf(st, key, 0, 0, now) == (if s == [] then [] else [s[0].member])
            && (forall j :: 0 <= j < |s| ==> s[0].score <= s[j].score)
            && ZRangeOf(st, key, 0, -1, now) == Members(s)
  {
    var s := SetOf(Cleanup(st, key, now), key);
    RangeRedisInclusive(s, 0, 0);
    if s != [] {
      assert Members([s[0]]) == [s[0].member];
    }
    assert s[0..] == s;
  }

  /** `expire` sets a new expiry only on a key that holds a value or a sorted
      set, and leaves the store untouched otherwise. */
  lemma ExpireEffect<V, M>(st: Store<V, M>, key: string, seconds: int, now: real)
    ensures key !in st.data && key !in st.sortedSets ==> ExpireStore(st, key, seconds, now) == st
    ensures key in st.data || key in st.sortedSets ==>
              ExpireStore(st, key, seconds, now).expiry == st.expiry[key := now + seconds as real]
              && ExpireStore(st, key, seconds, now).data == st.data
              && ExpireStore(st, key, seconds, now).sortedSets == st.sortedSets
  {
  }

  /** Once `expire` has given a key a timeout, the key is gone after it: `get`
      finds no value, `zcard` counts nothing, `keys` does not list it and the
      lazy cleanup removes it from all three dictionaries. Until then it reads
      as before. */
  lemma ExpireThenRead<V, M>(st: Store<V, M>, key: string, seconds: int, now: real, later: real)
    requires key in st.data || key in st.sortedSets
    ensures var e := ExpireStore(st, key, seconds, now);
            later > now + seconds as real ==>
              && Lookup(e, key, later) == None
              && ZCardCount(e, key, later) == 0
              && key !in LiveKeys(e, later)
              && key !in Cleanup(e, key, later).data
              && key !in Cleanup(e, key, later).sortedSets
              && key !in Cleanup(e, key, later).expiry
    ensures var e := ExpireStore(st, key, seconds, now);
            later <= now + seconds as real ==>
              && Lookup(e, key, later) == (if key in st.data then Some(st.data[key]) else None)
              && ZCardCount(e, key, later) == |SetOf(st, key)|
              && key in LiveKeys(e, later)
  {
  }

  /** `keys` lists a key exactly when it holds something and has not expired:
      a key just set with a non-negative ttl is listed, a deleted one is not. */
  lemma KeysEffect<V, M>(st: Store<V, M>, key: string, value: V, ttl: int, now: real)
    requires ttl >= 0
    ensures key in LiveKeys(Put(st, key, value, ttl, now), now)
    ensures key !in LiveKeys(Drop(st, key), now)
    ensures LiveKeys(Empty<V, M>(), now) == {}
  {
  }

  // ---------------------------------------------------------------------------
  // The backend object
  // ---------------------------------------------------------------------------

  class InMemoryBackend<V, M(==)> {
    var data: map<string, V>
    var sortedSets: map<string, seq<Entry<M>>>
    var expiry: map<string, real>

    function State(): Store<V, M>
      reads this
    {
      Store(data, sortedSets, expiry)
    }

    ghost predicate Valid()
      reads this
    {
      StoreValid(State())
    }

    constructor ()
      ensures Valid() && State() == Empty()
    {
      data := map[];
      sortedSets := map[];
      expiry := map[];
    }

    predicate IsExpired(key: string, now: real)
      reads this
    {
      key in expiry && now > expiry[key]
    }

    method CleanupIfExpired(key: string, now: real) returns (removed: bool)
      requires Valid()
      modifies this
      ensures Valid()
      ensures removed == Expired(old(State()), key, now)
      ensures State() == Cleanup(old(State()), key, now)
    {
      removed := IsExpired(key, now);
      if removed {
        data := data - {key};
        sortedSets := sortedSets - {key};
        expiry := expiry - {key};
      }
    }

    method Get(key: string, now: real) returns (r: Option<V>)
      requires Valid()
      modifies this
      ensures Valid()
      ensures r == Lookup(old(State()), key, now)
      ensures State() == Cleanup(old(State()), key, now)
    {
      var expired := CleanupIfExpired(key, now);
      if expired {
        return None;
      }
      r := Wrappers.Get(data, key);
    }

    method Set(key: string, value: V, ttl: int, now: real)
      requires Valid()
      modifies this
      ensures Valid()
      ensures State() == Put(old(State()), key, value, ttl, now)
    {
      data := data[key := value];
      expiry := expiry[key := now + ttl as real];
    }

    method Delete(key: string)
      requires Valid()
      modifies this
      ensures Valid()
      ensures State() == Drop(old(State()), key)
    {
      data := data - {key};
      sortedSets := sortedSets - {key};
      expiry := expiry - {key};
    }

    method ZAdd(key: string, score: real, member: M, now: real)
      requires Valid()
      modifies this
      ensures Valid()
      ensures State() == ZAddStore(old(State()), key, score, member, now)
    {
      ghost var st0 := State();
      var _ := CleanupIfExpired(key, now);
      var current := if key in sortedSets then sortedSets[key] else [];
      assert WellFormed(current);
      var kept := WithoutMember(current, member);
      FilterSorted(current, (e: Entry<M>) => e.member != member);
      var items := kept + [Entry(score, member)];
      assert items[..|items| - 1] == kept;
      var sorted := SortAppended(items);
      sortedSets := sortedSets[key := sorted];
      ZAddValid(st0, key, score, member, now);
    }

    method ZRemRangeByScore(key: string, lo: real, hi: real, now: real) returns (removed: int)
      requires Valid()
      modifies this
      ensures Valid()
      ensures removed == ZRemCount(old(State()), key, lo, hi, now)
      ensures State() == ZRemStore(old(State()), key, lo, hi, now)
    {
      ghost var st0 := State();
      var expired := CleanupIfExpired(key, now);
      if expired {
        return 0;
      }
      if key !in sortedSets {
        return 0;
      }
      var originalCount := |sortedSets[key]|;
      sortedSets := sortedSets[key := KeepOutside(sortedSets[key], lo, hi)];
      removed := originalCount - |sortedSets[key]|;
      ZRemValid(st0, key, lo, hi, now);
    }

    method ZCard(key: string, now: real) returns (n: nat)
      requires Valid()
      modifies this
      ensures Valid()
      ensures n == ZCardCount(old(State()), key, now)
      ensures State() == Cleanup(old(State()), key, now)
    {
      var expired := CleanupIfExpired(key, now);
      if expired {
        return 0;
      }
      n := if key in sortedSets then |sortedSets[key]| else 0;
    }

    method ZRange(key: string, start: int, stop: int, now: real) returns (members: seq<M>)
      requires Valid()
      modifies this
      ensures Valid()
      ensures members == Members(RangeAsWritten(SetOf(Cleanup(old(State()), key, now), key), start, stop))
      ensures State() == Cleanup(old(State()), key, now)
      ensures stop >= -|SetOf(State(), key)| - 1 ==> members == ZRangeOf(old(State()), key, start, stop, now)
    {
      var expired := CleanupIfExpired(key, now);
      if stop >= -|SetOf(State(), key)| - 1 {
        RangeAgreement(SetOf(State(), key), start, stop);
      }
      if expired {
        return [];
      }
      var items := if key in sortedSets then sortedSets[key] else [];
      if items == [] {
        return [];
      }
      var length := |items|;
      var first := start;
      var last := stop;
      if first < 0 {
        first := if length + first < 0 then 0 else length + first;
      }
      if last < 0 {
        last := length + last;
      }
      var end := last + 1;
      members := Members(PySlice(items, first, end));
    }

    method Expire(key: string, seconds: int, now: real)
      requires Valid()
      modifies this
      ensures Valid()
      ensures State() == ExpireStore(old(State()), key, seconds, now)
    {
      if key in data || key in sortedSets {
        expiry := expiry[key := now + seconds as real];
      }
    }

    method Clear()
      modifies this
      ensures Valid()
      ensures State() == Empty()
    {
      data := map[];
      sortedSets := map[];
      expiry := map[];
    }

    /** The non-expired keys that hold a value or a sorted set. */
    function Keys(now: real): (r: set<string>)
      reads this
      ensures r == LiveKeys(State(), now)
      ensures forall k :: k in r <==> (k in data || k in sortedSets) && !IsExpired(k, now)
    {
      set k | k in data.Keys + sortedSets.Keys && !IsExpired(k, now)
    }
  }
}
