/** The client's in-memory response cache (client/src/utils/cache.js): two
    maps keyed by cache key, one holding the cached values and one the
    creation time and time-to-live of each entry, plus the deterministic
    key builder. The clock is a parameter; a stored null value is None. */
module TtlCache {
  import opened Wrappers
  import opened JsText

  const DefaultTtl := 300000

  /** When an entry was stored and how long it stays fresh, in milliseconds. */
  datatype Stamp = Stamp(created: int, ttl: int)

  /** An entry is expired once its age exceeds its ttl; an age equal to the
      ttl is still fresh. */
  predicate Expired(s: Stamp, now: int) {
    now - s.created > s.ttl
  }

  /** What `get` answers on the given state: the value of a present,
      unexpired entry, and null (None) otherwise. */
  function Lookup<V>(cache: map<string, Option<V>>, timestamps: map<string, Stamp>, key: string, now: int): (r: Option<V>)
    requires key in cache ==> key in timestamps
    ensures r.Some? ==> key in cache && !Expired(timestamps[key], now) && cache[key] == r
    ensures key in cache && !Expired(timestamps[key], now) ==> r == cache[key]
  {
    if key !in cache then None
    else if Expired(timestamps[key], now) then None
    else cache[key]
  }

  /** The state without the given keys. */
  function Without<W>(m: map<string, W>, gone: string -> bool): (r: map<string, W>)
    ensures forall k :: k in r <==> k in m && !gone(k)
    ensures forall k :: k in r ==> r[k] == m[k]
  {
    map k | k in m && !gone(k) :: m[k]
  }

  class Cache<V> {
    var cache: map<string, Option<V>>
    var timestamps: map<string, Stamp>

    /** The two maps hold the same keys. */
    ghost predicate Valid()
      reads this
    {
      cache.Keys == timestamps.Keys
    }

    constructor ()
      ensures Valid() && cache == map[] && timestamps == map[]
    {
      cache := map[];
      timestamps := map[];
    }

    /** set(key, value, ttl): overwrites the value and restarts the entry's
        lifetime at `now`. */
    method Set(key: string, value: Option<V>, ttl: int, now: int)
      requires Valid()
      modifies this
      ensures Valid()
      ensures cache == old(cache)[key := value]
      ensures timestamps == old(timestamps)[key := Stamp(now, ttl)]
    {
      cache := cache[key := value];
      timestamps := timestamps[key := Stamp(now, ttl)];
    }

    /** set(key, value) with the default lifetime of five minutes. */
    method SetDefault(key: string, value: Option<V>, now: int)
      requires Valid()
      modifies this
      ensures Valid()
      ensures cache == old(cache)[key := value]
      ensures timestamps == old(timestamps)[key := Stamp(now, DefaultTtl)]
    {
      Set(key, value, DefaultTtl, now);
    }

    /** get(key) at time `now`: null for an absent key, with nothing
        changed; an expired entry is removed from both maps and reads as
        null; otherwise the stored value, with nothing changed. */
    method Get(key: string, now: int) returns (r: Option<V>)
      requires Valid()
      modifies this
      ensures Valid()
      ensures r == Lookup(old(cache), old(timestamps), key, now)
      ensures key in old(cache) && Expired(old(timestamps)[key], now) ==>
        cache == old(cache) - {key} && timestamps == old(timestamps) - {key}
      ensures !(key in old(cache) && Expired(old(timestamps)[key], now)) ==>
        cache == old(cache) && timestamps == old(timestamps)
    {
      if key !in cache {
        return None;
      }
      var timestamp := timestamps[key];
      var age := now - timestamp.created;
      if age > timestamp.ttl {
        Delete(key);
        return None;
      }
      r := cache[key];
    }

    /** has(key) is `get(key) !== null`: a stored null reads as absent, and
        the call evicts an expired entry exactly as get does. */
    method Has(key: string, now: int) returns (b: bool)
      requires Valid()
      modifies this
      ensures Valid()
      ensures b <==> Lookup(old(cache), old(timestamps), key, now).Some?
      ensures key in old(cache) && Expired(old(timestamps)[key], now) ==>
        cache == old(cache) - {key} && timestamps == old(timestamps) - {key}
      ensures !(key in old(cache) && Expired(old(timestamps)[key], now)) ==>
        cache == old(cache) && timestamps == old(timestamps)
    {
      var v := Get(key, now);
      b := v.Some?;
    }

    /** delete(key): the entry leaves both maps. */
    method Delete(key: string)
      requires Valid()
      modifies this
      ensures Valid()
      ensures cache == old(cache) - {key}
      ensures timestamps == old(timestamps) - {key}
    {
      cache := cache - {key};
      timestamps := timestamps - {key};
    }

    /** clear(): both maps become empty. */
    method Clear()
      modifies this
      ensures Valid()
      ensures cache == map[] && timestamps == map[]
    {
      cache := map[];
      timestamps := map[];
    }

    /** invalidatePattern: collect the keys the pattern matches (in the
        map's iteration order, which the model leaves open), then delete
        them one by one. Exactly the matching entries go; every other value
        and timestamp stays as it was. */
    method InvalidatePattern(matches: string -> bool)
      requires Valid()
      modifies this
      ensures Valid()
      ensures cache == Without(old(cache), matches)
      ensures timestamps == Without(old(timestamps), matches)
    {
      var keysToDelete := MatchingKeys(matches);
      var i := 0;
      while i < |keysToDelete|
        invariant 0 <= i <= |keysToDelete|
        invariant Valid()
        invariant cache == Without(old(cache), (k: string) => k in keysToDelete[..i])
        invariant timestamps == Without(old(timestamps), (k: string) => k in keysToDelete[..i])
      {
        WithoutStep(old(cache), keysToDelete, i);
        WithoutStep(old(timestamps), keysToDelete, i);
        Delete(keysToDelete[i]);
        i := i + 1;
      }
      assert keysToDelete[..i] == keysToDelete;
      WithoutAgrees(old(cache), (k: string) => k in keysToDelete, matches);
      WithoutAgrees(old(timestamps), (k: string) => k in keysToDelete, matches);
    }

    /** The first loop of invalidatePattern: the keys of the cache the
        pattern matches, each once. */
    method MatchingKeys(matches: string -> bool) returns (keysToDelete: seq<string>)
      ensures forall k :: k in keysToDelete <==> k in cache && matches(k)
    {
      keysToDelete := [];
      var remaining := cache.Keys;
      while remaining != {}
        invariant remaining <= cache.Keys
        invariant forall k :: k in keysToDelete <==> k in cache.Keys - remaining && matches(k)
        decreases |remaining|
      {
        var key :| key in remaining;
        if matches(key) {
          keysToDelete := keysToDelete + [key];
        }
        remaining := remaining - {key};
      }
    }
  }

  /** Deleting one more collected key. */
  lemma WithoutStep<W>(m: map<string, W>, ks: seq<string>, i: nat)
    requires i < |ks|
    ensures Without(m, (k: string) => k in ks[..i]) - {ks[i]} == Without(m, (k: string) => k in ks[..i + 1])
  {
    assert ks[..i + 1] == ks[..i] + [ks[i]];
  }

  /** Removing by two conditions that agree on the keys present. */
  lemma WithoutAgrees<W>(m: map<string, W>, p: string -> bool, q: string -> bool)
    requires forall k :: k in m ==> (p(k) <==> q(k))
    ensures Without(m, p) == Without(m, q)
  {
  }

  /** Reading right after set(k, v, ttl) at time t gives v exactly while
      the age t' - t is at most ttl. */
  lemma LookupAfterSet<V>(cache: map<string, Option<V>>, timestamps: map<string, Stamp>,
                          key: string, value: Option<V>, ttl: int, t: int, t2: int)
    requires cache.Keys == timestamps.Keys
    ensures Lookup(cache[key := value], timestamps[key := Stamp(t, ttl)], key, t2)
      == (if t2 - t <= ttl then value else None)
  {
  }

  /** Writing one key leaves what every other key reads. */
  lemma LookupOtherKey<V>(cache: map<string, Option<V>>, timestamps: map<string, Stamp>,
                          key: string, other: string, value: Option<V>, ttl: int, t: int, t2: int)
    requires cache.Keys == timestamps.Keys
    requires other != key
    ensures Lookup(cache[key := value], timestamps[key := Stamp(t, ttl)], other, t2)
      == Lookup(cache, timestamps, other, t2)
  {
  }

  // ---------------------------------------------------------------------
  // generateCacheKey
  // ---------------------------------------------------------------------

  /** The order of Array.prototype.sort without a comparator on strings:
      character by character, a proper prefix first. */
  predicate StrLess(a: string, b: string)
    decreases |a|
  {
    if a == [] then b != []
    else if b == [] then false
    else if a[0] != b[0] then a[0] < b[0]
    else StrLess(a[1..], b[1..])
  }

  lemma {:induction false} StrLessIrreflexive(a: string)
    ensures !StrLess(a, a)
    decreases |a|
  {
    if a != [] {
      StrLessIrreflexive(a[1..]);
    }
  }

  lemma {:induction false} StrLessTransitive(a: string, b: string, c: string)
    requires StrLess(a, b) && StrLess(b, c)
    ensures StrLess(a, c)
    decreases |a|
  {
    if a != [] && b != [] && c != [] && a[0] == b[0] && b[0] == c[0] {
      StrLessTransitive(a[1..], b[1..], c[1..]);
    }
  }

  lemma {:induction false} StrLessTotal(a: string, b: string)
    ensures a == b || StrLess(a, b) || StrLess(b, a)
    decreases |a|
  {
    if a != [] && b != [] && a[0] == b[0] {
      StrLessTotal(a[1..], b[1..]);
      if a[1..] == b[1..] {
        assert a == [a[0]] + a[1..] && b == [b[0]] + b[1..];
      }
    }
  }

  lemma StrLessAsymmetric(a: string, b: string)
    requires StrLess(a, b)
    ensures !StrLess(b, a)
  {
    if StrLess(b, a) {
      StrLessTransitive(a, b, a);
      StrLessIrreflexive(a);
    }
  }

  /** The keys of a parameter list. */
  function Keys(ps: seq<(string, string)>): (ks: seq<string>)
    ensures |ks| == |ps|
    ensures forall i :: 0 <= i < |ps| ==> ks[i] == ps[i].0
  {
    seq(|ps|, i requires 0 <= i < |ps| => ps[i].0)
  }

  /** An object's keys are distinct. */
  predicate DistinctKeys(ps: seq<(string, string)>) {
    forall i, j :: 0 <= i < j < |ps| ==> ps[i].0 != ps[j].0
  }

  /** Strictly increasing by key. */
  predicate SortedByKey(ps: seq<(string, string)>) {
    forall i, j :: 0 <= i < j < |ps| ==> StrLess(ps[i].0, ps[j].0)
  }

  function InsertByKey(p: (string, string), ps: seq<(string, string)>): seq<(string, string)> {
    if ps == [] || StrLess(p.0, ps[0].0) then [p] + ps
    else [ps[0]] + InsertByKey(p, ps[1..])
  }

  /** The parameters in the order `Object.keys(params).sort()` visits them. */
  function SortByKey(ps: seq<(string, string)>): seq<(string, string)> {
    if ps == [] then [] else InsertByKey(ps[0], SortByKey(ps[1..]))
  }

  lemma {:induction false} InsertByKeySorted(p: (string, string), ps: seq<(string, string)>)
    requires SortedByKey(ps)
    requires forall q :: q in ps ==> q.0 != p.0
    ensures SortedByKey(InsertByKey(p, ps))
    ensures multiset(InsertByKey(p, ps)) == multiset(ps) + multiset{p}
  {
    InsertByKeyCounts(p, ps);
    if ps == [] || StrLess(p.0, ps[0].0) {
      ConsSorted(p, ps);
    } else {
      StrLessTotal(p.0, ps[0].0);
      var t := InsertByKey(p, ps[1..]);
      assert SortedByKey(ps[1..]) by {
        forall i, j | 0 <= i < j < |ps[1..]| ensures StrLess(ps[1..][i].0, ps[1..][j].0) {
          assert ps[1..][i] == ps[i + 1] && ps[1..][j] == ps[j + 1];
        }
      }
      InsertByKeySorted(p, ps[1..]);
      InsertByKeyCounts(p, ps[1..]);
      if t != [] {
        assert t[0] in multiset(t);
        assert t[0] == p || t[0] in ps[1..];
        if t[0] != p {
          var k :| 0 <= k < |ps[1..]| && ps[1..][k] == t[0];
          assert ps[k + 1] == t[0];
        }
      }
      ConsSorted(ps[0], t);
    }
  }

  /** InsertByKey adds exactly the one pair. */
  lemma {:induction false} InsertByKeyCounts(p: (string, string), ps: seq<(string, string)>)
    ensures multiset(InsertByKey(p, ps)) == multiset(ps) + multiset{p}
  {
    if ps != [] && !StrLess(p.0, ps[0].0) {
      InsertByKeyCounts(p, ps[1..]);
      assert ps == [ps[0]] + ps[1..];
    }
  }

  /** A key below the first of a sorted list can go in front of it. */
  lemma ConsSorted(p: (string, string), ps: seq<(string, string)>)
    requires SortedByKey(ps)
    requires ps == [] || StrLess(p.0, ps[0].0)
    ensures SortedByKey([p] + ps)
  {
    var u := [p] + ps;
    forall i, j | 0 <= i < j < |u| ensures StrLess(u[i].0, u[j].0) {
      if i == 0 && j > 1 {
        assert u[j] == ps[j - 1];
        StrLessTransitive(p.0, ps[0].0, ps[j - 1].0);
      } else if i > 0 {
        assert u[i] == ps[i - 1] && u[j] == ps[j - 1];
      }
    }
  }

  lemma {:induction false} SortByKeySorted(ps: seq<(string, string)>)
    requires DistinctKeys(ps)
    ensures SortedByKey(SortByKey(ps))
    ensures multiset(SortByKey(ps)) == multiset(ps)
  {
    if ps != [] {
      DistinctKeysTail(ps);
      SortByKeySorted(ps[1..]);
      TailAvoidsHeadKey(ps, SortByKey(ps[1..]));
      InsertByKeySorted(ps[0], SortByKey(ps[1..]));
      assert ps == [ps[0]] + ps[1..];
    }
  }

  lemma DistinctKeysTail(ps: seq<(string, string)>)
    requires ps != [] && DistinctKeys(ps)
    ensures DistinctKeys(ps[1..])
  {
    forall i, j | 0 <= i < j < |ps[1..]| ensures ps[1..][i].0 != ps[1..][j].0 {
      assert ps[1..][i] == ps[i + 1] && ps[1..][j] == ps[j + 1];
    }
  }

  /** A rearrangement of the tail holds no pair with the head's key. */
  lemma TailAvoidsHeadKey(ps: seq<(string, string)>, t: seq<(string, string)>)
    requires ps != [] && DistinctKeys(ps)
    requires multiset(t) == multiset(ps[1..])
    ensures forall q :: q in t ==> q.0 != ps[0].0
  {
    forall q | q in t ensures q.0 != ps[0].0 {
      assert q in multiset(t);
      assert q in ps[1..];
      var k :| 0 <= k < |ps[1..]| && ps[1..][k] == q;
      assert ps[k + 1] == q;
    }
  }

  /** Two lists sorted strictly by key that hold the same pairs are the same
      list. */
  lemma {:induction false} SortedUnique(a: seq<(string, string)>, b: seq<(string, string)>)
    requires SortedByKey(a) && SortedByKey(b)
    requires multiset(a) == multiset(b)
    ensures a == b
    decreases |a|
  {
    if a != [] && b != [] {
      SortedHeadsEqual(a, b);
      TailMultiset(a);
      TailMultiset(b);
      SortedUnique(a[1..], b[1..]);
      assert a == [a[0]] + a[1..] && b == [b[0]] + b[1..];
    }
  }

  /** The smallest key comes first, so two such lists start alike. */
  lemma SortedHeadsEqual(a: seq<(string, string)>, b: seq<(string, string)>)
    requires SortedByKey(a) && SortedByKey(b)
    requires multiset(a) == multiset(b)
    requires a != [] && b != []
    ensures a[0] == b[0]
  {
    assert a[0] in multiset(b) && b[0] in multiset(a);
    var j :| 0 <= j < |b| && b[j] == a[0];
    var i :| 0 <= i < |a| && a[i] == b[0];
    if a[0] != b[0] {
      assert StrLess(a[0].0, a[i].0);
      assert StrLess(b[0].0, b[j].0);
      StrLessAsymmetric(a[0].0, b[0].0);
    }
  }

  /** Removing the head from a list removes it from the multiset. */
  lemma TailMultiset(a: seq<(string, string)>)
    requires a != []
    ensures multiset(a[1..]) == multiset(a) - multiset{a[0]}
  {
    assert a == [a[0]] + a[1..];
  }

  /** `key=value` for each parameter, in list order. */
  function Pieces(ps: seq<(string, string)>): (r: seq<string>)
    ensures |r| == |ps|
    ensures forall i :: 0 <= i < |ps| ==> r[i] == ps[i].0 + "=" + ps[i].1
  {
    seq(|ps|, i requires 0 <= i < |ps| => ps[i].0 + "=" + ps[i].1)
  }

  /** generateCacheKey(endpoint, params), the parameters given as the
      object's own entries in insertion order. */
  function GenerateCacheKey(endpoint: string, params: seq<(string, string)>): string {
    var paramString := Join(Pieces(SortByKey(params)), "&");
    if paramString != "" then endpoint + "?" + paramString else endpoint
  }

  /** The key has the endpoint alone exactly when there are no parameters,
      and otherwise the sorted pairs after a '?'. */
  lemma CacheKeyShape(endpoint: string, params: seq<(string, string)>)
    requires DistinctKeys(params)
    ensures params == [] ==> GenerateCacheKey(endpoint, params) == endpoint
    ensures params != [] ==>
      GenerateCacheKey(endpoint, params) == endpoint + "?" + Join(Pieces(SortByKey(params)), "&")
  {
    if params != [] {
      SortByKeySorted(params);
      var sorted := SortByKey(params);
      assert |sorted| == |params| by {
        assert |multiset(sorted)| == |multiset(params)|;
      }
      JoinNonEmpty(Pieces(sorted));
    }
  }

  /** Joining pieces that each contain '=' gives a non-empty string. */
  lemma JoinNonEmpty(parts: seq<string>)
    requires |parts| > 0 && forall i :: 0 <= i < |parts| ==> parts[i] != ""
    ensures Join(parts, "&") != ""
  {
    if |parts| > 1 {
      assert parts[0] != "";
    }
  }

  /** The key does not depend on the order in which the parameters were
      added: lists holding the same entries give the same key. */
  lemma CacheKeyOrderIndependent(endpoint: string, p1: seq<(string, string)>, p2: seq<(string, string)>)
    requires DistinctKeys(p1) && DistinctKeys(p2)
    requires multiset(p1) == multiset(p2)
    ensures GenerateCacheKey(endpoint, p1) == GenerateCacheKey(endpoint, p2)
  {
    SortByKeySorted(p1);
    SortByKeySorted(p2);
    SortedUnique(SortByKey(p1), SortByKey(p2));
  }
}
