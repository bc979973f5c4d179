/** The part of `cachetools.TTLCache` the debounce modules rely on: entries
    carry the instant they expire (insertion time plus the time-to-live) and
    are kept in the order they were stored. `expire()` drops entries from the
    oldest on and stops at the first live one. Membership (`key in
    cache.keys()`) compares the expiry with the clock and never refreshes an
    entry. Storing a key still held moves it to the newest position; storing
    a new key into a full cache first evicts the entry stored longest ago.
    Only while expiries stay in storage order, as a clock that never goes
    back keeps them, does `expire()` drop every expired entry.

    Instants are integers (microseconds of `datetime.now`); each call reads the
    clock once. */
module TtlCache {
  import opened Wrappers

  datatype Entry<K> = Entry(key: K, expires: int)

  datatype Cache<K> = Cache(entries: seq<Entry<K>>, capacity: nat, ttl: nat)

  /** No key stored twice. */
  predicate DistinctKeys<K(==,!new)>(es: seq<Entry<K>>) {
    forall i, j :: 0 <= i < j < |es| ==> es[i].key != es[j].key
  }

  /** The representation invariant: a positive `maxsize`, never exceeded, a
      positive time-to-live, and one entry per key. */
  predicate Valid<K(==,!new)>(c: Cache<K>) {
    c.capacity >= 1 && |c.entries| <= c.capacity && c.ttl >= 1 && DistinctKeys(c.entries)
  }

  /** `TTLCache(maxsize, ttl)` before anything is stored. */
  function Empty<K(==,!new)>(capacity: nat, ttl: nat): (c: Cache<K>)
    requires capacity >= 1 && ttl >= 1
    ensures Valid(c)
    ensures c.entries == [] && c.capacity == capacity && c.ttl == ttl
  {
    Cache([], capacity, ttl)
  }

  /** `key in cache` at instant `now`: stored and not yet expired. */
  predicate Live<K(==,!new)>(es: seq<Entry<K>>, key: K, now: int) {
    exists e :: e in es && e.key == key && now < e.expires
  }

  /** `key in cache.keys()` regardless of expiry. */
  predicate Held<K(==,!new)>(es: seq<Entry<K>>, key: K) {
    exists e :: e in es && e.key == key
  }

  /** The expiry of the entry stored under `key`, if any. */
  function ExpiryOf<K(==,!new)>(es: seq<Entry<K>>, key: K): (r: Option<int>)
    ensures r.None? <==> !Held(es, key)
    ensures r.Some? ==> Entry(key, r.value) in es
  {
    if es == [] then None
    else if es[0].key == key then Some(es[0].expires)
    else ExpiryOf(es[1..], key)
  }

  /** Expiries in storage order, which is what a clock that never goes back
      produces. */
  predicate Ordered<K>(es: seq<Entry<K>>) {
    forall i, j :: 0 <= i < j < |es| ==> es[i].expires <= es[j].expires
  }

  /** The entries still live at `now`, in order: the reference `Expire` is
      compared with. */
  function LiveOnly<K(!new)>(es: seq<Entry<K>>, now: int): (r: seq<Entry<K>>)
    ensures forall e :: e in r <==> e in es && now < e.expires
    ensures |r| <= |es|
    decreases |es|
  {
    if es == [] then []
    else
      var rest := LiveOnly(es[1..], now);
      if now < es[0].expires then [es[0]] + rest else rest
  }

  /** How many entries `cache.expire(now)` drops: it walks from the entry
      stored longest ago and stops at the first live one. */
  function Dropped<K>(es: seq<Entry<K>>, now: int): (n: nat)
    ensures n <= |es|
    ensures forall i :: 0 <= i < n ==> es[i].expires <= now
    ensures n < |es| ==> now < es[n].expires
    decreases |es|
  {
    if es == [] || now < es[0].expires then 0 else 1 + Dropped(es[1..], now)
  }

  /** `cache.expire(now)`: what remains after the walk is a suffix that
      starts with a live entry; expired entries behind that one stay. No
      live entry is dropped. */
  function Expire<K(!new)>(es: seq<Entry<K>>, now: int): (r: seq<Entry<K>>)
    ensures |r| <= |es|
    ensures r != [] ==> now < r[0].expires
    ensures forall e :: e in es && now < e.expires ==> e in r
  {
    var n := Dropped(es, now);
    assert forall e :: e in es && now < e.expires ==> e in es[n..] by {
      forall e | e in es && now < e.expires
        ensures e in es[n..]
      {
        var i :| 0 <= i < |es| && es[i] == e;
        assert es[n..][i - n] == e;
      }
    }
    es[n..]
  }

  /** The entries not stored under `key`, in order. */
  function Without<K(==,!new)>(es: seq<Entry<K>>, key: K): (r: seq<Entry<K>>)
    ensures forall e :: e in r <==> e in es && e.key != key
    ensures |r| <= |es|
    ensures Held(es, key) ==> |r| < |es|
    decreases |es|
  {
    if es == [] then []
    else if es[0].key == key then Without(es[1..], key)
    else
      assert Held(es, key) ==> Held(es[1..], key);
      [es[0]] + Without(es[1..], key)
  }

  /** `cache[key] = value` after `expire`. A key still held, live or expired,
      is moved to the newest position with a fresh expiry and evicts nobody.
      A key not held is appended, and when the cache is full the entry stored
      longest ago is evicted first, whether or not it is live. */
  function Store<K(==,!new)>(c: Cache<K>, key: K, now: int): (r: Cache<K>)
    requires Valid(c)
    ensures Valid(r) && r.capacity == c.capacity && r.ttl == c.ttl
    ensures |r.entries| > 0 && r.entries[|r.entries| - 1] == Entry(key, now + c.ttl)
    ensures forall e :: e in r.entries ==> e in c.entries || e == Entry(key, now + c.ttl)
  {
    var kept := if Held(c.entries, key) then Without(c.entries, key)
                else if |c.entries| == c.capacity then c.entries[1..] else c.entries;
    StoreValid(c.entries, kept, key, Entry(key, now + c.ttl));
    c.(entries := kept + [Entry(key, now + c.ttl)])
  }

  /** `should_debounce`: expire, then answer `True` for a live key and leave
      it alone, or store the key with a fresh expiry and answer `False`. */
  function ShouldDebounce<K(==,!new)>(c: Cache<K>, key: K, now: int): (r: (bool, Cache<K>))
    requires Valid(c)
    ensures r.0 <==> Live(c.entries, key, now)
    ensures Valid(r.1) && r.1.capacity == c.capacity && r.1.ttl == c.ttl
    ensures Live(r.1.entries, key, now)
    ensures r.0 ==> ExpiryOf(r.1.entries, key) == ExpiryOf(c.entries, key)
    ensures !r.0 ==> ExpiryOf(r.1.entries, key) == Some(now + c.ttl)
    ensures forall e :: e in r.1.entries ==> e in c.entries || e == Entry(key, now + c.ttl)
    ensures forall k :: k != key && Live(r.1.entries, k, now) ==> Live(c.entries, k, now)
  {
    var live := c.(entries := Expire(c.entries, now));
    if Live(live.entries, key, now) then
      LiveAnswer(c, key, now);
      (true, live)
    else
      StoredAnswer(c, key, now);
      (false, Store(live, key, now))
  }

  // ---------------------------------------------------------------------------
  // Lemmas
  // ---------------------------------------------------------------------------

  /** The debounced branch of `ShouldDebounce`. */
  lemma LiveAnswer<K(!new)>(c: Cache<K>, key: K, now: int)
    requires Valid(c) && Live(Expire(c.entries, now), key, now)
    ensures Live(c.entries, key, now)
    ensures Valid(c.(entries := Expire(c.entries, now)))
    ensures ExpiryOf(Expire(c.entries, now), key) == ExpiryOf(c.entries, key)
    ensures forall e :: e in Expire(c.entries, now) ==> e in c.entries
  {
    ExpirePreservesValid(c, now);
    ExpireKeepsLive(c.entries, now);
    ExpiryOfLive(c.entries, key, now);
  }

  /** The storing branch of `ShouldDebounce`. */
  lemma StoredAnswer<K(!new)>(c: Cache<K>, key: K, now: int)
    requires Valid(c) && !Live(Expire(c.entries, now), key, now)
    ensures !Live(c.entries, key, now)
    ensures Valid(c.(entries := Expire(c.entries, now)))
    ensures var next := Store(c.(entries := Expire(c.entries, now)), key, now);
            && Live(next.entries, key, now)
            && ExpiryOf(next.entries, key) == Some(now + c.ttl)
            && forall e :: e in next.entries ==> e in c.entries || e == Entry(key, now + c.ttl)
  {
    ExpirePreservesValid(c, now);
    ExpireKeepsLive(c.entries, now);
    var next := Store(c.(entries := Expire(c.entries, now)), key, now);
    assert next.entries[|next.entries| - 1] in next.entries;
    ExpiryOfLast(next.entries, key);
  }

  lemma ExpirePreservesValid<K(!new)>(c: Cache<K>, now: int)
    requires Valid(c)
    ensures Valid(c.(entries := Expire(c.entries, now)))
  {
    SuffixDistinct(c.entries, Dropped(c.entries, now));
  }

  lemma SuffixDistinct<K(!new)>(es: seq<Entry<K>>, n: nat)
    requires DistinctKeys(es) && n <= |es|
    ensures DistinctKeys(es[n..])
  {
    forall i, j | 0 <= i < j < |es[n..]|
      ensures es[n..][i].key != es[n..][j].key
    {
      assert es[n..][i] == es[n + i] && es[n..][j] == es[n + j];
    }
  }

  /** `expire` keeps nothing that was not stored. */
  lemma ExpireKeepsLive<K(!new)>(es: seq<Entry<K>>, now: int)
    ensures forall e :: e in es && now < e.expires ==> e in Expire(es, now)
    ensures forall e :: e in Expire(es, now) ==> e in es
  {
    var n := Dropped(es, now);
    assert Expire(es, now) == es[n..];
  }

  /** With expiries in storage order, `expire` drops exactly the expired
      entries: it agrees with the filter. */
  lemma {:induction false} ExpireIsFilterWhenOrdered<K(!new)>(es: seq<Entry<K>>, now: int)
    requires Ordered(es)
    ensures Expire(es, now) == LiveOnly(es, now)
    decreases |es|
  {
    if es != [] {
      assert Ordered(es[1..]) by {
        forall i, j | 0 <= i < j < |es[1..]|
          ensures es[1..][i].expires <= es[1..][j].expires
        {
          assert es[1..][i] == es[i + 1] && es[1..][j] == es[j + 1];
        }
      }
      if now < es[0].expires {
        AllLive(es, now);
      } else {
        ExpireIsFilterWhenOrdered(es[1..], now);
        assert es[1 + Dropped(es[1..], now)..] == es[1..][Dropped(es[1..], now)..];
      }
    }
  }

  /** Every entry of a list in storage order is live when the first one is. */
  lemma {:induction false} AllLive<K(!new)>(es: seq<Entry<K>>, now: int)
    requires Ordered(es) && es != [] && now < es[0].expires
    ensures LiveOnly(es, now) == es
    decreases |es|
  {
    if |es| > 1 {
      assert now < es[1].expires;
      assert Ordered(es[1..]) by {
        forall i, j | 0 <= i < j < |es[1..]|
          ensures es[1..][i].expires <= es[1..][j].expires
        {
          assert es[1..][i] == es[i + 1] && es[1..][j] == es[j + 1];
        }
      }
      AllLive(es[1..], now);
      assert [es[0]] + es[1..] == es;
    }
  }

  lemma {:induction false} WithoutKeepsShape<K(!new)>(es: seq<Entry<K>>, key: K)
    ensures DistinctKeys(es) ==> DistinctKeys(Without(es, key))
    ensures Ordered(es) ==> Ordered(Without(es, key))
    decreases |es|
  {
    if es != [] {
      WithoutKeepsShape(es[1..], key);
      if DistinctKeys(es) {
        SuffixDistinct(es, 1);
      }
      if Ordered(es) {
        assert Ordered(es[1..]) by {
          forall i, j | 0 <= i < j < |es[1..]|
            ensures es[1..][i].expires <= es[1..][j].expires
          {
            assert es[1..][i] == es[i + 1] && es[1..][j] == es[j + 1];
          }
        }
      }
      if es[0].key != key {
        var rest := Without(es[1..], key);
        if DistinctKeys(es) {
          forall e | e in rest
            ensures e.key != es[0].key
          {
            var i :| 0 <= i < |es[1..]| && es[1..][i] == e;
            assert es[i + 1] == e;
          }
          ConsDistinct(es[0], rest);
        }
        if Ordered(es) {
          forall e | e in rest
            ensures es[0].expires <= e.expires
          {
            var i :| 0 <= i < |es[1..]| && es[1..][i] == e;
            assert es[i + 1] == e;
          }
          ConsOrdered(es[0], rest);
        }
      }
    }
  }

  lemma ConsDistinct<K(!new)>(x: Entry<K>, rest: seq<Entry<K>>)
    requires DistinctKeys(rest) && forall e :: e in rest ==> e.key != x.key
    ensures DistinctKeys([x] + rest)
  {
    var r := [x] + rest;
    forall i, j | 0 <= i < j < |r|
      ensures r[i].key != r[j].key
    {
      if i == 0 {
        assert r[j] in rest;
      } else {
        assert r[i] == rest[i - 1] && r[j] == rest[j - 1];
      }
    }
  }

  lemma ConsOrdered<K(!new)>(x: Entry<K>, rest: seq<Entry<K>>)
    requires Ordered(rest) && forall e :: e in rest ==> x.expires <= e.expires
    ensures Ordered([x] + rest)
  {
    var r := [x] + rest;
    forall i, j | 0 <= i < j < |r|
      ensures r[i].expires <= r[j].expires
    {
      if i == 0 {
        assert r[j] in rest;
      } else {
        assert r[i] == rest[i - 1] && r[j] == rest[j - 1];
      }
    }
  }

  lemma AppendDistinct<K(!new)>(kept: seq<Entry<K>>, x: Entry<K>)
    requires DistinctKeys(kept) && forall e :: e in kept ==> e.key != x.key
    ensures DistinctKeys(kept + [x])
  {
    var r := kept + [x];
    forall i, j | 0 <= i < j < |r|
      ensures r[i].key != r[j].key
    {
      assert r[i] == kept[i];
      if j < |kept| {
        assert r[j] == kept[j];
      }
    }
  }

  lemma AppendOrdered<K(!new)>(kept: seq<Entry<K>>, x: Entry<K>)
    requires Ordered(kept) && forall e :: e in kept ==> e.expires <= x.expires
    ensures Ordered(kept + [x])
  {
    var r := kept + [x];
    forall i, j | 0 <= i < j < |r|
      ensures r[i].expires <= r[j].expires
    {
      assert r[i] == kept[i];
      if j < |kept| {
        assert r[j] == kept[j];
      }
    }
  }

  /** What `Store` keeps is distinct by key and free of the stored key. */
  lemma StoreValid<K(!new)>(es: seq<Entry<K>>, kept: seq<Entry<K>>, key: K, x: Entry<K>)
    requires DistinctKeys(es) && x.key == key
    requires Held(es, key) ==> kept == Without(es, key)
    requires !Held(es, key) ==> kept == es || (|es| > 0 && kept == es[1..])
    ensures DistinctKeys(kept + [x])
  {
    WithoutKeepsShape(es, key);
    if !Held(es, key) && |es| > 0 {
      SuffixDistinct(es, 1);
      assert forall e :: e in es[1..] ==> e in es;
    }
    AppendDistinct(kept, x);
  }

  /** With one entry per key, the expiry found is that of every entry under the key. */
  lemma {:induction false} ExpiryOfUnique<K(!new)>(es: seq<Entry<K>>, e: Entry<K>)
    requires DistinctKeys(es) && e in es
    ensures ExpiryOf(es, e.key) == Some(e.expires)
    decreases |es|
  {
    if es[0] != e {
      var i :| 0 <= i < |es| && es[i] == e;
      assert es[1..][i - 1] == e;
      assert DistinctKeys(es[1..]) by {
        forall a, b | 0 <= a < b < |es[1..]|
          ensures es[1..][a].key != es[1..][b].key
        {
          assert es[1..][a] == es[a + 1] && es[1..][b] == es[b + 1];
        }
      }
      ExpiryOfUnique(es[1..], e);
    }
  }

  /** Expiring keeps the entry of a key that is still live. */
  lemma ExpiryOfLive<K(!new)>(es: seq<Entry<K>>, key: K, now: int)
    requires DistinctKeys(es) && Live(Expire(es, now), key, now)
    ensures Live(es, key, now)
    ensures ExpiryOf(Expire(es, now), key) == ExpiryOf(es, key)
  {
    ExpireKeepsLive(es, now);
    SuffixDistinct(es, Dropped(es, now));
    var e :| e in Expire(es, now) && e.key == key && now < e.expires;
    ExpiryOfUnique(es, e);
    ExpiryOfUnique(Expire(es, now), e);
  }

  lemma ExpiryOfLast<K(!new)>(es: seq<Entry<K>>, key: K)
    requires DistinctKeys(es) && |es| > 0 && es[|es| - 1].key == key
    ensures ExpiryOf(es, key) == Some(es[|es| - 1].expires)
  {
    ExpiryOfUnique(es, es[|es| - 1]);
  }

  /** The debounce window: once a call has stored `key` at `t`, a later call
      at `t'` is debounced exactly when `t'` is less than one time-to-live
      after `t`. The debounced answers do not extend the window. */
  lemma DebounceWindow<K(!new)>(c: Cache<K>, key: K, t: int, t': int)
    requires Valid(c) && t <= t' && !ShouldDebounce(c, key, t).0
    ensures ShouldDebounce(ShouldDebounce(c, key, t).1, key, t').0 <==> t' < t + c.ttl
  {
    var next := ShouldDebounce(c, key, t).1;
    var e := Entry(key, t + c.ttl);
    assert e in next.entries;
    if Live(next.entries, key, t') {
      var f :| f in next.entries && f.key == key && t' < f.expires;
      ExpiryOfUnique(next.entries, f);
    }
  }

  /** A debounced call leaves every key's expiry where it was: `in` does not
      refresh entries. */
  lemma DebouncedKeepsExpiries<K(!new)>(c: Cache<K>, key: K, now: int, other: K)
    requires Valid(c) && ShouldDebounce(c, key, now).0 && Live(c.entries, other, now)
    ensures ExpiryOf(ShouldDebounce(c, key, now).1.entries, other) == ExpiryOf(c.entries, other)
  {
    var f :| f in c.entries && f.key == other && now < f.expires;
    ExpirePreservesValid(c, now);
    ExpiryOfUnique(c.entries, f);
    ExpiryOfUnique(Expire(c.entries, now), f);
  }

  /** Storing a key evicts nobody when the entries left after `expire`,
      expired ones behind a live entry included, leave room, or when the key
      is still held: every key live before the call is live after it. */
  lemma StoreKeepsOthers<K(!new)>(c: Cache<K>, key: K, now: int, other: K)
    requires Valid(c) && Live(c.entries, other, now)
    requires |Expire(c.entries, now)| < c.capacity || Held(Expire(c.entries, now), key)
    ensures Live(ShouldDebounce(c, key, now).1.entries, other, now)
  {
    ExpireKeepsLive(c.entries, now);
    var f :| f in c.entries && f.key == other && now < f.expires;
    var live := c.(entries := Expire(c.entries, now));
    if other != key && !Live(live.entries, key, now) {
      ExpirePreservesValid(c, now);
      StoreKeeps(live, key, now, f);
    }
  }

  /** A new key stored into a cache whose entries after `expire` fill it
      evicts the entry stored longest ago, which is live: `expire` stops at
      the first live entry, so expired entries behind it take up room while
      a live key goes. */
  lemma FullCacheEvictsOldest<K(!new)>(c: Cache<K>, key: K, now: int)
    requires Valid(c) && !Held(Expire(c.entries, now), key) && |Expire(c.entries, now)| == c.capacity
    ensures var oldest := Expire(c.entries, now)[0];
            && Live(c.entries, oldest.key, now)
            && !Live(ShouldDebounce(c, key, now).1.entries, oldest.key, now)
  {
    var live := Expire(c.entries, now);
    ExpirePreservesValid(c, now);
    ExpireKeepsLive(c.entries, now);
    assert live[0] in live;
    var next := ShouldDebounce(c, key, now).1;
    assert next.entries == live[1..] + [Entry(key, now + c.ttl)];
    EvictedGone(live, Entry(key, now + c.ttl));
  }

  /** An entry under another key survives `Store` when the key is still held
      or the cache has room. */
  lemma StoreKeeps<K(!new)>(c: Cache<K>, key: K, now: int, e: Entry<K>)
    requires Valid(c) && e in c.entries && e.key != key
    requires Held(c.entries, key) || |c.entries| < c.capacity
    ensures e in Store(c, key, now).entries
  {
  }

  /** Key 1 is live until 10 and stored before key 2, which expired at 5. At
      7, `expire` stops at key 1 and key 2 stays, so the cache of two is full
      and storing key 3 evicts the live key 1. */
  lemma ExpiredBehindLiveTakesRoom()
    ensures var c := Cache([Entry(1, 10), Entry(2, 5)], 2, 3);
            && Valid(c) && Live(c.entries, 1, 7)
            && !ShouldDebounce(c, 3, 7).0
            && !Live(ShouldDebounce(c, 3, 7).1.entries, 1, 7)
  {
    var c := Cache([Entry(1, 10), Entry(2, 5)], 2, 3);
    assert Expire(c.entries, 7) == c.entries;
    assert Entry(1, 10) in c.entries;
    FullCacheEvictsOldest(c, 3, 7);
  }

  /** With a clock that does not go back, every stored expiry is at most one
      time-to-live after the current instant, and a call keeps the expiries in
      storage order, so `expire` keeps dropping exactly the expired entries
      (`ExpireIsFilterWhenOrdered`). */
  lemma ShouldDebounceKeepsOrder<K(!new)>(c: Cache<K>, key: K, now: int)
    requires Valid(c) && Ordered(c.entries)
    requires forall e :: e in c.entries ==> e.expires <= now + c.ttl
    ensures Ordered(ShouldDebounce(c, key, now).1.entries)
  {
    ExpireOrdered(c.entries, now);
    ExpireKeepsLive(c.entries, now);
    if !Live(Expire(c.entries, now), key, now) {
      ExpirePreservesValid(c, now);
      StoreOrdered(c.(entries := Expire(c.entries, now)), key, now);
    }
  }

  lemma ExpireOrdered<K(!new)>(es: seq<Entry<K>>, now: int)
    requires Ordered(es)
    ensures Ordered(Expire(es, now))
  {
    var n := Dropped(es, now);
    var live := es[n..];
    forall i, j | 0 <= i < j < |live|
      ensures live[i].expires <= live[j].expires
    {
      assert live[i] == es[n + i] && live[j] == es[n + j];
    }
  }

  lemma StoreOrdered<K(!new)>(c: Cache<K>, key: K, now: int)
    requires Valid(c) && Ordered(c.entries)
    requires forall e :: e in c.entries ==> e.expires <= now + c.ttl
    ensures Ordered(Store(c, key, now).entries)
  {
    var es := c.entries;
    var kept := if Held(es, key) then Without(es, key)
                else if |es| == c.capacity then es[1..] else es;
    WithoutKeepsShape(es, key);
    if !Held(es, key) && |es| == c.capacity {
      assert Ordered(es[1..]) by {
        forall i, j | 0 <= i < j < |es[1..]|
          ensures es[1..][i].expires <= es[1..][j].expires
        {
          assert es[1..][i] == es[i + 1] && es[1..][j] == es[j + 1];
        }
      }
      assert forall e :: e in es[1..] ==> e in es;
    }
    AppendOrdered(kept, Entry(key, now + c.ttl));
  }

  /** Dropping the first entry of a list with one entry per key, then adding
      an entry for another key, leaves no entry for the first key. */
  lemma EvictedGone<K(!new)>(live: seq<Entry<K>>, added: Entry<K>)
    requires |live| > 0 && DistinctKeys(live) && added.key != live[0].key
    ensures forall e :: e in live[1..] + [added] ==> e.key != live[0].key
  {
    forall e | e in live[1..] + [added]
      ensures e.key != live[0].key
    {
      if e != added {
        var i :| 0 <= i < |live[1..]| && live[1..][i] == e;
        assert live[i + 1] == e;
      }
    }
  }
}
