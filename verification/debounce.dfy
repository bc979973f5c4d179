/** The two debounce caches: one per-user cache for roll commands (up to 5000
    users, one minute each) and a single-slot cache that keeps the unmute
    sweep from running more than once a second. The module-level caches of the
    source become values passed in and returned. */
module Debounce {
  import TtlCache

  /** Microseconds per second; instants are `datetime.now` in microseconds. */
  const Second: nat := 1_000_000

  const RollCapacity: nat := 5000
  const RollTtl: nat := 60 * Second

  const UnmuteCapacity: nat := 1
  const UnmuteTtl: nat := Second
  const UnmuteKey: string := "unmute"

  /** The roll cache as created at import time. */
  function RollCache(): (c: TtlCache.Cache<nat>)
    ensures TtlCache.Valid(c) && c.entries == []
    ensures c.capacity == RollCapacity && c.ttl == RollTtl
  {
    TtlCache.Empty(RollCapacity, RollTtl)
  }

  /** The unmute cache as created at import time. */
  function UnmuteCache(): (c: TtlCache.Cache<string>)
    ensures TtlCache.Valid(c) && c.entries == []
    ensures c.capacity == UnmuteCapacity && c.ttl == UnmuteTtl
  {
    TtlCache.Empty(UnmuteCapacity, UnmuteTtl)
  }

  predicate IsRollCache(c: TtlCache.Cache<nat>) {
    TtlCache.Valid(c) && c.capacity == RollCapacity && c.ttl == RollTtl
  }

  predicate IsUnmuteCache(c: TtlCache.Cache<string>) {
    TtlCache.Valid(c) && c.capacity == UnmuteCapacity && c.ttl == UnmuteTtl
    && forall e :: e in c.entries ==> e.key == UnmuteKey
  }

  /** `roll.debounce.should_debounce(user_id)`: debounced exactly when the
      user was stored less than a minute ago. */
  function ShouldDebounceUser(c: TtlCache.Cache<nat>, userId: nat, now: int): (r: (bool, TtlCache.Cache<nat>))
    requires IsRollCache(c)
    ensures r.0 <==> TtlCache.Live(c.entries, userId, now)
    ensures IsRollCache(r.1) && |r.1.entries| <= RollCapacity
    ensures TtlCache.Live(r.1.entries, userId, now)
  {
    TtlCache.ShouldDebounce(c, userId, now)
  }

  /** `unmute.debounce.should_debounce()`: the cache never holds anything but
      the one key, so at most one entry. */
  function ShouldDebounceUnmute(c: TtlCache.Cache<string>, now: int): (r: (bool, TtlCache.Cache<string>))
    requires IsUnmuteCache(c)
    ensures r.0 <==> TtlCache.Live(c.entries, UnmuteKey, now)
    ensures IsUnmuteCache(r.1) && |r.1.entries| <= 1
  {
    TtlCache.ShouldDebounce(c, UnmuteKey, now)
  }

  /** A user who was let through at `t` is debounced at `t'` exactly when
      `t'` is less than a minute later. */
  lemma UserWindow(c: TtlCache.Cache<nat>, userId: nat, t: int, t': int)
    requires IsRollCache(c) && t <= t' && !ShouldDebounceUser(c, userId, t).0
    ensures ShouldDebounceUser(ShouldDebounceUser(c, userId, t).1, userId, t').0 <==> t' < t + 60 * Second
  {
    TtlCache.DebounceWindow(c, userId, t, t');
  }

  /** After a sweep let through at `t`, the next one is held back exactly when
      it comes less than a second later. */
  lemma UnmuteWindow(c: TtlCache.Cache<string>, t: int, t': int)
    requires IsUnmuteCache(c) && t <= t' && !ShouldDebounceUnmute(c, t).0
    ensures ShouldDebounceUnmute(ShouldDebounceUnmute(c, t).1, t').0 <==> t' < t + Second
  {
    TtlCache.DebounceWindow(c, UnmuteKey, t, t');
  }

  /** While fewer than 5000 entries remain after `expire()`, expired ones
      behind a live entry included, rolling for one user never changes
      whether another user is debounced. */
  lemma UsersIndependent(c: TtlCache.Cache<nat>, userId: nat, other: nat, now: int)
    requires IsRollCache(c) && userId != other && |TtlCache.Expire(c.entries, now)| < RollCapacity
    ensures TtlCache.Live(ShouldDebounceUser(c, userId, now).1.entries, other, now) <==> TtlCache.Live(c.entries, other, now)
  {
    if TtlCache.Live(c.entries, other, now) {
      TtlCache.StoreKeepsOthers(c, userId, now, other);
    }
  }
}
