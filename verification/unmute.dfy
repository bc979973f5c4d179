/** The `Unmute` cog of `unmute/cog.py`: a periodic task that scans the
    ledger for guild keys, finds the members whose timeout has ended, and
    lifts the timeout roles of those who still hold one.

    Its helpers are copies of the ledger functions with the prefix written
    out as `roulette_timeout_live_`, so the model reuses `Ledger` with that
    prefix. The held-role check compares against the configured ids as
    written; `_get_timeout_roles` reads them with `int()`. */
module Unmute {
  import opened Wrappers
  import opened Text
  import Policy
  import Ledger
  import Iteration

  /** The `SCAN` pattern, without its trailing `*`. */
  const KeyPattern: string := "roulette_timeout_live"

  /** The key of a guild is this prefix followed by the guild id. */
  const KeyPrefix: string := KeyPattern + "_"

  /** `set(config.timeout_roles())`. */
  function Listed(configured: seq<string>): (r: set<string>)
    ensures forall s :: s in r <==> exists i :: 0 <= i < |configured| && configured[i] == s
  {
    set s | s in configured
  }

  /** What one run of `unmute_loop` reads: the ledger under `KeyPrefix`, the
      clock and the configured timeout role ids. */
  function ScanOf(store: Ledger.Store, nowMicros: int, configured: seq<string>, guilds: map<int, Ledger.Guild>)
    : (s: Ledger.Scan)
    ensures s.prefix == KeyPrefix && s.parse == ParseInt
    ensures forall g :: s.Candidates(g) == Ledger.FetchCandidates(store, KeyPrefix, g, nowMicros)
    ensures forall id :: id in s.timeoutIds <==> id in configured
  {
    Ledger.Scan(store, KeyPrefix, nowMicros, Listed(configured), configured, ParseInt, guilds)
  }

  /** The prefix is exactly as long as the `key[22:]` slice assumes. */
  lemma PrefixFillsSlice()
    ensures |KeyPrefix| == Ledger.KeySliceStart
  {
  }

  /** Every key written under `KeyPrefix` yields its guild id back. */
  lemma KeyRoundTrip(guildId: int)
    ensures Ledger.GuildIdOf(Ledger.GuildKey(KeyPrefix, guildId)) == Some(guildId)
  {
    Ledger.GuildKeyRoundTrip(KeyPrefix, guildId);
  }

  /** `_get_guild_ids` over a ledger whose keys are all written by
      `_upload_timeout` under `KeyPrefix` returns exactly the recorded
      guilds. */
  lemma GuildIdsOfWrittenKeys(keys: set<string>, guildIds: set<int>)
    requires forall k :: k in keys <==> exists g :: g in guildIds && k == Ledger.GuildKey(KeyPrefix, g)
    ensures Ledger.GuildIds(keys) == Success(guildIds)
  {
    forall k | k in keys
      ensures Ledger.GuildIdOf(k).Some?
    {
      var g :| g in guildIds && k == Ledger.GuildKey(KeyPrefix, g);
      KeyRoundTrip(g);
    }
    var r := Ledger.GuildIds(keys);
    assert r.Success?;
    forall g
      ensures g in r.value <==> g in guildIds
    {
      if g in guildIds {
        KeyRoundTrip(g);
        assert Ledger.GuildKey(KeyPrefix, g) in keys;
      }
      if g in r.value {
        var k :| k in keys && Ledger.GuildIdOf(k) == Some(g);
        var h :| h in guildIds && k == Ledger.GuildKey(KeyPrefix, h);
        KeyRoundTrip(h);
      }
    }
    assert r.value == guildIds;
  }

  /** `unmute_loop`: `_get_guild_ids` over the `SCAN` replies, then
      `_unmute` over the guilds in `guildOrder` and each guild's due members
      in `memberOrders`. The ledger is only read, so no entry is removed.
      Returns the role removals, how the run ended, and the number of `SCAN`
      calls. */
  method UnmuteLoop(
    store: Ledger.Store, nowMicros: int, configured: seq<string>, guilds: map<int, Ledger.Guild>,
    replies: seq<Ledger.ScanReply>, guildOrder: seq<int>, memberOrders: map<int, seq<nat>>)
    returns (removals: seq<Ledger.Removal>, outcome: Ledger.SweepOutcome, calls: nat)
    requires exists i :: 0 <= i < |replies| && replies[i].cursor == 0
    requires Ledger.GuildIds(Ledger.ScannedKeys(replies)).Success? ==>
               var ids := Ledger.GuildIds(Ledger.ScannedKeys(replies)).value;
               Iteration.Enumerates(guildOrder, ids)
               && forall g :: g in ids ==>
                    g in memberOrders
                    && Iteration.Enumerates(memberOrders[g], Ledger.FetchCandidates(store, KeyPrefix, g, nowMicros))
    ensures calls == Ledger.FirstDone(replies) + 1
    ensures outcome == Ledger.Raised(Ledger.BadGuildKey) <==>
              exists k :: k in Ledger.ScannedKeys(replies) && Ledger.GuildIdOf(k).None?
    ensures outcome == Ledger.Raised(Ledger.BadGuildKey) ==> removals == []
    ensures outcome != Ledger.Raised(Ledger.BadGuildKey) ==>
              var ids := Ledger.GuildIds(Ledger.ScannedKeys(replies)).value;
              ScanOf(store, nowMicros, configured, guilds).AllJustified(ids, removals)
    ensures outcome == Ledger.Completed ==>
              var ids := Ledger.GuildIds(Ledger.ScannedKeys(replies)).value;
              forall g :: g in ids ==>
                Ledger.FetchCandidates(store, KeyPrefix, g, nowMicros) != {}
                && ScanOf(store, nowMicros, configured, guilds).Covered(g, removals)
    ensures outcome.StoppedAt? ==>
              outcome.guildId in Ledger.GuildIds(Ledger.ScannedKeys(replies)).value
              && Ledger.FetchCandidates(store, KeyPrefix, outcome.guildId, nowMicros) == {}
    ensures outcome.StoppedAt? ==>
              var scan := ScanOf(store, nowMicros, configured, guilds);
              exists k :: 0 <= k < |guildOrder| && guildOrder[k] == outcome.guildId
                          && scan.SweptPrefix(guildOrder, k, removals) && Ledger.RemovalsAmong(guildOrder, k, removals)
    ensures outcome.Raised? && outcome != Ledger.Raised(Ledger.BadGuildKey) ==>
              var scan := ScanOf(store, nowMicros, configured, guilds);
              exists k :: 0 <= k < |guildOrder| && scan.Candidates(guildOrder[k]) != {}
                          && scan.Fails(guildOrder[k], outcome.error)
                          && scan.SweptPrefix(guildOrder, k, removals) && Ledger.RemovalsAmong(guildOrder, k + 1, removals)
  {
    var keys;
    keys, calls := Ledger.CollectKeys(replies);
    var ids := Ledger.GuildIds(keys);
    if ids.Failure? {
      return [], Ledger.Raised(ids.error), calls;
    }
    var scan := ScanOf(store, nowMicros, configured, guilds);
    removals, outcome := Ledger.Sweep(scan, ids.value, guildOrder, memberOrders);
  }

  /** A member whose recorded timeout has ended, who still holds a timeout
      role, and whose guild is swept to the end has the guild's resolved
      timeout roles removed. */
  lemma ExpiredTimeoutLifted(
    store: Ledger.Store, nowMicros: int, configured: seq<string>, guilds: map<int, Ledger.Guild>,
    guildId: int, userId: nat, removals: seq<Ledger.Removal>)
    requires userId in Ledger.ScoresAt(store, Ledger.GuildKey(KeyPrefix, guildId))
    requires Ledger.ScoresAt(store, Ledger.GuildKey(KeyPrefix, guildId))[userId] <= Ledger.NowSeconds(nowMicros)
    requires guildId in guilds && userId in guilds[guildId].members
    requires exists r :: r in guilds[guildId].members[userId] && IntToString(r) in configured
    requires ScanOf(store, nowMicros, configured, guilds).Covered(guildId, removals)
    ensures exists roles :: Ledger.Removal(guildId, userId, roles) in removals
  {
    var scan := ScanOf(store, nowMicros, configured, guilds);
    var r :| r in guilds[guildId].members[userId] && IntToString(r) in configured;
    assert IntToString(r) in scan.timeoutIds && IntToString(r) in Policy.RoleKeys(guilds[guildId].members[userId]);
    assert Ledger.HoldsTimeoutRole(guilds[guildId].members[userId], scan.timeoutIds);
    assert Ledger.Removal(guildId, userId, scan.RolesOf(guildId).value) in removals;
  }
}
