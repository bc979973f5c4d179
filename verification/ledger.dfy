/** The timeout ledger of `database/redis_db.py` and `database/action.py`,
    and the sweep that lifts expired timeout roles.

    Redis becomes a map from key to sorted set, and a sorted set a map from
    member id to score. A guild's key is the configured prefix followed by
    the guild id; a score is the POSIX second at which the timeout ends.
    The guilds the bot sees become a map from guild id to its roles and its
    members' roles; role removals are returned as records. Instants are
    microseconds, read once per call. */
module Ledger {
  import opened Wrappers
  import opened Text
  import Policy
  import Iteration

  const MicrosPerSecond: nat := 1_000_000
  const MicrosPerMinute: nat := 60 * MicrosPerSecond

  /** Guild ids are read from `key[22:]`, whatever the prefix. */
  const KeySliceStart: nat := 22

  type Scores = map<nat, int>
  type Store = map<string, Scores>

  /** `prefix + str(guild_id)`. */
  function GuildKey(prefix: string, guildId: int): string {
    prefix + IntToString(guildId)
  }

  /** `int(x)` of a float quotient: division rounding toward zero. */
  function TruncDiv(a: int, b: nat): (q: int)
    requires b > 0
    ensures a >= 0 ==> q * b <= a < q * b + b
    ensures a < 0 ==> q * b - b < a <= q * b
  {
    if a >= 0 then a / b else -((-a) / b)
  }

  /** `int((datetime.now() + timedelta(minutes=minutes)).timestamp())`. */
  function Score(nowMicros: int, minutes: int): int {
    TruncDiv(nowMicros + minutes * MicrosPerMinute, MicrosPerSecond)
  }

  /** `int(datetime.now().timestamp())`. */
  function NowSeconds(nowMicros: int): int {
    TruncDiv(nowMicros, MicrosPerSecond)
  }

  /** The sorted set under `key`; Redis reads a missing key as empty. */
  function ScoresAt(store: Store, key: string): Scores {
    if key in store then store[key] else map[]
  }

  // ---------------------------------------------------------------------------
  // Recording a timeout
  // ---------------------------------------------------------------------------

  /** `_upload_timeout`: `ZADD key {user: score}` and the number of members
      it added. */
  function UploadTimeout(store: Store, prefix: string, guildId: int, userId: nat, nowMicros: int, minutes: int)
    : (r: (Store, nat))
    ensures var key := GuildKey(prefix, guildId);
            key in r.0 && userId in r.0[key] && r.0[key][userId] == Score(nowMicros, minutes)
    ensures var key := GuildKey(prefix, guildId);
            r.1 == (if userId in ScoresAt(store, key) then 0 else 1)
    ensures var key := GuildKey(prefix, guildId);
            r.0.Keys == store.Keys + {key}
            && (forall k :: k in store && k != key ==> r.0[k] == store[k])
            && r.0[key].Keys == ScoresAt(store, key).Keys + {userId}
            && (forall u :: u in ScoresAt(store, key) && u != userId ==> r.0[key][u] == store[key][u])
  {
    var key := GuildKey(prefix, guildId);
    var scores := ScoresAt(store, key);
    var added := if userId in scores then 0 else 1;
    (store[key := scores[userId := Score(nowMicros, minutes)]], added)
  }

  /** `add_timeout`: records the timeout and nothing else. */
  function AddTimeout(store: Store, prefix: string, guildId: int, userId: nat, nowMicros: int, minutes: int): (r: Store)
    ensures var key := GuildKey(prefix, guildId);
            key in r && userId in r[key] && r[key][userId] == Score(nowMicros, minutes)
    ensures r.Keys == store.Keys + {GuildKey(prefix, guildId)}
    ensures forall k :: k in store && k != GuildKey(prefix, guildId) ==> r[k] == store[k]
    ensures var key := GuildKey(prefix, guildId);
            r[key].Keys == ScoresAt(store, key).Keys + {userId}
            && (forall u :: u in ScoresAt(store, key) && u != userId ==> r[key][u] == store[key][u])
  {
    UploadTimeout(store, prefix, guildId, userId, nowMicros, minutes).0
  }

  /** Recording the same timeout twice leaves one entry, and the second
      write adds no member. */
  lemma RecordingIsIdempotent(store: Store, prefix: string, guildId: int, userId: nat, nowMicros: int, minutes: int)
    ensures var (once, _) := UploadTimeout(store, prefix, guildId, userId, nowMicros, minutes);
            UploadTimeout(once, prefix, guildId, userId, nowMicros, minutes) == (once, 0)
  {
    var key := GuildKey(prefix, guildId);
    var once := UploadTimeout(store, prefix, guildId, userId, nowMicros, minutes).0;
    var twice := UploadTimeout(once, prefix, guildId, userId, nowMicros, minutes).0;
    assert twice[key] == once[key];
    assert twice == once;
  }

  /** A later recording for the same member replaces the earlier score. */
  lemma RecordingOverwrites(store: Store, prefix: string, guildId: int, userId: nat, t1: int, m1: int, t2: int, m2: int)
    ensures var first := UploadTimeout(store, prefix, guildId, userId, t1, m1).0;
            var key := GuildKey(prefix, guildId);
            UploadTimeout(first, prefix, guildId, userId, t2, m2).0[key][userId] == Score(t2, m2)
            && UploadTimeout(first, prefix, guildId, userId, t2, m2).1 == 0
  {
  }

  // ---------------------------------------------------------------------------
  // Due candidates
  // ---------------------------------------------------------------------------

  /** `_fetch_candidates`: members of the guild's sorted set whose score is
      not after the current second. */
  function FetchCandidates(store: Store, prefix: string, guildId: int, nowMicros: int): (r: set<nat>)
    ensures forall u :: u in r <==>
              u in ScoresAt(store, GuildKey(prefix, guildId)) && ScoresAt(store, GuildKey(prefix, guildId))[u] <= NowSeconds(nowMicros)
  {
    var scores := ScoresAt(store, GuildKey(prefix, guildId));
    set u | u in scores && scores[u] <= NowSeconds(nowMicros)
  }

  /** A recorded member becomes due exactly once the current second reaches
      the recorded score. */
  lemma DueOnceScoreReached(store: Store, prefix: string, guildId: int, userId: nat, nowMicros: int, minutes: int, later: int)
    ensures var recorded := AddTimeout(store, prefix, guildId, userId, nowMicros, minutes);
            userId in FetchCandidates(recorded, prefix, guildId, later) <==> Score(nowMicros, minutes) <= NowSeconds(later)
  {
  }

  /** The current second never decreases, so once due, always due. */
  lemma CandidatesGrow(store: Store, prefix: string, guildId: int, t: int, t': int)
    requires t <= t'
    ensures FetchCandidates(store, prefix, guildId, t) <= FetchCandidates(store, prefix, guildId, t')
  {
    NowSecondsMonotone(t, t');
  }

  lemma NowSecondsMonotone(t: int, t': int)
    requires t <= t'
    ensures NowSeconds(t) <= NowSeconds(t')
  {
  }

  /** A timeout of `m` minutes recorded at a whole second is due exactly `m`
      minutes later. */
  lemma ScoreIsEndOfTimeout(seconds: nat, minutes: nat)
    ensures Score(seconds * MicrosPerSecond, minutes) == seconds + minutes * 60
  {
    var a := seconds * MicrosPerSecond + minutes * MicrosPerMinute;
    assert a == (seconds + minutes * 60) * MicrosPerSecond;
  }

  // ---------------------------------------------------------------------------
  // Guild ids from the key scan
  // ---------------------------------------------------------------------------

  /** One `SCAN` reply: the next cursor and a batch of keys. */
  datatype ScanReply = ScanReply(cursor: nat, keys: set<string>)

  /** Index of the first reply whose cursor is zero. */
  function FirstDone(replies: seq<ScanReply>): (i: nat)
    requires exists i :: 0 <= i < |replies| && replies[i].cursor == 0
    ensures i < |replies| && replies[i].cursor == 0
    ensures forall j :: 0 <= j < i ==> replies[j].cursor != 0
  {
    if replies[0].cursor == 0 then 0
    else
      assert exists i :: 0 <= i < |replies[1..]| && replies[1..][i].cursor == 0 by {
        var i :| 0 <= i < |replies| && replies[i].cursor == 0;
        assert replies[1..][i - 1] == replies[i];
      }
      1 + FirstDone(replies[1..])
  }

  /** The keys a complete scan returns: every batch up to and including the
      reply with cursor zero. */
  function ScannedKeys(replies: seq<ScanReply>): set<string>
    requires exists i :: 0 <= i < |replies| && replies[i].cursor == 0
  {
    set i, k | 0 <= i <= FirstDone(replies) && k in replies[i].keys :: k
  }

  /** The `while True: scan ... if cursor == 0: break` loop: the union of the
      batches up to and including the reply with cursor zero. */
  method CollectKeys(replies: seq<ScanReply>) returns (keys: set<string>, calls: nat)
    requires exists i :: 0 <= i < |replies| && replies[i].cursor == 0
    ensures calls == FirstDone(replies) + 1
    ensures forall k :: k in keys <==> exists i :: 0 <= i < calls && k in replies[i].keys
    ensures keys == ScannedKeys(replies)
  {
    keys := {};
    calls := 0;
    var done := false;
    while !done
      invariant calls <= FirstDone(replies) + 1
      invariant done <==> calls == FirstDone(replies) + 1
      invariant forall k :: k in keys <==> exists i :: 0 <= i < calls && k in replies[i].keys
      decreases FirstDone(replies) + 1 - calls, !done
    {
      var reply := replies[calls];
      keys := keys + reply.keys;
      calls := calls + 1;
      done := reply.cursor == 0;
    }
    assert forall k :: k in ScannedKeys(replies) ==> k in keys;
  }

  /** Python's `key[22:]`: empty when the key is shorter. */
  function Suffix(key: string): string {
    if |key| >= KeySliceStart then key[KeySliceStart..] else ""
  }

  /** `int(key[22:])`, `None` for the `ValueError`. */
  function GuildIdOf(key: string): Option<int> {
    ParseInt(Suffix(key))
  }

  datatype SweepError =
    | BadGuildKey                            // `int(key[22:])` raised
    | GuildUnavailable(guildId: int)         // `get_guild` returned `None`
    | BadRoleId                              // `int(role_id)` of a configured id raised
    | MemberNotFound(guildId: int, userId: nat)  // `fetch_member` raised

  /** The `for key in guild_keys: guild_ids.add(int(key[22:]))` loop. */
  function GuildIds(keys: set<string>): (r: Result<set<int>, SweepError>)
    ensures r.Failure? <==> exists k :: k in keys && GuildIdOf(k).None?
    ensures r.Failure? ==> r.error == BadGuildKey
    ensures r.Success? ==> forall g :: g in r.value <==> exists k :: k in keys && GuildIdOf(k) == Some(g)
  {
    match ParseAll(keys, GuildIdOf)
    case None => Failure(BadGuildKey)
    case Some(ids) => Success(ids)
  }

  /** Parses every element of a set, failing when any element does not parse. */
  function ParseAll(xs: set<string>, parse: string -> Option<int>): (r: Option<set<int>>)
    ensures r.None? <==> exists x :: x in xs && parse(x).None?
    ensures r.Some? ==> forall v :: v in r.value <==> exists x :: x in xs && parse(x) == Some(v)
  {
    if exists x :: x in xs && parse(x).None? then None
    else Some(set x | x in xs :: parse(x).value)
  }

  /** With a 22-character prefix the slice recovers the guild id of every
      key the ledger writes. */
  lemma GuildKeyRoundTrip(prefix: string, guildId: int)
    requires |prefix| == KeySliceStart
    ensures GuildIdOf(GuildKey(prefix, guildId)) == Some(guildId)
  {
    assert GuildKey(prefix, guildId)[KeySliceStart..] == IntToString(guildId);
    ParseIntOfIntToString(guildId);
  }

  /** With a shorter prefix the slice cuts into the id: a 21-character prefix
      reads guild 123 as guild 23. */
  lemma ShortPrefixMisreadsId()
    ensures GuildIdOf(GuildKey("roulette_timeout_live", 123)) == Some(23)
  {
    var key := GuildKey("roulette_timeout_live", 123);
    assert IntToString(123) == "123" by {
      assert NatToString(123) == NatToString(12) + [DigitChar(3)];
      assert NatToString(12) == NatToString(1) + [DigitChar(2)];
    }
    assert Suffix(key) == "23";
    ParseIntOfIntToString(23);
    assert IntToString(23) == "23" by {
      assert NatToString(23) == NatToString(2) + [DigitChar(3)];
    }
  }

  // ---------------------------------------------------------------------------
  // Timeout roles
  // ---------------------------------------------------------------------------

  /** The configured id names a role of the guild: `guild.get_role(int(id))`. */
  predicate Resolves(roleId: string, guildRoles: set<nat>) {
    ParseInt(roleId).Some? && ParseInt(roleId).value >= 0 && ParseInt(roleId).value as nat in guildRoles
  }

  /** `_get_timeout_roles(guild)`: the configured ids, as written, that
      resolve in the guild; `int()` of any configured id may raise first. */
  function TimeoutRoleIds(configured: seq<string>, guildRoles: set<nat>): (r: Result<set<string>, SweepError>)
    ensures r.Failure? <==> exists i :: 0 <= i < |configured| && ParseInt(configured[i]).None?
    ensures r.Failure? ==> r.error == BadRoleId
    ensures r.Success? ==> forall s :: s in r.value <==> s in configured && Resolves(s, guildRoles)
  {
    ResolveRoles(configured, guildRoles, ParseInt)
  }

  /** `_get_timeout_roles` for any reading of role ids. */
  function ResolveRoles(configured: seq<string>, guildRoles: set<nat>, parse: string -> Option<int>)
    : (r: Result<set<string>, SweepError>)
    ensures r.Failure? <==> exists i :: 0 <= i < |configured| && parse(configured[i]).None?
    ensures r.Failure? ==> r.error == BadRoleId
    ensures r.Success? ==> forall s :: s in r.value <==>
              s in configured && parse(s).Some? && parse(s).value >= 0 && parse(s).value as nat in guildRoles
  {
    if exists i :: 0 <= i < |configured| && parse(configured[i]).None? then Failure(BadRoleId)
    else Success(set s | s in configured && parse(s).Some? && parse(s).value >= 0 && parse(s).value as nat in guildRoles)
  }

  /** The outcome of `_apply_timeout_roles`: the roles added, in order, and
      whether a configured id stopped the loop by raising. */
  datatype RoleGrant = RoleGrant(added: seq<nat>, raised: bool)

  /** The loop reaches the configured id at index `i`: every id before it
      was read without raising. */
  predicate Reached(configured: seq<string>, parse: string -> Option<int>, i: nat)
    requires i <= |configured|
  {
    forall j :: 0 <= j < i ==> parse(configured[j]).Some?
  }

  /** `_apply_timeout_roles(target, label)`: adds each configured role that
      resolves in the guild, in configured order, up to the first id `int()`
      rejects. */
  function ApplyTimeoutRoles(configured: seq<string>, guildRoles: set<nat>): (r: RoleGrant)
    ensures r.raised <==> exists i :: 0 <= i < |configured| && ParseInt(configured[i]).None?
    ensures forall j :: 0 <= j < |r.added| ==> r.added[j] in guildRoles
    ensures forall j :: 0 <= j < |r.added| ==>
              exists i :: 0 <= i < |configured| && Reached(configured, ParseInt, i)
                          && ParseInt(configured[i]) == Some(r.added[j] as int)
    ensures forall i :: 0 <= i < |configured| && Reached(configured, ParseInt, i) && Resolves(configured[i], guildRoles)
              ==> ParseInt(configured[i]).value in r.added
    ensures !r.raised ==> forall i :: 0 <= i < |configured| && Resolves(configured[i], guildRoles)
                            ==> ParseInt(configured[i]).value in r.added
    ensures |r.added| <= |configured|
  {
    GrantRoles(configured, guildRoles, ParseInt)
  }

  /** The loop of `_apply_timeout_roles` for any reading of role ids: the
      roles added are exactly the resolving ids the loop reaches, so when an
      id raises they are those before it. */
  function GrantRoles(configured: seq<string>, guildRoles: set<nat>, parse: string -> Option<int>): (r: RoleGrant)
    ensures r.raised <==> exists i :: 0 <= i < |configured| && parse(configured[i]).None?
    ensures forall j :: 0 <= j < |r.added| ==> r.added[j] in guildRoles
    ensures forall j :: 0 <= j < |r.added| ==>
              exists i :: 0 <= i < |configured| && Reached(configured, parse, i)
                          && parse(configured[i]) == Some(r.added[j] as int)
    ensures forall i :: 0 <= i < |configured| && Reached(configured, parse, i) && parse(configured[i]).Some?
              && parse(configured[i]).value >= 0 && parse(configured[i]).value as nat in guildRoles
              ==> parse(configured[i]).value in r.added
    ensures !r.raised ==> forall i :: 0 <= i < |configured| && parse(configured[i]).Some?
                            && parse(configured[i]).value >= 0 && parse(configured[i]).value as nat in guildRoles
                            ==> parse(configured[i]).value in r.added
    ensures |r.added| <= |configured|
  {
    if configured == [] then RoleGrant([], false)
    else
      assert forall i :: 1 <= i < |configured| ==> configured[i] == configured[1..][i - 1];
      match parse(configured[0])
      case None => RoleGrant([], true)
      case Some(id) =>
        var rest := GrantRoles(configured[1..], guildRoles, parse);
        ReachedShifts(configured, parse);
        if id >= 0 && id as nat in guildRoles then RoleGrant([id as nat] + rest.added, rest.raised)
        else rest
  }

  /** After a first id that reads, reaching index `i + 1` of the list is
      reaching index `i` of its tail. */
  lemma ReachedShifts(configured: seq<string>, parse: string -> Option<int>)
    requires configured != [] && parse(configured[0]).Some?
    ensures forall i :: 0 <= i < |configured| - 1 ==>
              (Reached(configured, parse, i + 1) <==> Reached(configured[1..], parse, i))
    ensures Reached(configured, parse, 0)
  {
    forall i | 0 <= i < |configured| - 1
      ensures Reached(configured, parse, i + 1) <==> Reached(configured[1..], parse, i)
    {
      assert forall j :: 1 <= j < i + 1 ==> configured[j] == configured[1..][j - 1];
    }
  }

  // ---------------------------------------------------------------------------
  // The sweep
  // ---------------------------------------------------------------------------

  /** What the bot knows of a guild: its role ids and each member's role ids. */
  datatype Guild = Guild(roles: set<nat>, members: map<nat, set<nat>>)

  /** `member.remove_roles(*timeout_roles)`. */
  datatype Removal = Removal(guildId: int, userId: nat, roles: set<string>)

  /** How the loop over one guild ended. */
  datatype GuildOutcome = GuildDone | NoCandidates | GuildRaised(error: SweepError)

  /** How a sweep ended: every guild visited, stopped by the early `return`
      at a guild without due members, or stopped by an exception. */
  datatype SweepOutcome = Completed | StoppedAt(guildId: int) | Raised(error: SweepError)

  /** The role-held check: `not timeout_ids.isdisjoint({str(r.id) for r in member.roles})`. */
  predicate HoldsTimeoutRole(memberRoles: set<nat>, timeoutIds: set<string>) {
    Policy.SharesRole(memberRoles, timeoutIds)
  }

  /** Everything one sweep reads: the ledger and its key prefix, the clock,
      the configured timeout role ids (as the held-role check compares them and
      as `_get_timeout_roles` reads them), how an id is read (`int()`, that is
      `ParseInt`), and the guilds the bot can see. */
  datatype Scan = Scan(
    store: Store,
    prefix: string,
    nowMicros: int,
    timeoutIds: set<string>,
    configured: seq<string>,
    parse: string -> Option<int>,
    guilds: map<int, Guild>)
  {
    /** `_fetch_candidates(guild_id)`. */
    function Candidates(guildId: int): set<nat> {
      FetchCandidates(store, prefix, guildId, nowMicros)
    }

    /** `_get_timeout_roles(guild)` for a visible guild. */
    function RolesOf(guildId: int): Result<set<string>, SweepError>
      requires guildId in guilds
    {
      ResolveRoles(configured, guilds[guildId].roles, parse)
    }

    /** A removal the sweep may make: of a due member of a visible guild who
        holds a timeout role, removing the guild's resolved timeout roles. */
    predicate Justified(r: Removal) {
      r.userId in Candidates(r.guildId)
      && r.guildId in guilds && r.userId in guilds[r.guildId].members
      && HoldsTimeoutRole(guilds[r.guildId].members[r.userId], timeoutIds)
      && RolesOf(r.guildId) == Success(r.roles)
    }

    /** Every removal is of a guild in `guildIds` and is justified. */
    predicate AllJustified(guildIds: set<int>, removals: seq<Removal>) {
      forall i :: 0 <= i < |removals| ==> removals[i].guildId in guildIds && Justified(removals[i])
    }

    /** Every due member of the guild who holds a timeout role had the roles removed. */
    predicate Covered(guildId: int, removals: seq<Removal>) {
      guildId in guilds && RolesOf(guildId).Success?
      && forall u :: u in Candidates(guildId) ==>
           u in guilds[guildId].members
           && (HoldsTimeoutRole(guilds[guildId].members[u], timeoutIds) ==>
                 Removal(guildId, u, RolesOf(guildId).value) in removals)
    }

    /** `error` is what the loop over the due members of `guildId` raises:
        the guild is not visible, a configured id does not read, or a due
        member cannot be fetched. */
    predicate Fails(guildId: int, error: SweepError) {
      match error
      case GuildUnavailable(g) => g == guildId && guildId !in guilds
      case BadRoleId => guildId in guilds && RolesOf(guildId).Failure?
      case MemberNotFound(g, u) =>
        g == guildId && guildId in guilds && RolesOf(guildId).Success?
        && u in Candidates(guildId) && u !in guilds[guildId].members
      case BadGuildKey => false
    }

    /** The first `k` guilds of `order` had due members and are covered. */
    predicate SweptPrefix(order: seq<int>, k: nat, removals: seq<Removal>)
      requires k <= |order|
    {
      forall j :: 0 <= j < k ==> Candidates(order[j]) != {} && Covered(order[j], removals)
    }
  }

  /** Every removal is of one of the first `k` guilds of `order`. */
  predicate RemovalsAmong(order: seq<int>, k: nat, removals: seq<Removal>)
    requires k <= |order|
  {
    forall i :: 0 <= i < |removals| ==> removals[i].guildId in order[..k]
  }

  /** One pass of the `for guild_id in guild_ids` body of `remove_timeout`;
      `order` is the order in which the loop visits the due members. */
  method SweepGuild(scan: Scan, guildId: int, order: seq<nat>) returns (removals: seq<Removal>, outcome: GuildOutcome)
    requires Iteration.Enumerates(order, scan.Candidates(guildId))
    ensures outcome == NoCandidates <==> scan.Candidates(guildId) == {}
    ensures outcome == NoCandidates ==> removals == []
    ensures outcome == GuildRaised(GuildUnavailable(guildId)) <==> scan.Candidates(guildId) != {} && guildId !in scan.guilds
    ensures outcome == GuildRaised(BadRoleId) <==>
              scan.Candidates(guildId) != {} && guildId in scan.guilds && scan.RolesOf(guildId).Failure?
    ensures outcome == GuildDone <==> scan.Candidates(guildId) != {} && scan.Covered(guildId, removals)
    ensures outcome != GuildRaised(BadGuildKey)
    ensures outcome.GuildRaised? ==> scan.Candidates(guildId) != {} && scan.Fails(guildId, outcome.error)
    ensures forall i :: 0 <= i < |removals| ==> removals[i].guildId == guildId && scan.Justified(removals[i])
  {
    removals := [];
    if scan.Candidates(guildId) == {} {
      return removals, NoCandidates;
    }
    if guildId !in scan.guilds {
      return removals, GuildRaised(GuildUnavailable(guildId));
    }
    var guild := scan.guilds[guildId];
    var roles := scan.RolesOf(guildId);
    if roles.Failure? {
      return removals, GuildRaised(BadRoleId);
    }
    for k := 0 to |order|
      invariant forall j :: 0 <= j < k ==>
                  order[j] in guild.members
                  && (HoldsTimeoutRole(guild.members[order[j]], scan.timeoutIds) ==> Removal(guildId, order[j], roles.value) in removals)
      invariant forall i :: 0 <= i < |removals| ==> removals[i].guildId == guildId && scan.Justified(removals[i])
    {
      var u := order[k];
      if u !in guild.members {
        assert !scan.Covered(guildId, removals);
        return removals, GuildRaised(MemberNotFound(guildId, u));
      }
      if HoldsTimeoutRole(guild.members[u], scan.timeoutIds) {
        removals := removals + [Removal(guildId, u, roles.value)];
      }
    }
    assert forall u :: u in scan.Candidates(guildId) ==> exists j :: 0 <= j < |order| && order[j] == u;
    return removals, GuildDone;
  }

  /** `remove_timeout(timeout_ids, bot)` over the guild ids of the scan,
      visited in `guildOrder`, each guild's due members in `memberOrders`.
      The ledger is only read. */
  method Sweep(scan: Scan, guildIds: set<int>, guildOrder: seq<int>, memberOrders: map<int, seq<nat>>)
    returns (removals: seq<Removal>, outcome: SweepOutcome)
    requires Iteration.Enumerates(guildOrder, guildIds)
    requires forall g :: g in guildIds ==> g in memberOrders && Iteration.Enumerates(memberOrders[g], scan.Candidates(g))
    ensures outcome == Completed ==> forall g :: g in guildIds ==> scan.Candidates(g) != {} && scan.Covered(g, removals)
    ensures outcome.StoppedAt? ==> outcome.guildId in guildIds && scan.Candidates(outcome.guildId) == {}
    ensures guildIds != {} && (forall g :: g in guildIds ==> scan.Candidates(g) == {}) ==>
              outcome.StoppedAt? && removals == []
    ensures scan.AllJustified(guildIds, removals)
    ensures outcome != Raised(BadGuildKey)
    ensures outcome.StoppedAt? ==>
              exists k :: 0 <= k < |guildOrder| && guildOrder[k] == outcome.guildId
                          && scan.SweptPrefix(guildOrder, k, removals) && RemovalsAmong(guildOrder, k, removals)
    ensures outcome.Raised? ==>
              exists k :: 0 <= k < |guildOrder| && scan.Candidates(guildOrder[k]) != {}
                          && scan.Fails(guildOrder[k], outcome.error)
                          && scan.SweptPrefix(guildOrder, k, removals) && RemovalsAmong(guildOrder, k + 1, removals)
  {
    removals := [];
    for k := 0 to |guildOrder|
      invariant scan.SweptPrefix(guildOrder, k, removals)
      invariant scan.AllJustified(guildIds, removals)
      invariant RemovalsAmong(guildOrder, k, removals)
      invariant (forall g :: g in guildIds ==> scan.Candidates(g) == {}) ==> k == 0 && removals == []
    {
      var g := guildOrder[k];
      var more, result := SweepGuild(scan, g, memberOrders[g]);
      assert scan.AllJustified(guildIds, more);
      JustifiedGrows(scan, guildIds, removals, more);
      AmongGrows(guildOrder, k, removals, more);
      if result == GuildDone {
        SweepAdvances(scan, guildOrder, k, removals, more);
      }
      if result == NoCandidates {
        assert removals + more == removals;
        return removals, StoppedAt(g);
      }
      if result.GuildRaised? {
        SweptKept(scan, guildOrder, k, removals, more);
        return removals + more, Raised(result.error);
      }
      removals := removals + more;
    }
    SweptAll(scan, guildIds, guildOrder, removals);
    return removals, Completed;
  }

  /** The early `return`: a sweep that reaches the first guild without due
      members stops there, having removed roles only in the guilds before it,
      and never visits a later guild; an exception can only come earlier. */
  method SweepStopsAtFirstIdleGuild(
    scan: Scan, guildIds: set<int>, guildOrder: seq<int>, memberOrders: map<int, seq<nat>>, k: nat)
    returns (removals: seq<Removal>, outcome: SweepOutcome)
    requires Iteration.Enumerates(guildOrder, guildIds)
    requires forall g :: g in guildIds ==> g in memberOrders && Iteration.Enumerates(memberOrders[g], scan.Candidates(g))
    requires k < |guildOrder| && scan.Candidates(guildOrder[k]) == {}
    requires forall j :: 0 <= j < k ==> scan.Candidates(guildOrder[j]) != {}
    ensures outcome == StoppedAt(guildOrder[k]) || outcome.Raised?
    ensures outcome.StoppedAt? ==> scan.SweptPrefix(guildOrder, k, removals) && RemovalsAmong(guildOrder, k, removals)
    ensures outcome.Raised? ==> exists j :: 0 <= j < k && scan.Fails(guildOrder[j], outcome.error)
    ensures k == 0 ==> outcome == StoppedAt(guildOrder[0]) && removals == []
  {
    removals, outcome := Sweep(scan, guildIds, guildOrder, memberOrders);
    assert guildOrder[k] in guildIds && scan.Candidates(guildOrder[k]) == {};
    if outcome.StoppedAt? {
      var i :| 0 <= i < |guildOrder| && guildOrder[i] == outcome.guildId
               && scan.SweptPrefix(guildOrder, i, removals) && RemovalsAmong(guildOrder, i, removals);
      IdleIndex(scan, guildOrder, k, i, removals);
      if removals != [] {
        NoneAmongNoGuilds(guildOrder, removals);
      }
    }
    if outcome.Raised? {
      var i :| 0 <= i < |guildOrder| && scan.Candidates(guildOrder[i]) != {}
               && scan.Fails(guildOrder[i], outcome.error)
               && scan.SweptPrefix(guildOrder, i, removals) && RemovalsAmong(guildOrder, i + 1, removals);
      BusyIndex(scan, guildOrder, k, i, removals);
    }
  }

  /** A swept prefix ending at a guild without due members ends at the first such guild. */
  lemma IdleIndex(scan: Scan, order: seq<int>, k: nat, i: nat, removals: seq<Removal>)
    requires k < |order| && scan.Candidates(order[k]) == {}
    requires forall j :: 0 <= j < k ==> scan.Candidates(order[j]) != {}
    requires i < |order| && scan.Candidates(order[i]) == {} && scan.SweptPrefix(order, i, removals)
    ensures i == k
  {
  }

  /** A swept prefix ending at a guild with due members ends before the first
      guild without any. */
  lemma BusyIndex(scan: Scan, order: seq<int>, k: nat, i: nat, removals: seq<Removal>)
    requires k < |order| && scan.Candidates(order[k]) == {}
    requires i < |order| && scan.Candidates(order[i]) != {} && scan.SweptPrefix(order, i, removals)
    ensures i < k
  {
  }

  lemma NoneAmongNoGuilds(order: seq<int>, removals: seq<Removal>)
    requires removals != []
    ensures !RemovalsAmong(order, 0, removals)
  {
    assert removals[0].guildId !in order[..0];
  }

  /** Removals of the guild at index `k` keep every removal among the first
      `k + 1` guilds. */
  lemma AmongGrows(order: seq<int>, k: nat, removals: seq<Removal>, more: seq<Removal>)
    requires k < |order| && RemovalsAmong(order, k, removals)
    requires forall i :: 0 <= i < |more| ==> more[i].guildId == order[k]
    ensures RemovalsAmong(order, k + 1, removals + more)
  {
    forall i | 0 <= i < |removals + more|
      ensures (removals + more)[i].guildId in order[..k + 1]
    {
      assert order[..k + 1] == order[..k] + [order[k]];
      if i >= |removals| {
        assert (removals + more)[i] == more[i - |removals|];
      }
    }
  }

  /** Appending removals keeps the swept prefix covered. */
  lemma SweptKept(scan: Scan, order: seq<int>, k: nat, removals: seq<Removal>, more: seq<Removal>)
    requires k <= |order| && scan.SweptPrefix(order, k, removals)
    ensures scan.SweptPrefix(order, k, removals + more)
  {
    forall j | 0 <= j < k
      ensures scan.Covered(order[j], removals + more)
    {
      CoveredKept(scan, order[j], removals, more);
    }
  }

  lemma JustifiedGrows(scan: Scan, guildIds: set<int>, removals: seq<Removal>, more: seq<Removal>)
    requires scan.AllJustified(guildIds, removals) && scan.AllJustified(guildIds, more)
    ensures scan.AllJustified(guildIds, removals + more)
  {
    forall i | 0 <= i < |removals + more|
      ensures (removals + more)[i].guildId in guildIds && scan.Justified((removals + more)[i])
    {
      if i >= |removals| {
        assert (removals + more)[i] == more[i - |removals|];
      }
    }
  }

  /** A covered guild appended to the swept prefix extends it. */
  lemma SweepAdvances(scan: Scan, order: seq<int>, k: nat, removals: seq<Removal>, more: seq<Removal>)
    requires k < |order| && scan.SweptPrefix(order, k, removals)
    requires scan.Candidates(order[k]) != {} && scan.Covered(order[k], more)
    ensures scan.SweptPrefix(order, k + 1, removals + more)
  {
    forall j | 0 <= j < k
      ensures scan.Covered(order[j], removals + more)
    {
      CoveredKept(scan, order[j], removals, more);
    }
    CoveredKeptLeft(scan, order[k], removals, more);
  }

  lemma SweptAll(scan: Scan, guildIds: set<int>, order: seq<int>, removals: seq<Removal>)
    requires Iteration.Enumerates(order, guildIds) && scan.SweptPrefix(order, |order|, removals)
    ensures forall g :: g in guildIds ==> scan.Candidates(g) != {} && scan.Covered(g, removals)
  {
    forall g | g in guildIds
      ensures scan.Candidates(g) != {} && scan.Covered(g, removals)
    {
      var j :| 0 <= j < |order| && order[j] == g;
    }
  }

  lemma CoveredKept(scan: Scan, g: int, removals: seq<Removal>, more: seq<Removal>)
    requires scan.Covered(g, removals)
    ensures scan.Covered(g, removals + more)
  {
    forall u | u in scan.Candidates(g) && HoldsTimeoutRole(scan.guilds[g].members[u], scan.timeoutIds)
      ensures Removal(g, u, scan.RolesOf(g).value) in removals + more
    {
      var r := Removal(g, u, scan.RolesOf(g).value);
      var i :| 0 <= i < |removals| && removals[i] == r;
      assert (removals + more)[i] == r;
    }
  }

  lemma CoveredKeptLeft(scan: Scan, g: int, removals: seq<Removal>, more: seq<Removal>)
    requires scan.Covered(g, more)
    ensures scan.Covered(g, removals + more)
  {
    forall u | u in scan.Candidates(g) && HoldsTimeoutRole(scan.guilds[g].members[u], scan.timeoutIds)
      ensures Removal(g, u, scan.RolesOf(g).value) in removals + more
    {
      var r := Removal(g, u, scan.RolesOf(g).value);
      var i :| 0 <= i < |more| && more[i] == r;
      assert (removals + more)[|removals| + i] == r;
    }
  }
}
