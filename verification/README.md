# Roulette bot: a Dafny model

This project models the decision logic of a Discord "roulette" bot. A member
posts a trigger message, the bot rolls a random timeout for them (or, when a
moderator or administrator asks, for the members they mention), and then
either applies it, refuses it because the target is protected, or refuses it
because it is longer than Discord's 28-day native timeout. Each time it
replies with a templated message. A periodic sweep reads a Redis ledger of
timeout end times and lifts the configured timeout roles from members whose
timeout has ended.

The model covers the following, one Dafny module each:

- **`Settings`, `RedisSettings`, `ConfigLoader`**: the configuration
  accessors, with their fallbacks and `LookupError`s, the Redis connection
  settings, and the older handler's remotely loaded configuration.
- **`Duration`**: the roll itself.
  - Bound strings such as `"30m"` and `"2d"` are converted to minutes.
  - The interval is chosen by weight, and the minute count is drawn inside
    it.
  - The label such as `"1 day and 2 hours"` is rendered.
- **`TtlCache`, `Debounce`**: the two debounce filters over a
  `cachetools.TTLCache`, with time-to-live expiry and oldest-first eviction.
- **`Policy`, `Replies`**: the access lists, the three-way verdict of
  `_timeout`, the platform effects, and the reply templates.
- **`RollCog`**: the newer message handler, `Roll.on_message`.
- **`RouletteCog`**: the older one, `Roulette.on_message`.
- **`Ledger`, `Unmute`**: the timeout ledger, the guild-key scan, the
  due-member query, and the sweep that lifts timeout roles.

**Modelling choices.**

- Discord, Redis, HTTP and the clock are not called. Each handler instead
  returns its platform calls as a sequence of `Policy.Effect`s, in the order
  it makes them.
- Each random draw is a natural-number input, reduced modulo the size of the
  range it picks from.
- The iteration order of a Python set is an input sequence that enumerates
  the set (`Iteration.Enumerates`).
- An exception is a `Result` failure (or an error in `Policy.Step`). The
  effects already made before it are kept.
- Instants are integer microseconds, which is the resolution of
  `datetime.now`. They are read as POSIX time, so the local zone's UTC
  offset is taken to stay the same (see `Ledger.Score` under "## Left out").

## Model

| member | source | states |
|---|---|---|
| Policy.SharesRoleMeaning | extensions/roulette/roll/cog.py:85-95 | a member meets a role list exactly when the `str` of one of their role ids is in it |
| Policy.PrivilegedIsShielded | extensions/roulette/roll/cog.py:36-37 | every moderator or administrator is also exempt from timeouts |
| Policy.MatchesAny | extensions/roulette/roll/cog.py:44-52 | the pattern gate passes exactly when some configured pattern finds a match |
| Policy.Judge | extensions/roulette/roll/cog.py:160-183 | a timeout is applied exactly when the target is neither protected, moderator nor administrator and the roll is at most 28 days; shielded targets get the protected reply; "self" means the target's id is the author's |
| Policy.CeilingIsInclusive | extensions/roulette/roll/cog.py:177-181 | exactly 28 days (40320 minutes) is still applied and 40321 minutes is refused |
| Policy.CountedBounds | extensions/roulette/roll/cog.py:69-83 | over a loop of distinct targets nobody is timed out twice, only visited targets are timed out, and a completed loop times out each target exactly when its roll landed |
| Policy.CountedStop | extensions/roulette/roll/cog.py:69-83 | wherever the loop stops, each visited target was timed out exactly when its roll landed and no later target was timed out |
| Duration.SuffixUnit | extensions/roulette/roll/action.py:73-80 | only the letters m, h, d and w name a unit, and each names the unit it abbreviates |
| Duration.BoundToMinutes | extensions/roulette/roll/action.py:70-80 | a bound fails with `ValueError` exactly when it has no digit, and converts exactly when it has digits and ends in a unit letter |
| Duration.BoundRoundTrip | extensions/roulette/roll/action.py:70-80 | a count written out and followed by a unit letter converts back to that many units in minutes |
| Duration.BoundConcatenatesDigits | extensions/roulette/roll/action.py:71-72 | every digit of the bound is kept, so "1h30m" means 130 minutes, not 90 |
| Duration.BoundWithoutSuffix | extensions/roulette/roll/action.py:73-80 | a bound not ending in a unit letter yields no minute count |
| Duration.DecomposeCanonical | extensions/roulette/roll/action.py:86-93 | the greedy weeks/days/hours/minutes split of a non-negative count has no zero part and each part below one of the next larger unit |
| Duration.DecomposeTotal | extensions/roulette/roll/action.py:86-93 | the parts of the split add back up to the minute count |
| Duration.DecomposeUnique | extensions/roulette/roll/action.py:86-93 | the greedy split is the only canonical one with that total |
| Duration.RenderParses | extensions/roulette/roll/action.py:83-95 | a non-zero label reads back as the first two parts of the split, joined with " and ", under a parser that accepts a unit's singular name exactly for a count of 1 |
| Duration.SpellingFollowsCount | extensions/roulette/roll/action.py:91-92 | the label parser accepts "1 day" and "2 days" and rejects "1 days" and "2 day" |
| Duration.RenderZero | extensions/roulette/roll/action.py:84-85 | the label is "0 minutes" exactly for zero |
| Duration.RenderTruncates | extensions/roulette/roll/action.py:94-95 | the minutes a label leaves out are fewer than one of its smallest shown unit |
| Duration.Select | extensions/roulette/roll/action.py:53 | a draw below the total weight picks the first interval whose running weight exceeds it |
| Duration.Chosen | extensions/roulette/roll/action.py:51-53 | the chosen interval is one of the configured ones and has positive weight |
| Duration.SelectionWeight | extensions/roulette/roll/action.py:53 | out of the total-weight equally likely draws, exactly the interval's weight many choose it |
| Duration.ChoiceReaches | extensions/roulette/roll/action.py:53 | every interval with positive weight is chosen by some draw |
| Duration.SingleIntervalChosen | extensions/roulette/roll/action.py:53 | a lone weighted interval is always chosen |
| Duration.RollWithin | extensions/roulette/roll/action.py:57-60 | a roll inside an interval succeeds exactly when both bounds convert and are ordered, and lands between them inclusive; a bound without digits is reported before a bound without a unit letter, the lower before the upper, and an unordered pair only after both convert |
| Duration.MissingDigitsReportedFirst | extensions/roulette/roll/action.py:57-72 | with a unit-less lower bound `"5x"` and a digit-less upper bound `"m"`, the upper bound's `ValueError` is what the roll reports |
| Duration.RollWithinReaches | extensions/roulette/roll/action.py:60 | every minute count between the bounds is drawn by some offset |
| Duration.GenerateTimeout | extensions/roulette/roll/action.py:44-67 | no intervals and zero total weight raise; otherwise the roll succeeds exactly when the chosen interval is rollable, and lands inside it |
| Duration.GenerateReaches | extensions/roulette/roll/action.py:44-67 | every minute count of every weighted interval is produced by some pair of draws |
| TtlCache.Empty | extensions/roulette/roll/debounce.py:7 | a new cache is valid and empty with the given size and time-to-live |
| TtlCache.Expire | extensions/roulette/roll/debounce.py:19 | `expire()` never drops a live entry, and what it keeps starts with a live entry: it stops at the first live one |
| TtlCache.ExpireIsFilterWhenOrdered | extensions/roulette/roll/debounce.py:7-19 | while expiries are in storage order, `expire()` keeps, in order, exactly the entries whose expiry lies after now |
| TtlCache.ShouldDebounceKeepsOrder | extensions/roulette/roll/debounce.py:7-26 | with a clock that does not go back, a call keeps the expiries in storage order |
| TtlCache.Store | extensions/roulette/roll/debounce.py:25 | storing a key keeps the cache within its size and one entry per key, and makes that key the newest entry, expiring one time-to-live later |
| TtlCache.ShouldDebounce | extensions/roulette/roll/debounce.py:12-28 | the answer is true exactly when the key is live; either way the key is live afterwards, with a fresh expiry only when it was just stored, and no other key becomes live |
| TtlCache.DebounceWindow | extensions/roulette/roll/debounce.py:7-28 | after a key is let through at t, a call at t' is debounced exactly when t' is less than one time-to-live later |
| TtlCache.DebouncedKeepsExpiries | extensions/roulette/roll/debounce.py:22-28 | a debounced call refreshes nobody's expiry |
| TtlCache.StoreKeepsOthers | extensions/roulette/roll/debounce.py:19-26 | storing a key keeps every other live key live when the entries left after `expire()` leave room or the key is still held |
| TtlCache.FullCacheEvictsOldest | extensions/roulette/roll/debounce.py:7-26 | storing a new key when the entries left after `expire()` fill the cache evicts the entry stored longest ago, which is live |
| TtlCache.ExpiredBehindLiveTakesRoom | extensions/roulette/roll/debounce.py:19-26 | an expired entry stored after a live one still takes room, so a new key evicts that live key |
| Debounce.RollCache | extensions/roulette/roll/debounce.py:7 | the roll cache holds up to 5000 users for one minute each and starts empty |
| Debounce.UnmuteCache | extensions/roulette/unmute/debounce.py:7-8 | the unmute cache holds one entry for one second and starts empty |
| Debounce.ShouldDebounceUser | extensions/roulette/roll/debounce.py:12-28 | a user is debounced exactly when stored less than a minute ago, and is stored afterwards |
| Debounce.ShouldDebounceUnmute | extensions/roulette/unmute/debounce.py:13-27 | the sweep is held back exactly when the single key is live, and the cache never holds more than that key |
| Debounce.UserWindow | extensions/roulette/roll/debounce.py:7-28 | a user let through at t is debounced at t' exactly when t' is within a minute of t |
| Debounce.UnmuteWindow | extensions/roulette/unmute/debounce.py:7-27 | a sweep let through at t holds back the next one exactly when it comes within a second |
| Debounce.UsersIndependent | extensions/roulette/roll/debounce.py:7-26 | while fewer than 5000 entries remain after `expire()`, expired ones behind a live entry included, one user's roll never changes whether another is debounced |
| Replies.Format | extensions/roulette/roll/cog.py:168-169 | over a template of literal text and named fields, formatting succeeds exactly when every field has a keyword, and otherwise raises `KeyError` for a missing one |
| Replies.FormatLiteral | extensions/roulette/roll/cog.py:168-169 | a template without fields formats to its own text whatever the keywords |
| Replies.FormatIgnoresUnused | extensions/roulette/roll/cog.py:168-169 | keywords the template does not use do not change the reply |
| Replies.Pick | extensions/roulette/roll/cog.py:167 | `random.choice` raises on an empty tuple and otherwise returns one of the templates |
| Replies.Compose | extensions/roulette/roll/cog.py:167-169 | a reply is produced exactly when there are templates and the chosen one's fields are all supplied |
| Replies.KeywordSetsDisagree | extensions/roulette/config/config.py:84-101 | a template written with the documented `timeout_` placeholders fails under the plain keywords the newer handler passes, and the other way round |
| Settings.Stringify | extensions/roulette/config/config.py:38 | each listed string reads back with `int()` as its id |
| Settings.StringifyListed | extensions/roulette/config/config.py:33-57 | a number is in a stringified id list exactly when it is one of the ids |
| Settings.Guild | extensions/roulette/config/config.py:15-21 | the guild id as text, raising `LookupError` exactly when unset |
| Settings.Channels | extensions/roulette/config/config.py:24-30 | the channel ids as text, raising `LookupError` exactly when none are configured |
| Settings.Protected | extensions/roulette/config/config.py:33-38 | the protected role ids as text, possibly empty, never raising |
| Settings.Moderator | extensions/roulette/config/config.py:41-46 | the moderator role ids as text, possibly empty, never raising |
| Settings.Administrator | extensions/roulette/config/config.py:49-57 | the administrator user ids as text, raising `LookupError` exactly when none are configured |
| Settings.UnmuteRate | extensions/roulette/config/config.py:60-64 | the sweep interval is never zero: an unset or zero rate falls back to one minute |
| Settings.TimeoutRole | extensions/roulette/config/config.py:67-72 | an empty role id counts as unset |
| Settings.ResponseDelay | extensions/roulette/config/config.py:139-143 | the delay is zero, which disables it, exactly when unset or zero |
| Settings.WebhookUrls | extensions/roulette/config/config.py:146-151 | no urls exactly when unset or empty; otherwise the configured ones |
| RedisSettings.Pick | database/redis_config.py:15-18 | a set environment variable wins even when empty; otherwise the configuration field |
| RedisSettings.Host | database/redis_config.py:11-19 | the host from the environment, then the configuration, then "localhost" |
| RedisSettings.Port | database/redis_config.py:22-30 | the port from the environment through `int()`, raising exactly when it does not parse; then the configuration; then 6379 |
| RedisSettings.Username | database/redis_config.py:33-41 | no username exactly when neither the environment nor the configuration sets one |
| RedisSettings.Password | database/redis_config.py:44-52 | no password exactly when neither the environment nor the configuration sets one |
| RedisSettings.Defaults | database/redis_config.py:11-52 | with nothing set, the client connects to localhost:6379 without credentials |
| RedisSettings.EmptyVariableWins | database/redis_config.py:15-16 | an empty host variable still overrides a configured host |
| RedisSettings.PortFromEnvironment | database/redis_config.py:26-27 | a port written in decimal, padded or not, is read back from the environment |
| RedisSettings.PortNotANumber | database/redis_config.py:26-27 | a port variable that is not a number raises whatever the configuration says |
| ConfigLoader.StripAll | extensions/roulette/roulette/config_loader.py:64 | the set holds exactly the stripped entries and is no larger than the list |
| ConfigLoader.Load | extensions/roulette/roulette/config_loader.py:63-73 | the constructor raises exactly when `acl.match_patterns` is missing; otherwise each of the four access sets holds exactly the stripped configured entries, and the patterns and messages are kept as given |
| ConfigLoader.PaddedSpellingsCollapse | extensions/roulette/roulette/config_loader.py:64 | two spellings of an entry that differ only in surrounding whitespace become one |
| ConfigLoader.PaddedIdListed | extensions/roulette/roulette/config_loader.py:68 | an id configured with surrounding whitespace still matches the `str` of the id |
| ConfigLoader.StrippedEntriesUnpadded | extensions/roulette/roulette/config_loader.py:64-68 | no stored entry starts or ends with whitespace |
| RollCog.RollAcl | extensions/roulette/roll/cog.py:35-39 | the access lists are read with `administrator()` first, then `channels()`, failing exactly when one of them is empty |
| RollCog.RollAclMeaning | extensions/roulette/roll/cog.py:85-100 | administrator, observed channel, moderator and protected mean the configuration lists the id |
| RollCog.Admit | extensions/roulette/roll/cog.py:25-60 | each gate drops the message exactly under its condition, in source order; only unprivileged eligible authors touch the debounce cache |
| RollCog.PrivilegedNeverDebounced | extensions/roulette/roll/cog.py:57 | a privileged author is never debounced and leaves the cache alone |
| RollCog.RepeatWithinMinute | extensions/roulette/roll/cog.py:57-60 | an unprivileged author let through is debounced on any message within the next minute and not after |
| RollCog.DetermineMentions | extensions/roulette/roll/cog.py:102-133 | the member mentions if any; otherwise the replied-to author when the message answers an interaction; otherwise nobody |
| RollCog.DetermineTargets | extensions/roulette/roll/cog.py:135-152 | a privileged author's mentions other than the bot, when there are any; otherwise the author alone; never empty |
| RollCog.BotNeverTargeted | extensions/roulette/roll/cog.py:144-146 | the bot is never among the targets |
| RollCog.ReplyToBotTargetsAuthor | extensions/roulette/roll/cog.py:131-152 | a privileged author whose only mention is a reply to the bot rolls for themselves |
| RollCog.UsersNotTargeted | extensions/roulette/roll/cog.py:109-110 | bare user mentions never become targets |
| RollCog.StatsPosts | extensions/roulette/roll/stats.py:11-37 | one post per webhook url, crediting the message's author and guild with the minutes, and no timeout |
| RollCog.ProtectedReply | extensions/roulette/roll/cog.py:163-175 | a protected target gets at most one reply and no timeout |
| RollCog.Applied | extensions/roulette/roll/cog.py:183-197 | the target, and only the target, is timed out first; after a successful reply every webhook gets the stats |
| RollCog.TimeoutTarget | extensions/roulette/roll/cog.py:154-197 | only unshielded targets within 28 days are timed out, exactly once; over 28 days gives the failure reply alone |
| RollCog.PrefixedAffectedReplyFails | extensions/roulette/roll/cog.py:191-195 | an affected-other template written with the documented placeholder raises after the timeout, so no stats are posted |
| RollCog.ProtectedOtherNamesTarget | extensions/roulette/roll/cog.py:171-174 | the protected reply for another member fills the prefixed placeholder with their display name |
| RollCog.RollFor | extensions/roulette/roll/cog.py:69-83 | one target is timed out exactly when the roll succeeds, the delay setting is usable, the target is unshielded and within 28 days; every wait is between 1 and the configured delay |
| RollCog.Delayed | extensions/roulette/roll/cog.py:73-76 | the sleep comes first and changes no timeout |
| RollCog.RollTargets | extensions/roulette/roll/cog.py:69-83 | across the target loop, only targets are timed out, each at most once, and on completion exactly those whose roll lands; a raise comes from the first target whose pass raises, every target up to it is timed out exactly when its roll lands, and no later target is timed out |
| RollCog.OnMessage | extensions/roulette/roll/cog.py:25-83 | ignored exactly when a gate drops the message; nobody is timed out twice, the bot never, and an unprivileged author's roll times out only the author; a target's exception ends the loop there, as in `RollCog.RollTargets` |
| RouletteCog.Admit | extensions/roulette/roulette/cog.py:36-72 | each gate drops the message exactly under its condition, in source order; the debounce applies only to unprivileged authors |
| RouletteCog.PrivilegedNeverDebounced | extensions/roulette/roulette/cog.py:69 | a privileged author gets through whatever the debounce would answer |
| RouletteCog.DetermineTargets | extensions/roulette/roulette/cog.py:110-122 | a privileged author's raw mentions when there are any, otherwise the author alone |
| RouletteCog.BotMayBeTargeted | extensions/roulette/roulette/cog.py:119-121 | unlike the newer handler, a mentioned bot becomes a target |
| RouletteCog.TimeoutTarget | extensions/roulette/roulette/cog.py:124-156 | only unshielded targets within 28 days are timed out, exactly once and first; over 28 days gives the failure reply alone |
| RouletteCog.AffectedReplyNamesTarget | extensions/roulette/roulette/cog.py:148-156 | with the documented placeholder the affected reply names the target by account name, after the timeout |
| RouletteCog.RouletteFor | extensions/roulette/roulette/cog.py:81-88 | no remote answer skips the target; a bare user with an answer raises; a member is timed out exactly when the roll lands |
| RouletteCog.RouletteTargets | extensions/roulette/roulette/cog.py:81-88 | only mentioned members are timed out, each at most once, and on completion exactly those whose roll lands; a raise comes from the first target whose pass raises, every member target up to it is timed out exactly when its roll lands, and no later one is timed out |
| RouletteCog.OnMessage | extensions/roulette/roulette/cog.py:36-88 | ignored exactly when a gate drops the message; nobody is timed out twice; an unprivileged author's roll times out only the author; a target's exception ends the loop there, as in `RouletteCog.RouletteTargets` |
| Ledger.TruncDiv | extensions/roulette/database/redis_db.py:25 | `int()` of the quotient rounds toward zero, also for instants before the epoch |
| Ledger.UploadTimeout | extensions/roulette/database/redis_db.py:18-28 | `ZADD` sets the member's score to the end of the timeout, returns 1 only for a new member, and changes nothing else |
| Ledger.AddTimeout | extensions/roulette/database/redis_db.py:41-42 | recording stores the end second under the guild's key; every other key, and every other member of that key, keeps its score |
| Ledger.RecordingIsIdempotent | extensions/roulette/database/redis_db.py:27 | recording the same timeout twice leaves one entry and the second write adds nothing |
| Ledger.RecordingOverwrites | extensions/roulette/database/redis_db.py:27 | a later recording for the same member replaces the earlier end time |
| Ledger.ScoreIsEndOfTimeout | extensions/roulette/database/redis_db.py:24-25 | a timeout of m minutes recorded at a whole second ends m minutes later, when the local zone's UTC offset stays the same |
| Ledger.FetchCandidates | extensions/roulette/database/redis_db.py:66-76 | the candidates are exactly the members whose end time is not after the current second |
| Ledger.DueOnceScoreReached | extensions/roulette/database/redis_db.py:70-75 | a recorded member is due exactly once the current second reaches its end time |
| Ledger.CandidatesGrow | extensions/roulette/database/redis_db.py:70-75 | the ledger is never pruned, so once due, always due |
| Ledger.CollectKeys | extensions/roulette/database/redis_db.py:46-58 | the scan stops at the first zero cursor, and its keys are the union of every batch up to it |
| Ledger.GuildIds | extensions/roulette/database/redis_db.py:60-61 | raises exactly when some key's suffix is not an integer; otherwise exactly the suffixes' values |
| Ledger.GuildKeyRoundTrip | extensions/roulette/database/redis_db.py:22 | with a 22-character prefix the slice recovers the guild id of every key written |
| Ledger.ShortPrefixMisreadsId | extensions/roulette/database/redis_db.py:61 | with a shorter prefix the fixed slice cuts into the id |
| Ledger.TimeoutRoleIds | extensions/roulette/database/action.py:10-19 | exactly the configured ids, as written, that name a role of the guild; raising when any id is not an integer |
| Ledger.ResolveRoles | extensions/roulette/unmute/cog.py:60-69 | the same role filter for any reading of ids |
| Ledger.ApplyTimeoutRoles | extensions/roulette/database/redis_db.py:31-38 | a non-integer id raises; every role added is a guild role named by a configured id the loop reached, and every resolving id it reached is added, so after a raise exactly the resolving ids before the bad one are added |
| Ledger.GrantRoles | extensions/roulette/database/redis_db.py:34-38 | the same loop for any reading of ids: only reached, resolving configured ids are added, and all of them are |
| Ledger.SweepGuild | extensions/roulette/database/redis_db.py:81-95 | no due members ends the guild; a missing guild or a bad role id raises; otherwise every due member holding a timeout role loses the resolved roles, and only such members do |
| Ledger.Sweep | extensions/roulette/database/redis_db.py:79-95 | every removal is justified; a completed sweep covers every guild; a stop at a guild with no due members comes after covering every earlier guild, with removals only in those; an exception names a guild with due members that fails in the stated way, after covering every earlier guild, with removals only up to it |
| Ledger.SweepStopsAtFirstIdleGuild | extensions/roulette/database/redis_db.py:81-86 | the first guild in visiting order with no due members is where the sweep stops, unless an earlier guild raises; no later guild is visited, and a first idle guild means no removals at all |
| Unmute.PrefixFillsSlice | extensions/roulette/unmute/cog.py:31-49 | the key prefix is exactly the 22 characters the slice skips |
| Unmute.KeyRoundTrip | extensions/roulette/unmute/cog.py:44-49 | every guild key read back gives its guild id |
| Unmute.GuildIdsOfWrittenKeys | extensions/roulette/unmute/cog.py:29-46 | over the keys of recorded guilds the scan returns exactly those guilds |
| Unmute.UnmuteLoop | extensions/roulette/unmute/cog.py:25-88 | the key-parsing error happens exactly when a scanned key has no integer suffix, with no removals; otherwise removals are justified, a completed run covers every guild, an early stop comes at a guild with no due members after covering every earlier guild, and any other exception names the failing guild after covering every earlier one |
| Unmute.ExpiredTimeoutLifted | extensions/roulette/unmute/cog.py:48-88 | a member whose timeout ended and who still holds a timeout role loses it once their guild is covered |
| Text.ParseIntOfIntToString | extensions/roulette/unmute/cog.py:65 | `int(str(i)) == i` for every integer, which is how listed ids are compared and read |
| Text.StripIgnoresPadding | extensions/roulette/roulette/config_loader.py:64 | surrounding whitespace never survives `strip()` |

## Behaviour worth noting

- The sweep never deletes a ledger entry. It only reads the ledger and
  removes roles, so an entry stays due on every later sweep
  (`Ledger.CandidatesGrow`).
- A member is due as soon as the current second reaches the recorded end
  second, with no margin.
- The unmute cog never calls the one-second unmute debounce. It is modelled
  anyway (`Debounce.ShouldDebounceUnmute`).
- The settings document `timeout_user_name` and `timeout_duration_label` as
  the placeholders of all four reply kinds. The newer handler passes them
  only for the protected reply to another member. It passes `user_name` and
  `duration_label` for the other three, so a template written as documented
  raises `KeyError` (`RollCog.PrefixedAffectedReplyFails`).
- The older handler targets the raw mentions, the bot and bare users
  included. The newer handler drops both.
- `cachetools`' `expire()` stops at the first live entry. An expired entry
  stored after a live one therefore still takes room, and a new user can
  evict a live one (`TtlCache.ExpiredBehindLiveTakesRoom`). Expiries are
  stored out of order only when the clock goes back. `datetime.now` is local
  wall time, which goes back an hour when daylight saving time ends.
- The `return` taken at a guild without due members ends the whole sweep,
  so guilds visited after it are skipped (`Ledger.SweepStopsAtFirstIdleGuild`).

## Left out

- **I/O and external calls.** The webhook HTTP posts, the remote TOML fetch
  and its schema validation, the older handler's remote timeout service, and
  Discord API calls are not modelled. The handlers return these calls as
  effects instead, or take their answers as inputs (`replyAuthor`, the remote
  answer, the guilds map).
- **Regular expressions.** These are opaque: `search` is a parameter.
  `re.compile` errors are not modelled.
- **Scheduling and concurrency.** The async scheduling of both periodic
  loops, the typing indicator and concurrent handlers are not modelled.
  `Settings.UnmuteRate` gives the loop interval, but the timer itself is
  absent.
- **The clock.** Within one handler call, the model takes a single instant
  as input.
- Ledger.Sweep: the source reads the clock once per guild, inside
  `_fetch_candidates`. Awaited `fetch_member` and `remove_roles` calls for
  earlier guilds come in between, so the readings can differ by seconds. The
  model fixes one instant (`Scan.nowMicros`) for the whole sweep. A member
  whose timeout ends while the sweep runs is due in the source for a later
  guild but not in the model.
- Unmute.UnmuteLoop: the same single instant as `Ledger.Sweep`, for the
  same reason.
- RollCog.OnMessage: direct messages are not modelled. The listener also
  runs on them, because `@guild_only()` adds a command check that listeners
  ignore, and the default intents deliver direct messages. There the author
  is a `User`, not a `Member`. `administrator()` can raise `LookupError`
  first, and otherwise `_is_moderator` raises `AttributeError` at `.roles`.
  `Policy.Message` always carries a member author and a guild, so this
  exception path is not modelled.
- RouletteCog.OnMessage: direct messages are not modelled, for the same
  reason. After the bot gates, `_is_admin` reads only the id, and
  `_is_moderator` raises `AttributeError` at `.roles`.
- **Large timeouts.** `timedelta` overflow for huge minute counts is not
  modelled.
- **`int()` and `str.strip()` details.** Python's `int()` is modelled for
  ASCII whitespace, an optional sign and ASCII digits. Underscores and
  non-ASCII digits are left out. `Text.Strip`, and with it `str.strip()` in
  `ConfigLoader.StripAll` and `ConfigLoader.Load`, removes only ASCII
  whitespace. Python also strips Unicode whitespace such as `\xa0`, `\x85`
  and `\u2000` to `\u200a`.
- Ledger.Score: the source adds the minutes to naive local wall time and
  converts the sum with the UTC offset in force at the end. The model adds
  them to a POSIX instant, so it ignores a change of the local zone's UTC
  offset during the timeout. Across such a change the recorded end second is
  off by that change, and `Ledger.ScoreIsEndOfTimeout` holds only when the
  offset stays the same. For example, in Europe/Berlin a 90-minute timeout
  from 01:30 on the spring-forward night ends 30 minutes later.
- **Negative interval weights.** Weights are natural numbers.
  `random.choices` with negative weights is not modelled.
- **Set iteration and `SCAN`.** Set iteration order is an input. `SCAN` is
  assumed to reach a zero cursor (a precondition of `Ledger.CollectKeys`).
- `extensions/roulette/roulette/debounce.py` is not part of this model. Its
  answer comes into `RouletteCog.OnMessage` as `debounced`.
- The functions of the root configuration module (`config.timeout_roles()`,
  `config.redis_key_const()` and the `roulette_*` values) are not part of
  this model. They are parameters: the configured lists and the key prefix.
- **Member identity.** Members are compared as whole records. The model
  assumes one record per member id, whereas Discord compares ids.
- RollCog.OnMessage: the reply fetched when the replied-to message is not
  cached is an input. A failure of that fetch is not modelled.
- Replies.Format: templates arrive already split into literal text and named
  fields, so `str.format`'s own parsing is not modelled. This leaves out the
  `{{`/`}}` escapes, positional fields (`{}`, `{0}`), which raise
  `IndexError` with keyword-only arguments, format specs and conversions,
  attribute and index fields, and unbalanced braces, which raise `ValueError`.
- ConfigLoader.Load: a present `acl.match_patterns` that is not a list is
  not checked by the schema, and `tuple()` of a string would yield one
  pattern per character. The model types the patterns as a list of strings,
  so it does not cover that case.
- Ledger.Sweep: the order of role removals within a guild follows the
  candidate order given. The contract states which removals happen, not their
  order.
- `api_extensions/`, `main.py`, the extension loader and the role-listing
  helpers are outside the modelled core.
