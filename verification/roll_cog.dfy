/** The newer message handler, `Roll.on_message` of `roll/cog.py`, with the
    stats posting of `roll/stats.py`.

    A message passes the gates (not from the bot, not from a bot account, in
    an observed channel or from a privileged author, matching a pattern, not
    debounced), its targets are resolved, and each target gets a rolled
    timeout, a protected reply, or the failure reply. The platform calls are
    returned as `Policy.Effect`s in order; the random draws come in per
    target; the debounce cache is threaded through. An exception ends the
    handler after the effects already made. */
module RollCog {
  import opened Wrappers
  import opened Text
  import Settings
  import Duration
  import Replies
  import Debounce
  import TtlCache
  import Iteration

  import opened Policy

  /** What the handler reads besides the message: the bot's own user id, the
      configuration, and how a pattern searches a text. */
  datatype Env = Env(botId: nat, config: Settings.Configuration, search: (string, string) -> bool)

  /** The exceptions that end the handler. */
  datatype HandlerError =
    | ConfigMissing(missing: Settings.LookupError)   // `administrator()` or `channels()` raised
    | RollFailed(rollError: Duration.RollError)      // `_generate_timeout` raised
    | DelayOutOfRange(delay: int)                    // `randint(1, delay)` with `delay < 1`
    | ReplyFailed(replyError: Replies.ReplyError)    // `random.choice` or `format` raised

  datatype Outcome = Ignored(reason: Ignore) | Handled | Raised(error: HandlerError)

  // ---------------------------------------------------------------------------
  // Access lists
  // ---------------------------------------------------------------------------

  /** `set(xs)`, and `x in xs` for a tuple. */
  function Listed(xs: seq<string>): set<string> {
    set x | x in xs
  }

  /** The access lists as the handler reads them: `administrator()` first,
      then `channels()`; `protected()` and `moderator()` never raise. */
  function RollAcl(c: Settings.RouletteConfiguration): (r: Result<Policy.Acl, Settings.LookupError>)
    ensures r.Failure? <==> c.administrators == [] || c.channels == []
    ensures r.Failure? ==> (r.error == Settings.NoAdministrators <==> c.administrators == [])
  {
    var admins :- Settings.Administrator(c);
    var channels :- Settings.Channels(c);
    Success(Policy.Acl(Listed(channels), Listed(Settings.Protected(c)), Listed(Settings.Moderator(c)), Listed(admins)))
  }

  /** A number is in the stringified list exactly when it is one of the ids. */
  lemma ListedMeaning(ids: seq<nat>, x: int)
    ensures IntToString(x) in Listed(Settings.Stringify(ids)) <==> x in ids
  {
    Settings.StringifyListed(ids, x);
  }

  /** A member shares a role with a stringified role list exactly when one of
      their role ids is listed. */
  lemma RolesMeaning(ids: seq<nat>, roles: set<nat>)
    ensures Policy.SharesRole(roles, Listed(Settings.Stringify(ids))) <==> exists r :: r in roles && r in ids
  {
    Policy.SharesRoleMeaning(roles, Listed(Settings.Stringify(ids)));
    forall r | r in roles
      ensures IntToString(r) in Listed(Settings.Stringify(ids)) <==> r in ids
    {
      ListedMeaning(ids, r);
    }
  }

  /** The access lists compare ids: a user is an administrator, a channel is
      observed, a member is a moderator or protected exactly when the
      configuration lists the id. */
  lemma RollAclMeaning(c: Settings.RouletteConfiguration, acl: Policy.Acl, m: Policy.Member, channelId: nat)
    requires RollAcl(c) == Success(acl)
    ensures Policy.IsAdmin(acl, m.id) <==> m.id in c.administrators
    ensures IntToString(channelId) in acl.channels <==> channelId in c.channels
    ensures Policy.IsModerator(acl, m) <==> exists r :: r in m.roles && r in c.moderatorRoles
    ensures Policy.IsProtected(acl, m) <==> exists r :: r in m.roles && r in c.protectedRoles
  {
    ListedMeaning(c.administrators, m.id);
    ListedMeaning(c.channels, channelId);
    RolesMeaning(c.moderatorRoles, m.roles);
    RolesMeaning(c.protectedRoles, m.roles);
  }

  // ---------------------------------------------------------------------------
  // The gates
  // ---------------------------------------------------------------------------

  /** Some configured pattern finds a match in the message. */
  predicate Matches(env: Env, msg: Message) {
    Policy.MatchesAny(env.config.roulette.patterns, env.search, msg.content)
  }

  /** The message passes every gate before the debounce. */
  predicate Eligible(env: Env, msg: Message) {
    FromHuman(env.botId, msg) && RollAcl(env.config.roulette).Success?
    && MayAct(RollAcl(env.config.roulette).value, msg) && Matches(env, msg)
  }

  predicate AuthorPrivileged(env: Env, msg: Message)
    requires RollAcl(env.config.roulette).Success?
  {
    Policy.Privileged(RollAcl(env.config.roulette).value, msg.author)
  }

  datatype Gate = Proceed(acl: Policy.Acl) | Drop(reason: Ignore) | Halt(error: Settings.LookupError)

  /** The gates of `on_message`, and the debounce cache afterwards. */
  function Admit(env: Env, msg: Message, cache: TtlCache.Cache<nat>, now: int): (r: (Gate, TtlCache.Cache<nat>))
    requires Debounce.IsRollCache(cache)
    ensures r.0 == Drop(SelfMessage) <==> msg.author.id == env.botId
    ensures r.0 == Drop(BotMessage) <==> msg.author.id != env.botId && msg.author.isBot
    ensures r.0.Halt? <==> FromHuman(env.botId, msg) && RollAcl(env.config.roulette).Failure?
    ensures r.0.Halt? ==> r.0.error == RollAcl(env.config.roulette).error
    ensures r.0 == Drop(ChannelNotObserved) <==>
              FromHuman(env.botId, msg) && RollAcl(env.config.roulette).Success? && !MayAct(RollAcl(env.config.roulette).value, msg)
    ensures r.0 == Drop(NoMatch) <==>
              FromHuman(env.botId, msg) && RollAcl(env.config.roulette).Success? && MayAct(RollAcl(env.config.roulette).value, msg)
              && !Matches(env, msg)
    ensures r.0 == Drop(Debounced) <==>
              Eligible(env, msg) && !AuthorPrivileged(env, msg) && TtlCache.Live(cache.entries, msg.author.id, now)
    ensures r.0.Proceed? ==> r.0.acl == RollAcl(env.config.roulette).value
    ensures Debounce.IsRollCache(r.1)
    ensures r.1 != cache ==> Eligible(env, msg) && !AuthorPrivileged(env, msg)
    ensures Eligible(env, msg) && !AuthorPrivileged(env, msg) ==> TtlCache.Live(r.1.entries, msg.author.id, now)
  {
    if msg.author.id == env.botId then (Drop(SelfMessage), cache)
    else if msg.author.isBot then (Drop(BotMessage), cache)
    else
      match RollAcl(env.config.roulette)
      case Failure(e) => (Halt(e), cache)
      case Success(acl) =>
        if !MayAct(acl, msg) then (Drop(ChannelNotObserved), cache)
        else if !Matches(env, msg) then (Drop(NoMatch), cache)
        else if Policy.Privileged(acl, msg.author) then (Proceed(acl), cache)
        else
          var (seen, next) := Debounce.ShouldDebounceUser(cache, msg.author.id, now);
          if seen then (Drop(Debounced), next) else (Proceed(acl), next)
  }

  /** A privileged author is never debounced and leaves the cache alone. */
  lemma PrivilegedNeverDebounced(env: Env, msg: Message, cache: TtlCache.Cache<nat>, now: int)
    requires Debounce.IsRollCache(cache) && Eligible(env, msg) && AuthorPrivileged(env, msg)
    ensures Admit(env, msg, cache, now) == (Proceed(RollAcl(env.config.roulette).value), cache)
  {
  }

  /** A non-privileged author let through at `t` is debounced at `t'` exactly
      when `t'` is less than a minute later; any message of theirs counts. */
  lemma RepeatWithinMinute(env: Env, msg: Message, msg': Message, cache: TtlCache.Cache<nat>, t: int, t': int)
    requires Debounce.IsRollCache(cache) && t <= t'
    requires Eligible(env, msg) && !AuthorPrivileged(env, msg) && Admit(env, msg, cache, t).0.Proceed?
    requires Eligible(env, msg') && msg'.author == msg.author
    ensures Admit(env, msg', Admit(env, msg, cache, t).1, t').0 == Drop(Debounced) <==> t' < t + 60 * Debounce.Second
  {
    Debounce.UserWindow(cache, msg.author.id, t, t');
  }

  // ---------------------------------------------------------------------------
  // Targets
  // ---------------------------------------------------------------------------

  /** The members among the mentions; bare users are dropped. */
  function MemberMentions(mentions: seq<Policy.Mention>): set<Policy.Member> {
    set i | 0 <= i < |mentions| && mentions[i].MemberMention? :: mentions[i].member
  }

  /** The message answers an interaction whose original response id is set
      and not zero. */
  predicate AnswersInteraction(msg: Message) {
    msg.interaction.Some? && msg.interaction.value.originalResponseId.Some?
    && msg.interaction.value.originalResponseId.value != 0
  }

  /** `_determine_mentions`: the member mentions, or else the author of the
      replied-to message (`replyAuthor`, from the cache or fetched), or else
      nobody. */
  function DetermineMentions(msg: Message, replyAuthor: Policy.Member): (r: set<Policy.Member>)
    ensures r == {} <==> MemberMentions(msg.mentions) == {} && !AnswersInteraction(msg)
    ensures forall m :: m in r ==> Policy.MemberMention(m) in msg.mentions || m == replyAuthor
    ensures MemberMentions(msg.mentions) != {} ==> forall m :: Policy.MemberMention(m) in msg.mentions ==> m in r
  {
    var members := MemberMentions(msg.mentions);
    if members != {} then
      assert forall m :: Policy.MemberMention(m) in msg.mentions ==> m in members by {
        forall m | Policy.MemberMention(m) in msg.mentions
          ensures m in members
        {
          var i :| 0 <= i < |msg.mentions| && msg.mentions[i] == Policy.MemberMention(m);
        }
      }
      members
    else if !AnswersInteraction(msg) then {}
    else {replyAuthor}
  }

  /** The mentions without the bot itself. */
  function OtherMentions(msg: Message, replyAuthor: Policy.Member, botId: nat): set<Policy.Member> {
    set m | m in DetermineMentions(msg, replyAuthor) && m.id != botId
  }

  /** `_determine_targets`: a privileged author's mentions other than the bot,
      when there are any; otherwise the author alone. */
  function DetermineTargets(acl: Policy.Acl, botId: nat, msg: Message, replyAuthor: Policy.Member): (r: set<Policy.Member>)
    ensures r != {}
    ensures !Policy.Privileged(acl, msg.author) ==> r == {msg.author}
    ensures forall t :: t in r && t != msg.author ==> t.id != botId && t in DetermineMentions(msg, replyAuthor)
    ensures Policy.Privileged(acl, msg.author) && OtherMentions(msg, replyAuthor, botId) != {} ==>
              forall t :: t in r <==> t in DetermineMentions(msg, replyAuthor) && t.id != botId
  {
    var mentions := OtherMentions(msg, replyAuthor, botId);
    if Policy.Privileged(acl, msg.author) && |mentions| > 0 then mentions else {msg.author}
  }

  /** The bot never targets itself: mentions of it are dropped, and it never
      gets past the gates as an author. */
  lemma BotNeverTargeted(acl: Policy.Acl, botId: nat, msg: Message, replyAuthor: Policy.Member, t: Policy.Member)
    requires msg.author.id != botId && t in DetermineTargets(acl, botId, msg, replyAuthor)
    ensures t.id != botId
  {
  }

  /** A privileged author whose only mention is a reply to the bot rolls for
      themselves. */
  lemma ReplyToBotTargetsAuthor(acl: Policy.Acl, botId: nat, msg: Message, bot: Policy.Member)
    requires bot.id == botId && MemberMentions(msg.mentions) == {} && AnswersInteraction(msg)
    ensures DetermineTargets(acl, botId, msg, bot) == {msg.author}
  {
    assert DetermineMentions(msg, bot) == {bot};
    assert OtherMentions(msg, bot, botId) == {};
  }

  /** Bare users never become targets. */
  lemma UsersNotTargeted(acl: Policy.Acl, botId: nat, msg: Message, replyAuthor: Policy.Member)
    requires forall i :: 0 <= i < |msg.mentions| ==> msg.mentions[i].UserMention?
    requires !AnswersInteraction(msg)
    ensures DetermineTargets(acl, botId, msg, replyAuthor) == {msg.author}
  {
    assert MemberMentions(msg.mentions) == {};
    assert OtherMentions(msg, replyAuthor, botId) == {};
  }

  // ---------------------------------------------------------------------------
  // One target
  // ---------------------------------------------------------------------------

  /** The draws one target consumes: the interval choice, the minute offset,
      the response delay and the reply template. */
  datatype Draws = Draws(choice: nat, offset: nat, delay: nat, reply: nat)

  type Step = Policy.Step<HandlerError>

  /** `timeout_record_stats(duration, message)`: one post per webhook url,
      crediting the message's author (not the target) and its guild. */
  function StatsPosts(urls: seq<string>, msg: Message, minutes: int): (r: seq<Policy.Effect>)
    ensures |r| == |urls|
    ensures forall i :: 0 <= i < |r| ==>
              r[i] == Policy.PostStats(urls[i], IntToString(msg.author.id), IntToString(msg.guildId), minutes)
    ensures Policy.NoTimeouts(r)
  {
    if urls == [] then []
    else [Policy.PostStats(urls[0], IntToString(msg.author.id), IntToString(msg.guildId), minutes)]
         + StatsPosts(urls[1..], msg, minutes)
  }

  /** The protected reply of `_timeout`: the display name goes in under
      `user_name` for the author and under `timeout_user_name` for anyone else. */
  function ProtectedReply(env: Env, target: Policy.Member, self: bool, shown: string, replyDraw: nat): (r: Step)
    ensures forall m :: Policy.TimeoutsOf(r.effects, m) == 0
    ensures |r.effects| <= 1 && (forall i :: 0 <= i < |r.effects| ==> r.effects[i].Reply?)
    ensures r.error.Some? ==> r.error.value.ReplyFailed?
  {
    var root := env.config.root;
    var text := if self then Replies.Compose(root.protectedSelf, replyDraw, Replies.PlainArgs(target.displayName, shown))
                else Replies.Compose(root.protectedOther, replyDraw, Replies.PrefixedArgs(target.displayName, shown));
    var r := match text
             case Success(s) => Step([Policy.Reply(s)], None)
             case Failure(e) => Step([], Some(ReplyFailed(e)));
    NothingTimedOut(r);
    r
  }

  lemma NothingTimedOut(s: Step)
    requires forall i :: 0 <= i < |s.effects| ==> s.effects[i].Reply?
    ensures forall m :: Policy.TimeoutsOf(s.effects, m) == 0
  {
    forall m
      ensures Policy.TimeoutsOf(s.effects, m) == 0
    {
      Policy.NoTimeoutsCount(s.effects, m);
    }
  }

  /** The applying branch of `_timeout`: the timeout, the affected reply (plain
      keywords for the author and for anyone else alike), then the stats. */
  function Applied(env: Env, msg: Message, target: Policy.Member, self: bool, t: Duration.Timeout, shown: string, replyDraw: nat)
    : (r: Step)
    ensures forall m :: Policy.TimeoutsOf(r.effects, m) == (if m == target then 1 else 0)
    ensures |r.effects| > 0 && r.effects[0] == Policy.ApplyTimeout(target, t.duration, Policy.TimeoutReason(shown))
    ensures forall i :: 1 <= i < |r.effects| ==> !r.effects[i].ApplyTimeout? && !r.effects[i].Wait?
    ensures r.error.Some? ==> r.error.value.ReplyFailed?
    ensures r.error.None? ==>
              forall url :: url in Settings.WebhookUrls(env.config.root.webhookUrls) ==>
                Policy.PostStats(url, IntToString(msg.author.id), IntToString(msg.guildId), t.duration) in r.effects
  {
    var root := env.config.root;
    var applied := Policy.ApplyTimeout(target, t.duration, Policy.TimeoutReason(shown));
    var templates := if self then root.affectedSelf else root.affectedOther;
    match Replies.Compose(templates, replyDraw, Replies.PlainArgs(target.displayName, shown))
    case Failure(e) =>
      ApplyCount([applied], [], target);
      Step([applied] + [], Some(ReplyFailed(e)))
    case Success(s) =>
      var stats := StatsPosts(Settings.WebhookUrls(root.webhookUrls), msg, t.duration);
      ApplyCount([applied], [Policy.Reply(s)] + stats, target);
      assert forall url :: url in Settings.WebhookUrls(root.webhookUrls) ==> Policy.PostStats(url, IntToString(msg.author.id), IntToString(msg.guildId), t.duration) in stats;
      Step([applied] + ([Policy.Reply(s)] + stats), None)
  }

  /** A timeout followed by effects without timeouts times out the one member
      and nobody else. */
  lemma ApplyCount(head: seq<Policy.Effect>, rest: seq<Policy.Effect>, target: Policy.Member)
    requires |head| == 1 && head[0].ApplyTimeout? && head[0].target == target
    requires Policy.NoTimeouts(rest)
    ensures forall m :: Policy.TimeoutsOf(head + rest, m) == (if m == target then 1 else 0)
  {
    forall m
      ensures Policy.TimeoutsOf(head + rest, m) == (if m == target then 1 else 0)
    {
      Policy.TimeoutsOfAppend(head, rest, m);
      Policy.NoTimeoutsCount(rest, m);
      assert head[1..] == [];
    }
  }

  /** `_timeout(duration, label, message, target)` for a rolled timeout. */
  function TimeoutTarget(env: Env, acl: Policy.Acl, msg: Message, target: Policy.Member, t: Duration.Timeout, replyDraw: nat)
    : (r: Step)
    ensures Policy.TimeoutsAllowed(acl, r.effects)
    ensures forall m :: Policy.TimeoutsOf(r.effects, m) == (if m == target && Policy.Judge(acl, msg.author.id, target, t.duration).Apply? then 1 else 0)
    ensures r.error.Some? ==> r.error.value.ReplyFailed?
    ensures Policy.Judge(acl, msg.author.id, target, t.duration) == Policy.TooLong ==>
              r == Step([Policy.Reply(Policy.TooLongReply)], None)
    ensures Policy.Judge(acl, msg.author.id, target, t.duration).Apply? ==>
              |r.effects| > 0 && r.effects[0] == Policy.ApplyTimeout(target, t.duration, Policy.TimeoutReason(t.Label()))
    ensures Policy.Judge(acl, msg.author.id, target, t.duration).Apply? && r.error.None? ==>
              forall url :: url in Settings.WebhookUrls(env.config.root.webhookUrls) ==>
                Policy.PostStats(url, IntToString(msg.author.id), IntToString(msg.guildId), t.duration) in r.effects
    ensures !Policy.Judge(acl, msg.author.id, target, t.duration).Apply? ==>
              |r.effects| <= 1 && forall i :: 0 <= i < |r.effects| ==> r.effects[i].Reply?
    ensures forall i :: 0 <= i < |r.effects| ==> !r.effects[i].Wait?
  {
    match Policy.Judge(acl, msg.author.id, target, t.duration)
    case Protect(self) => ProtectedReply(env, target, self, t.Label(), replyDraw)
    case TooLong =>
      var r := Step([Policy.Reply(Policy.TooLongReply)], None);
      NothingTimedOut(r);
      r
    case Apply(self) =>
      var r := Applied(env, msg, target, self, t, t.Label(), replyDraw);
      assert forall i :: 0 <= i < |r.effects| && r.effects[i].ApplyTimeout? ==> i == 0;
      r
  }

  /** Templates written with the `timeout_`-prefixed placeholders fail for a
      timed-out target, after the timeout: the handler raises before posting
      stats. */
  lemma PrefixedAffectedReplyFails(env: Env, acl: Policy.Acl, msg: Message, target: Policy.Member, t: Duration.Timeout, replyDraw: nat)
    requires Policy.Judge(acl, msg.author.id, target, t.duration) == Policy.Apply(false)
    requires env.config.root.affectedOther == [[Replies.Field("timeout_user_name")]]
    ensures TimeoutTarget(env, acl, msg, target, t, replyDraw)
              == Step([Policy.ApplyTimeout(target, t.duration, Policy.TimeoutReason(t.Label()))],
                      Some(ReplyFailed(Replies.MissingKey("timeout_user_name"))))
  {
    Replies.KeywordSetsDisagree(target.displayName, t.Label());
  }

  /** The protected reply for another member fills the prefixed placeholder
      with their display name. */
  lemma ProtectedOtherNamesTarget(env: Env, acl: Policy.Acl, msg: Message, target: Policy.Member, t: Duration.Timeout, replyDraw: nat)
    requires Policy.Judge(acl, msg.author.id, target, t.duration) == Policy.Protect(false)
    requires env.config.root.protectedOther == [[Replies.Field("timeout_user_name")]]
    ensures TimeoutTarget(env, acl, msg, target, t, replyDraw) == Step([Policy.Reply(target.displayName)], None)
  {
    var args := Replies.PrefixedArgs(target.displayName, t.Label());
    var only := [Replies.Field("timeout_user_name")];
    assert Replies.Format(only[1..], args) == Success("");
    assert Replies.Format(only, args) == Success(target.displayName + "");
    assert target.displayName + "" == target.displayName;
    assert Replies.Pick([only], replyDraw) == Success(only);
    assert ProtectedReply(env, target, false, t.Label(), replyDraw) == Step([Policy.Reply(target.displayName)], None);
  }

  /** The roll for `target` succeeds, the delay setting is usable, and the
      target is neither shielded nor rolled past 28 days. */
  predicate Lands(env: Env, acl: Policy.Acl, target: Policy.Member, d: Draws) {
    var rolled := Duration.GenerateTimeout(env.config.root.intervals, d.choice, d.offset);
    rolled.Success? && Settings.ResponseDelay(env.config.root.responseDelay) >= 0
    && !Policy.Shielded(acl, target) && rolled.value.duration <= Policy.MaxTimeoutMinutes
  }

  /** One pass of the `for target in targets` body: `action.fetch()`, the
      optional random delay, then `_timeout`. */
  function RollFor(env: Env, acl: Policy.Acl, msg: Message, target: Policy.Member, d: Draws): (r: Step)
    ensures Policy.TimeoutsAllowed(acl, r.effects)
    ensures forall m :: Policy.TimeoutsOf(r.effects, m) == (if m == target && Lands(env, acl, target, d) then 1 else 0)
    ensures forall i :: 0 <= i < |r.effects| && r.effects[i].Wait? ==>
              1 <= r.effects[i].seconds <= Settings.ResponseDelay(env.config.root.responseDelay)
  {
    match Duration.GenerateTimeout(env.config.root.intervals, d.choice, d.offset)
    case Failure(e) => Step([], Some(RollFailed(e)))
    case Success(t) =>
      var delay := Settings.ResponseDelay(env.config.root.responseDelay);
      if delay == 0 then
        TimeoutTarget(env, acl, msg, target, t, d.reply)
      else if delay < 1 then
        Step([], Some(DelayOutOfRange(delay)))
      else
        Delayed(1 + d.delay % delay, TimeoutTarget(env, acl, msg, target, t, d.reply))
  }

  /** `await sleep(seconds)` in front of a step: no timeout changes. */
  function Delayed(seconds: nat, s: Step): (r: Step)
    ensures r.error == s.error
    ensures |r.effects| == |s.effects| + 1 && r.effects[0] == Policy.Wait(seconds)
    ensures forall i :: 1 <= i < |r.effects| ==> r.effects[i] == s.effects[i - 1]
    ensures forall m :: Policy.TimeoutsOf(r.effects, m) == Policy.TimeoutsOf(s.effects, m)
  {
    var r := Step([Policy.Wait(seconds)] + s.effects, s.error);
    assert r.effects[1..] == s.effects;
    r
  }

  // ---------------------------------------------------------------------------
  // The handler
  // ---------------------------------------------------------------------------

  /** Every target names itself. */
  function Named(m: Policy.Member): Option<Policy.Member> {
    Some(m)
  }

  /** Whether each target's roll lands. */
  ghost function Landings(env: Env, acl: Policy.Acl, order: seq<Policy.Member>, draws: seq<Draws>): (r: seq<bool>)
    requires |draws| == |order|
    ensures |r| == |order|
    ensures forall j :: 0 <= j < |order| ==> (r[j] <==> Lands(env, acl, order[j], draws[j]))
  {
    seq(|order|, j requires 0 <= j < |order| => Lands(env, acl, order[j], draws[j]))
  }

  /** The passes of the first `k` targets completed without raising. */
  ghost predicate PassedBefore(env: Env, acl: Policy.Acl, msg: Message, order: seq<Policy.Member>, draws: seq<Draws>, k: nat)
    requires |draws| == |order| && k <= |order|
  {
    forall j :: 0 <= j < k ==> RollFor(env, acl, msg, order[j], draws[j]).error.None?
  }

  /** The loop ended at the `k`-th target, whose pass raised `error`: the
      targets before it raised nothing, every target up to and including it
      was timed out exactly when its roll landed, and no later target was
      timed out. */
  ghost predicate StoppedAt(env: Env, acl: Policy.Acl, msg: Message, order: seq<Policy.Member>, draws: seq<Draws>,
                            k: nat, effects: seq<Policy.Effect>, error: Option<HandlerError>)
    requires |draws| == |order| && k < |order|
  {
    && RollFor(env, acl, msg, order[k], draws[k]).error == error
    && PassedBefore(env, acl, msg, order, draws, k)
    && (forall j :: 0 <= j <= k ==> (Policy.TimeoutsOf(effects, order[j]) == 1 <==> Lands(env, acl, order[j], draws[j])))
    && (forall j :: k < j < |order| ==> Policy.TimeoutsOf(effects, order[j]) == 0)
  }

  /** The counted prefix through the `k`-th target, whose pass raised, is a
      stop there. */
  lemma StopsHere(env: Env, acl: Policy.Acl, msg: Message, order: seq<Policy.Member>, draws: seq<Draws>,
                  k: nat, effects: seq<Policy.Effect>, error: Option<HandlerError>)
    requires |draws| == |order| && k < |order| && Policy.NamesDistinct(order, Named)
    requires Policy.CountedPrefix(order, Named, Landings(env, acl, order, draws), k + 1, effects)
    requires PassedBefore(env, acl, msg, order, draws, k)
    requires RollFor(env, acl, msg, order[k], draws[k]).error == error
    ensures exists i :: 0 <= i < |order| && StoppedAt(env, acl, msg, order, draws, i, effects, error)
  {
    Policy.CountedStop(order, Named, Landings(env, acl, order, draws), k + 1, effects);
    assert StoppedAt(env, acl, msg, order, draws, k, effects, error);
  }

  /** The `for target in targets` loop, visiting the targets in `order` with
      the `k`-th target's draws in `draws[k]`. */
  method RollTargets(env: Env, acl: Policy.Acl, msg: Message, order: seq<Policy.Member>, draws: seq<Draws>)
    returns (effects: seq<Policy.Effect>, error: Option<HandlerError>)
    requires |draws| == |order| && Policy.NamesDistinct(order, Named)
    ensures Policy.TimeoutsAllowed(acl, effects)
    ensures forall m :: m !in order ==> Policy.TimeoutsOf(effects, m) == 0
    ensures forall k :: 0 <= k < |order| ==> Policy.TimeoutsOf(effects, order[k]) <= 1
    ensures error.None? ==>
              forall k :: 0 <= k < |order| ==> (Policy.TimeoutsOf(effects, order[k]) == 1 <==> Lands(env, acl, order[k], draws[k]))
    ensures error.Some? ==> exists k :: 0 <= k < |order| && StoppedAt(env, acl, msg, order, draws, k, effects, error)
  {
    ghost var landed := Landings(env, acl, order, draws);
    effects := [];
    error := None;
    for k := 0 to |order|
      invariant Policy.TimeoutsAllowed(acl, effects)
      invariant Policy.CountedPrefix(order, Named, landed, k, effects)
      invariant PassedBefore(env, acl, msg, order, draws, k)
    {
      var step := RollFor(env, acl, msg, order[k], draws[k]);
      Policy.TimeoutsAllowedAppend(acl, effects, step.effects);
      Policy.CountedAdvances(order, Named, landed, k, effects, step.effects);
      effects := effects + step.effects;
      if step.error.Some? {
        Policy.CountedBounds(order, Named, landed, k + 1, effects);
        StopsHere(env, acl, msg, order, draws, k, effects, step.error);
        return effects, step.error;
      }
    }
    Policy.CountedBounds(order, Named, landed, |order|, effects);
  }

  /** `on_message(message)`: `replyAuthor` is the author of the message the
      interaction answered, `order` the order in which the loop visits the
      targets, and `draws[k]` the random draws for the `k`-th target. */
  method OnMessage(env: Env, msg: Message, replyAuthor: Policy.Member, cache: TtlCache.Cache<nat>, now: int,
                   order: seq<Policy.Member>, draws: seq<Draws>)
    returns (effects: seq<Policy.Effect>, outcome: Outcome, cache': TtlCache.Cache<nat>)
    requires Debounce.IsRollCache(cache)
    requires RollAcl(env.config.roulette).Success? ==>
               Iteration.Enumerates(order, DetermineTargets(RollAcl(env.config.roulette).value, env.botId, msg, replyAuthor))
    requires |draws| == |order|
    ensures outcome.Ignored? <==> Admit(env, msg, cache, now).0.Drop?
    ensures outcome.Ignored? ==> outcome.reason == Admit(env, msg, cache, now).0.reason && effects == []
    ensures Admit(env, msg, cache, now).0.Halt? ==>
              outcome == Raised(ConfigMissing(Admit(env, msg, cache, now).0.error)) && effects == []
    ensures cache' == Admit(env, msg, cache, now).1
    ensures RollAcl(env.config.roulette).Success? ==> Policy.TimeoutsAllowed(RollAcl(env.config.roulette).value, effects)
    ensures forall m :: Policy.TimeoutsOf(effects, m) <= 1
    ensures forall m: Policy.Member :: m.id == env.botId ==> Policy.TimeoutsOf(effects, m) == 0
    ensures RollAcl(env.config.roulette).Success? && !AuthorPrivileged(env, msg) ==>
              forall m :: m != msg.author ==> Policy.TimeoutsOf(effects, m) == 0
    ensures outcome == Handled ==>
              forall k :: 0 <= k < |order| ==>
                (Policy.TimeoutsOf(effects, order[k]) == 1 <==> Lands(env, RollAcl(env.config.roulette).value, order[k], draws[k]))
    ensures outcome.Raised? && !outcome.error.ConfigMissing? ==>
              var acl := RollAcl(env.config.roulette).value;
              exists k :: 0 <= k < |order| && StoppedAt(env, acl, msg, order, draws, k, effects, Some(outcome.error))
  {
    var gate;
    gate, cache' := Admit(env, msg, cache, now).0, Admit(env, msg, cache, now).1;
    match gate {
      case Drop(reason) =>
        return [], Ignored(reason), cache';
      case Halt(e) =>
        return [], Raised(ConfigMissing(e)), cache';
      case Proceed(acl) =>
        var targets := DetermineTargets(acl, env.botId, msg, replyAuthor);
        var error;
        effects, error := RollTargets(env, acl, msg, order, draws);
        forall m | m !in targets
          ensures Policy.TimeoutsOf(effects, m) == 0
        {
          assert m !in order;
        }
        forall m
          ensures Policy.TimeoutsOf(effects, m) <= 1
        {
          if m in targets {
            var k :| 0 <= k < |order| && order[k] == m;
          }
        }
        outcome := if error.Some? then Raised(error.value) else Handled;
    }
  }
}
