/** The older message handler, `Roulette.on_message` of `roulette/cog.py`.

    The same gates as the newer handler, read from the remotely loaded
    `ConfigLoader.Config`, with three differences: the targets are the raw
    `message.mentions` (bare users and the bot included), each target's
    timeout comes from a remote service that may answer nothing, and every
    reply is formatted with the `timeout_`-prefixed keywords and the
    target's account name. There is no delay and no stats posting.

    `roulette/debounce.py` is not part of this model: its answer for the
    author comes in as `debounced`. */
module RouletteCog {
  import opened Wrappers
  import opened Text
  import opened Policy
  import ConfigLoader
  import Replies
  import Iteration

  /** What the handler reads besides the message: the bot's own user id, the
      loaded configuration, and how a pattern searches a text. */
  datatype Env = Env(botId: nat, config: ConfigLoader.Config, search: (string, string) -> bool)

  /** `action.Timeout(res)`: the minutes and the label the remote service sent. */
  datatype RemoteTimeout = RemoteTimeout(minutes: int, shown: string)

  /** The exceptions that end the handler. */
  datatype HandlerError =
    | NotAMember(userId: nat)                    // a bare user has no `roles`
    | ReplyFailed(replyError: Replies.ReplyError) // `random.choice` or `format` raised

  datatype Outcome = Ignored(reason: Ignore) | Handled | Raised(error: HandlerError)

  type Step = Policy.Step<HandlerError>

  /** The access lists of the loaded configuration. */
  function RouletteAcl(c: ConfigLoader.Config): Acl {
    Acl(c.channels, c.protectedRoles, c.moderators, c.administrators)
  }

  // ---------------------------------------------------------------------------
  // The gates
  // ---------------------------------------------------------------------------

  /** Some configured pattern finds a match in the message. */
  predicate Matches(env: Env, msg: Message) {
    MatchesAny(env.config.matchPatterns, env.search, msg.content)
  }

  /** The message passes every gate before the debounce. */
  predicate Eligible(env: Env, msg: Message) {
    FromHuman(env.botId, msg) && MayAct(RouletteAcl(env.config), msg) && Matches(env, msg)
  }

  datatype Gate = Proceed | Drop(reason: Ignore)

  /** The gates of `on_message`; `debounced` is what `should_debounce` would
      answer for the author, and it is asked only of unprivileged authors. */
  function Admit(env: Env, msg: Message, debounced: bool): (r: Gate)
    ensures r == Drop(SelfMessage) <==> msg.author.id == env.botId
    ensures r == Drop(BotMessage) <==> msg.author.id != env.botId && msg.author.isBot
    ensures r == Drop(ChannelNotObserved) <==> FromHuman(env.botId, msg) && !MayAct(RouletteAcl(env.config), msg)
    ensures r == Drop(NoMatch) <==> FromHuman(env.botId, msg) && MayAct(RouletteAcl(env.config), msg) && !Matches(env, msg)
    ensures r == Drop(Debounced) <==> Eligible(env, msg) && !Privileged(RouletteAcl(env.config), msg.author) && debounced
    ensures r == Proceed <==> Eligible(env, msg) && (Privileged(RouletteAcl(env.config), msg.author) || !debounced)
  {
    var acl := RouletteAcl(env.config);
    if msg.author.id == env.botId then Drop(SelfMessage)
    else if msg.author.isBot then Drop(BotMessage)
    else if !MayAct(acl, msg) then Drop(ChannelNotObserved)
    else if !Matches(env, msg) then Drop(NoMatch)
    else if !Privileged(acl, msg.author) && debounced then Drop(Debounced)
    else Proceed
  }

  /** A privileged author gets through whatever the debounce would say. */
  lemma PrivilegedNeverDebounced(env: Env, msg: Message)
    requires Eligible(env, msg) && Privileged(RouletteAcl(env.config), msg.author)
    ensures Admit(env, msg, true) == Proceed && Admit(env, msg, false) == Proceed
  {
  }

  // ---------------------------------------------------------------------------
  // Targets
  // ---------------------------------------------------------------------------

  /** `_determine_targets`: a privileged author's mentions as they come, when
      there are any; otherwise the author alone. */
  function DetermineTargets(acl: Acl, msg: Message): (r: set<Mention>)
    ensures r != {}
    ensures !Privileged(acl, msg.author) || msg.mentions == [] ==> r == {MemberMention(msg.author)}
    ensures Privileged(acl, msg.author) && msg.mentions != [] ==> forall x :: x in r <==> x in msg.mentions
  {
    if Privileged(acl, msg.author) && |msg.mentions| > 0 then
      var r := set x | x in msg.mentions;
      assert msg.mentions[0] in r;
      r
    else {MemberMention(msg.author)}
  }

  /** Unlike the newer handler, a mention of the bot makes the bot a target. */
  lemma BotMayBeTargeted(acl: Acl, msg: Message, bot: Member)
    requires Privileged(acl, msg.author) && MemberMention(bot) in msg.mentions
    ensures MemberMention(bot) in DetermineTargets(acl, msg)
  {
  }

  // ---------------------------------------------------------------------------
  // One target
  // ---------------------------------------------------------------------------

  /** The inputs one target consumes: the remote service's answer (`None`
      when `fetch` returned nothing) and the reply template draw. */
  datatype Draw = Draw(fetched: Option<RemoteTimeout>, reply: nat)

  /** The reply for a verdict: every reply names the target by account name
      under `timeout_user_name`. */
  function ReplyText(c: ConfigLoader.Config, v: Verdict, target: Member, t: RemoteTimeout, replyDraw: nat)
    : Result<string, Replies.ReplyError>
    requires !v.TooLong?
  {
    Replies.Compose(Templates(c, v), replyDraw, Replies.PrefixedArgs(target.name, t.shown))
  }

  /** `timeout_protected_messages_*` for a shielded target and
      `timeout_affected_messages_*` for one timed out, by whether the target
      is the author. */
  function Templates(c: ConfigLoader.Config, v: Verdict): seq<Replies.Template>
    requires !v.TooLong?
  {
    match v
    case Protect(self) => if self then c.messages.protectedSelf else c.messages.protectedOther
    case Apply(self) => if self then c.messages.affectedSelf else c.messages.affectedOther
  }

  /** `_timeout(duration, label, message, target)` for a member target. */
  function TimeoutTarget(env: Env, msg: Message, target: Member, t: RemoteTimeout, replyDraw: nat): (r: Step)
    ensures TimeoutsAllowed(RouletteAcl(env.config), r.effects)
    ensures forall m :: TimeoutsOf(r.effects, m) ==
              (if m == target && Judge(RouletteAcl(env.config), msg.author.id, target, t.minutes).Apply? then 1 else 0)
    ensures Judge(RouletteAcl(env.config), msg.author.id, target, t.minutes) == TooLong ==> r == Step([Reply(TooLongReply)], None)
    ensures Judge(RouletteAcl(env.config), msg.author.id, target, t.minutes).Apply? ==>
              |r.effects| > 0 && r.effects[0] == ApplyTimeout(target, t.minutes, TimeoutReason(t.shown))
    ensures r.error.Some? ==> r.error.value.ReplyFailed?
  {
    match Judge(RouletteAcl(env.config), msg.author.id, target, t.minutes)
    case TooLong =>
      var r := Step([Reply(TooLongReply)], None);
      assert r.effects[1..] == [];
      r
    case Protect(self) =>
      var r := match ReplyText(env.config, Protect(self), target, t, replyDraw)
               case Success(s) => Step([Reply(s)], None)
               case Failure(e) => Step([], Some(ReplyFailed(e)));
      assert forall m :: TimeoutsOf(r.effects, m) == 0 by {
        forall m
          ensures TimeoutsOf(r.effects, m) == 0
        {
          NoTimeoutsCount(r.effects, m);
        }
      }
      r
    case Apply(self) =>
      var applied := ApplyTimeout(target, t.minutes, TimeoutReason(t.shown));
      var r := match ReplyText(env.config, Apply(self), target, t, replyDraw)
               case Success(s) => Step([applied, Reply(s)], None)
               case Failure(e) => Step([applied], Some(ReplyFailed(e)));
      assert forall m :: TimeoutsOf(r.effects, m) == (if m == target then 1 else 0) by {
        forall m
          ensures TimeoutsOf(r.effects, m) == (if m == target then 1 else 0)
        {
          NoTimeoutsCount(r.effects[1..], m);
        }
      }
      r
  }

  /** With the documented placeholder, the reply to a timed-out target names
      them by account name after the timeout. */
  lemma AffectedReplyNamesTarget(env: Env, msg: Message, target: Member, t: RemoteTimeout, replyDraw: nat)
    requires Judge(RouletteAcl(env.config), msg.author.id, target, t.minutes) == Apply(false)
    requires env.config.messages.affectedOther == [[Replies.Field("timeout_user_name")]]
    ensures TimeoutTarget(env, msg, target, t, replyDraw)
              == Step([ApplyTimeout(target, t.minutes, TimeoutReason(t.shown)), Reply(target.name)], None)
  {
    var args := Replies.PrefixedArgs(target.name, t.shown);
    var only := [Replies.Field("timeout_user_name")];
    assert Replies.Format(only[1..], args) == Success("");
    assert Replies.Format(only, args) == Success(target.name + "");
    assert target.name + "" == target.name;
    assert Replies.Pick([only], replyDraw) == Success(only);
    assert ReplyText(env.config, Apply(false), target, t, replyDraw) == Success(target.name);
  }

  /** The target is a member, the remote service answered, and the target is
      neither shielded nor given more than 28 days. */
  predicate Lands(acl: Acl, target: Mention, d: Draw) {
    target.MemberMention? && d.fetched.Some?
    && !Shielded(acl, target.member) && d.fetched.value.minutes <= MaxTimeoutMinutes
  }

  /** One pass of the `for target in targets` body. */
  function RouletteFor(env: Env, msg: Message, target: Mention, d: Draw): (r: Step)
    ensures TimeoutsAllowed(RouletteAcl(env.config), r.effects)
    ensures forall m :: TimeoutsOf(r.effects, m) ==
              (if MemberMention(m) == target && Lands(RouletteAcl(env.config), target, d) then 1 else 0)
    ensures d.fetched.None? ==> r == Step([], None)
    ensures d.fetched.Some? && target.UserMention? ==> r == Step([], Some(NotAMember(target.userId)))
  {
    match d.fetched
    case None => Step([], None)
    case Some(t) =>
      match target
      case UserMention(id, _) => Step([], Some(NotAMember(id)))
      case MemberMention(member) => TimeoutTarget(env, msg, member, t, d.reply)
  }

  // ---------------------------------------------------------------------------
  // The handler
  // ---------------------------------------------------------------------------

  /** The member a target names, if it is one. */
  function MemberOf(x: Mention): Option<Member> {
    if x.MemberMention? then Some(x.member) else None
  }

  /** Whether each target's roll lands. */
  ghost function Landings(acl: Acl, order: seq<Mention>, draws: seq<Draw>): (r: seq<bool>)
    requires |draws| == |order|
    ensures |r| == |order|
    ensures forall j :: 0 <= j < |order| ==> (r[j] <==> Lands(acl, order[j], draws[j]))
  {
    seq(|order|, j requires 0 <= j < |order| => Lands(acl, order[j], draws[j]))
  }

  /** The loop ended at the `k`-th target: the targets before it raised
      nothing, every member target up to and including it was timed out
      exactly when its roll landed, and no later member target was timed out. */
  ghost predicate StoppedAt(env: Env, msg: Message, order: seq<Mention>, draws: seq<Draw>, k: nat, effects: seq<Effect>)
    requires |draws| == |order| && k < |order|
  {
    && (forall j :: 0 <= j < k ==> RouletteFor(env, msg, order[j], draws[j]).error.None?)
    && (forall j :: 0 <= j <= k && order[j].MemberMention? ==>
          (TimeoutsOf(effects, order[j].member) == 1 <==> Lands(RouletteAcl(env.config), order[j], draws[j])))
    && (forall j :: k < j < |order| && order[j].MemberMention? ==> TimeoutsOf(effects, order[j].member) == 0)
  }

  /** The `for target in targets` loop, visiting the targets in `order` with
      the `k`-th target's inputs in `draws[k]`. */
  method RouletteTargets(env: Env, msg: Message, order: seq<Mention>, draws: seq<Draw>)
    returns (effects: seq<Effect>, error: Option<HandlerError>)
    requires |draws| == |order| && NamesDistinct(order, MemberOf)
    ensures TimeoutsAllowed(RouletteAcl(env.config), effects)
    ensures forall m :: MemberMention(m) !in order ==> TimeoutsOf(effects, m) == 0
    ensures forall m :: TimeoutsOf(effects, m) <= 1
    ensures error.None? ==>
              forall k :: 0 <= k < |order| && order[k].MemberMention? ==>
                (TimeoutsOf(effects, order[k].member) == 1 <==> Lands(RouletteAcl(env.config), order[k], draws[k]))
    ensures error.Some? ==>
              exists k :: 0 <= k < |order| && RouletteFor(env, msg, order[k], draws[k]).error == error
                          && StoppedAt(env, msg, order, draws, k, effects)
  {
    ghost var landed := Landings(RouletteAcl(env.config), order, draws);
    effects := [];
    error := None;
    for k := 0 to |order|
      invariant TimeoutsAllowed(RouletteAcl(env.config), effects)
      invariant CountedPrefix(order, MemberOf, landed, k, effects)
      invariant forall j :: 0 <= j < k ==> RouletteFor(env, msg, order[j], draws[j]).error.None?
    {
      var step := RouletteFor(env, msg, order[k], draws[k]);
      TimeoutsAllowedAppend(RouletteAcl(env.config), effects, step.effects);
      CountedAdvances(order, MemberOf, landed, k, effects, step.effects);
      effects := effects + step.effects;
      if step.error.Some? {
        CountedBounds(order, MemberOf, landed, k + 1, effects);
        CountedStop(order, MemberOf, landed, k + 1, effects);
        NamedOnly(order, effects);
        assert StoppedAt(env, msg, order, draws, k, effects);
        return effects, step.error;
      }
    }
    CountedBounds(order, MemberOf, landed, |order|, effects);
    NamedOnly(order, effects);
  }

  lemma NamedOnly(order: seq<Mention>, effects: seq<Effect>)
    requires forall m :: (forall j :: 0 <= j < |order| ==> MemberOf(order[j]) != Some(m)) ==> TimeoutsOf(effects, m) == 0
    ensures forall m :: MemberMention(m) !in order ==> TimeoutsOf(effects, m) == 0
  {
  }

  /** Different members of a set of mentions name different members. */
  lemma SetNamesDistinct(order: seq<Mention>, s: set<Mention>)
    requires Iteration.Enumerates(order, s)
    ensures NamesDistinct(order, MemberOf)
  {
  }

  /** `on_message(message)`: `debounced` is the debounce module's answer for
      the author, `order` the order in which the loop visits the targets, and
      `draws[k]` the inputs for the `k`-th target. */
  method OnMessage(env: Env, msg: Message, debounced: bool, order: seq<Mention>, draws: seq<Draw>)
    returns (effects: seq<Effect>, outcome: Outcome)
    requires Iteration.Enumerates(order, DetermineTargets(RouletteAcl(env.config), msg))
    requires |draws| == |order|
    ensures outcome.Ignored? <==> Admit(env, msg, debounced).Drop?
    ensures outcome.Ignored? ==> outcome.reason == Admit(env, msg, debounced).reason && effects == []
    ensures TimeoutsAllowed(RouletteAcl(env.config), effects)
    ensures forall m :: TimeoutsOf(effects, m) <= 1
    ensures !Privileged(RouletteAcl(env.config), msg.author) ==> forall m :: m != msg.author ==> TimeoutsOf(effects, m) == 0
    ensures outcome == Handled ==>
              forall k :: 0 <= k < |order| && order[k].MemberMention? ==>
                (TimeoutsOf(effects, order[k].member) == 1 <==> Lands(RouletteAcl(env.config), order[k], draws[k]))
    ensures outcome.Raised? ==>
              exists k :: 0 <= k < |order| && RouletteFor(env, msg, order[k], draws[k]).error == Some(outcome.error)
                          && StoppedAt(env, msg, order, draws, k, effects)
  {
    match Admit(env, msg, debounced) {
      case Drop(reason) =>
        return [], Ignored(reason);
      case Proceed =>
        SetNamesDistinct(order, DetermineTargets(RouletteAcl(env.config), msg));
        var error;
        effects, error := RouletteTargets(env, msg, order, draws);
        outcome := if error.Some? then Raised(error.value) else Handled;
    }
  }
}
