/** What both message handlers share: who counts as administrator, moderator
    or protected, the pattern gate, and the three-way verdict of `_timeout`
    (protected, too long, or applied).

    Discord members are identified by their id; their roles are role ids.
    Access lists hold strings, and a member is listed when the `str` of one
    of their ids appears in the list. */
module Policy {
  import opened Wrappers
  import opened Text

  /** A guild member: `name` is the account name, `displayName` the name
      shown in the guild. */
  datatype Member = Member(id: nat, roles: set<nat>, isBot: bool, name: string, displayName: string)

  /** An entry of `message.mentions`: a guild member, or a bare user (a
      mention the platform could not resolve to a member), which has no roles. */
  datatype Mention = MemberMention(member: Member) | UserMention(userId: nat, userName: string)

  /** The access lists a handler consults, as sets of strings. */
  datatype Acl = Acl(
    channels: set<string>,
    protectedRoles: set<string>,
    moderatorRoles: set<string>,
    administrators: set<string>)

  /** `{str(role.id) for role in member.roles}`. */
  function RoleKeys(roles: set<nat>): set<string> {
    set r | r in roles :: IntToString(r)
  }

  /** `not listed.isdisjoint(RoleKeys(roles))`. */
  predicate SharesRole(roles: set<nat>, listed: set<string>) {
    !(listed !! RoleKeys(roles))
  }

  /** `_is_admin`: the member's id, as a string, is listed. */
  predicate IsAdmin(acl: Acl, userId: nat) {
    IntToString(userId) in acl.administrators
  }

  /** `_is_moderator`: the member holds a listed moderator role. */
  predicate IsModerator(acl: Acl, m: Member) {
    SharesRole(m.roles, acl.moderatorRoles)
  }

  /** `_is_protected`: the member holds a listed protected role. */
  predicate IsProtected(acl: Acl, m: Member) {
    SharesRole(m.roles, acl.protectedRoles)
  }

  /** Administrators are implicitly moderators: `is_moderator or is_administrator`. */
  predicate Privileged(acl: Acl, m: Member) {
    IsModerator(acl, m) || IsAdmin(acl, m.id)
  }

  /** The `_timeout` guard: protected, moderator or administrator. */
  predicate Shielded(acl: Acl, m: Member) {
    IsProtected(acl, m) || IsModerator(acl, m) || IsAdmin(acl, m.id)
  }

  /** A role set meets a list exactly when one of its roles is listed. */
  lemma SharesRoleMeaning(roles: set<nat>, listed: set<string>)
    ensures SharesRole(roles, listed) <==> exists r :: r in roles && IntToString(r) in listed
  {
    if SharesRole(roles, listed) {
      var k :| k in listed && k in RoleKeys(roles);
      var r :| r in roles && IntToString(r) == k;
    } else {
      forall r | r in roles
        ensures IntToString(r) !in listed
      {
        assert IntToString(r) in RoleKeys(roles);
      }
    }
  }

  /** Privilege implies the shield: every privileged member is shielded. */
  lemma PrivilegedIsShielded(acl: Acl, m: Member)
    requires Privileged(acl, m)
    ensures Shielded(acl, m)
  {
  }

  // ---------------------------------------------------------------------------
  // Messages
  // ---------------------------------------------------------------------------

  /** `message.interaction_metadata`, with its `original_response_message_id`. */
  datatype Interaction = Interaction(originalResponseId: Option<nat>)

  datatype Message = Message(
    author: Member,
    channelId: nat,
    guildId: nat,
    content: string,
    mentions: seq<Mention>,
    interaction: Option<Interaction>)

  /** Why a handler returned without acting. */
  datatype Ignore = SelfMessage | BotMessage | ChannelNotObserved | NoMatch | Debounced

  /** Neither the bot itself (`message.author == self.bot.user`, which
      compares ids) nor another bot account wrote the message. */
  predicate FromHuman(botId: nat, msg: Message) {
    msg.author.id != botId && !msg.author.isBot
  }

  /** The author may trigger a roll here: the channel is observed, or the
      author is privileged and so exempt from the channel list. */
  predicate MayAct(acl: Acl, msg: Message) {
    IntToString(msg.channelId) in acl.channels || Privileged(acl, msg.author)
  }

  // ---------------------------------------------------------------------------
  // The pattern gate
  // ---------------------------------------------------------------------------

  /** The `for pattern in ...: if pattern.search(content)` loop. Regular
      expressions are opaque: `search` says whether a pattern finds a match. */
  function MatchesAny<P>(patterns: seq<P>, search: (P, string) -> bool, content: string): (r: bool)
    ensures r <==> exists i :: 0 <= i < |patterns| && search(patterns[i], content)
  {
    if patterns == [] then false
    else if search(patterns[0], content) then
      assert search(patterns[0], content);
      true
    else
      var r := MatchesAny(patterns[1..], search, content);
      assert forall i :: 1 <= i < |patterns| ==> patterns[i] == patterns[1..][i - 1];
      r
  }

  // ---------------------------------------------------------------------------
  // The `_timeout` branching
  // ---------------------------------------------------------------------------

  /** `timedelta(days=28)` in minutes: the longest native timeout. */
  const MaxTimeoutMinutes: int := 28 * 24 * 60

  datatype Verdict =
    | Protect(self: bool)   // shielded target: protected reply, no timeout
    | TooLong               // over 28 days: failure reply, no timeout
    | Apply(self: bool)     // timeout applied, then the affected reply

  /** The branch `_timeout` takes for `target`, rolled by `authorId`. */
  function Judge(acl: Acl, authorId: nat, target: Member, minutes: int): (v: Verdict)
    ensures v.Apply? <==> !Shielded(acl, target) && minutes <= MaxTimeoutMinutes
    ensures v.Protect? <==> Shielded(acl, target)
    ensures (v.Apply? || v.Protect?) ==> (v.self <==> target.id == authorId)
  {
    var isSelf := target.id == authorId;
    if IsProtected(acl, target) || IsModerator(acl, target) || IsAdmin(acl, target.id) then Protect(isSelf)
    else if minutes > MaxTimeoutMinutes then TooLong
    else Apply(isSelf)
  }

  /** Exactly 28 days is still applied; one minute more is refused. */
  lemma CeilingIsInclusive(acl: Acl, authorId: nat, target: Member)
    requires !Shielded(acl, target)
    ensures Judge(acl, authorId, target, 40320).Apply?
    ensures Judge(acl, authorId, target, 40321) == TooLong
  {
  }

  // ---------------------------------------------------------------------------
  // Effects on the platform
  // ---------------------------------------------------------------------------

  /** The platform calls a handler makes, in order. */
  datatype Effect =
    | Wait(seconds: nat)                                  // `await sleep(delay)`
    | ApplyTimeout(target: Member, minutes: int, reason: string)   // `target.timeout(...)`
    | Reply(text: string)                                 // `message.reply(...)`
    | PostStats(url: string, userId: string, guildId: string, minutes: int)

  /** The reason attached to a native timeout. */
  function TimeoutReason(durationLabel: string): string {
    "Timed out for " + durationLabel + " via Roulette"
  }

  /** The reply to a roll over the ceiling. */
  const TooLongReply: string := "Sorry, something went wrong. Please roll again!"

  /** The effects of part of a handler and the exception that ended it, if any. */
  datatype Step<E> = Step(effects: seq<Effect>, error: Option<E>)

  predicate NoTimeouts(effects: seq<Effect>) {
    forall i :: 0 <= i < |effects| ==> !effects[i].ApplyTimeout?
  }

  /** Every timeout among the effects is of an unshielded member for at most 28 days. */
  predicate TimeoutsAllowed(acl: Acl, effects: seq<Effect>) {
    forall i :: 0 <= i < |effects| && effects[i].ApplyTimeout? ==>
      !Shielded(acl, effects[i].target) && effects[i].minutes <= MaxTimeoutMinutes
  }

  /** How many timeouts the effects apply to `m`. */
  function TimeoutsOf(effects: seq<Effect>, m: Member): nat {
    if effects == [] then 0
    else (if effects[0].ApplyTimeout? && effects[0].target == m then 1 else 0) + TimeoutsOf(effects[1..], m)
  }

  lemma {:induction false} TimeoutsAllowedAppend(acl: Acl, a: seq<Effect>, b: seq<Effect>)
    requires TimeoutsAllowed(acl, a) && TimeoutsAllowed(acl, b)
    ensures TimeoutsAllowed(acl, a + b)
  {
    forall i | 0 <= i < |a + b| && (a + b)[i].ApplyTimeout?
      ensures !Shielded(acl, (a + b)[i].target) && (a + b)[i].minutes <= MaxTimeoutMinutes
    {
      if i < |a| {
        assert (a + b)[i] == a[i];
      } else {
        assert (a + b)[i] == b[i - |a|];
      }
    }
  }

  /** Effects without timeouts time nobody out. */
  lemma {:induction false} NoTimeoutsCount(effects: seq<Effect>, m: Member)
    requires NoTimeouts(effects)
    ensures TimeoutsOf(effects, m) == 0
    decreases |effects|
  {
    if effects != [] {
      assert NoTimeouts(effects[1..]) by {
        forall i | 0 <= i < |effects[1..]|
          ensures !effects[1..][i].ApplyTimeout?
        {
          assert effects[1..][i] == effects[i + 1];
        }
      }
      NoTimeoutsCount(effects[1..], m);
    }
  }

  lemma {:induction false} TimeoutsOfAppend(a: seq<Effect>, b: seq<Effect>, m: Member)
    ensures TimeoutsOf(a + b, m) == TimeoutsOf(a, m) + TimeoutsOf(b, m)
    decreases |a|
  {
    if a == [] {
      assert a + b == b;
    } else {
      assert (a + b)[1..] == a[1..] + b;
      TimeoutsOfAppend(a[1..], b, m);
    }
  }

  // ---------------------------------------------------------------------------
  // Counting timeouts across the loop over targets
  // ---------------------------------------------------------------------------

  /** No member is named by two entries of `order`; `who` says which member
      an entry names, if any. */
  predicate NamesDistinct<T>(order: seq<T>, who: T -> Option<Member>) {
    forall i, j :: 0 <= i < j < |order| && who(order[i]).Some? ==> who(order[i]) != who(order[j])
  }

  /** After the first `k` entries of `order`: only the members they name were
      timed out, the `j`-th once when `landed[j]` and otherwise not at all. */
  ghost predicate CountedPrefix<T>(order: seq<T>, who: T -> Option<Member>, landed: seq<bool>, k: nat, effects: seq<Effect>)
    requires |landed| == |order| && k <= |order|
  {
    && (forall m :: (forall j :: 0 <= j < k ==> who(order[j]) != Some(m)) ==> TimeoutsOf(effects, m) == 0)
    && (forall j :: 0 <= j < k && who(order[j]).Some? ==>
          TimeoutsOf(effects, who(order[j]).value) == (if landed[j] then 1 else 0))
  }

  /** A step that times out only the member the `k`-th entry names, once if
      it landed, extends the counted prefix. */
  lemma CountedAdvances<T>(order: seq<T>, who: T -> Option<Member>, landed: seq<bool>, k: nat, effects: seq<Effect>, step: seq<Effect>)
    requires |landed| == |order| && NamesDistinct(order, who) && k < |order|
    requires CountedPrefix(order, who, landed, k, effects)
    requires forall m :: TimeoutsOf(step, m) == (if who(order[k]) == Some(m) && landed[k] then 1 else 0)
    ensures CountedPrefix(order, who, landed, k + 1, effects + step)
  {
    forall m | forall j :: 0 <= j < k + 1 ==> who(order[j]) != Some(m)
      ensures TimeoutsOf(effects + step, m) == 0
    {
      TimeoutsOfAppend(effects, step, m);
      assert who(order[k]) != Some(m);
    }
    forall j | 0 <= j < k + 1 && who(order[j]).Some?
      ensures TimeoutsOf(effects + step, who(order[j]).value) == (if landed[j] then 1 else 0)
    {
      TimeoutsOfAppend(effects, step, who(order[j]).value);
      if j < k {
        assert who(order[j]) != who(order[k]);
      } else {
        assert forall i :: 0 <= i < k ==> who(order[i]) != who(order[j]);
      }
    }
  }

  /** Where the loop stops: each visited entry's member was timed out exactly
      when it landed, and no member of a later entry was timed out. */
  lemma CountedStop<T>(order: seq<T>, who: T -> Option<Member>, landed: seq<bool>, k: nat, effects: seq<Effect>)
    requires |landed| == |order| && NamesDistinct(order, who) && k <= |order|
    requires CountedPrefix(order, who, landed, k, effects)
    ensures forall j :: 0 <= j < k && who(order[j]).Some? ==> (TimeoutsOf(effects, who(order[j]).value) == 1 <==> landed[j])
    ensures forall j :: k <= j < |order| && who(order[j]).Some? ==> TimeoutsOf(effects, who(order[j]).value) == 0
  {
    forall j | k <= j < |order| && who(order[j]).Some?
      ensures TimeoutsOf(effects, who(order[j]).value) == 0
    {
      assert forall i :: 0 <= i < k ==> who(order[i]) != who(order[j]);
    }
  }

  /** What the counted prefix says about every member, wherever the loop stops. */
  lemma CountedBounds<T>(order: seq<T>, who: T -> Option<Member>, landed: seq<bool>, k: nat, effects: seq<Effect>)
    requires |landed| == |order| && NamesDistinct(order, who) && k <= |order|
    requires CountedPrefix(order, who, landed, k, effects)
    ensures forall m :: (forall j :: 0 <= j < |order| ==> who(order[j]) != Some(m)) ==> TimeoutsOf(effects, m) == 0
    ensures forall m :: TimeoutsOf(effects, m) <= 1
    ensures k == |order| ==>
              forall j :: 0 <= j < |order| && who(order[j]).Some? ==> (TimeoutsOf(effects, who(order[j]).value) == 1 <==> landed[j])
  {
    forall m
      ensures TimeoutsOf(effects, m) <= 1
    {
      if exists j :: 0 <= j < k && who(order[j]) == Some(m) {
      } else if exists j :: k <= j < |order| && who(order[j]) == Some(m) {
        var j :| k <= j < |order| && who(order[j]) == Some(m);
        assert forall i :: 0 <= i < k ==> who(order[i]) != who(order[j]);
      }
    }
  }
}
