/** The roulette settings accessors of `config/config.py`.

    The protobuf configuration and the root configuration functions are not
    part of this model: their values arrive as fields of `Configuration`,
    with `None` for an absent protobuf field and for a root setting that
    returned `None`. Ids are protobuf integers, so never negative. */
module Settings {
  import opened Wrappers
  import opened Text
  import Duration
  import Replies

  /** The `roulette_configuration()` protobuf message. */
  datatype RouletteConfiguration = RouletteConfiguration(
    guild: Option<nat>,
    channels: seq<nat>,
    protectedRoles: seq<nat>,
    moderatorRoles: seq<nat>,
    administrators: seq<nat>,
    patterns: seq<string>)

  /** The values of the root configuration functions the accessors wrap. */
  datatype RootSettings = RootSettings(
    unmuteRate: Option<int>,
    timeoutRole: Option<string>,
    affectedSelf: seq<Replies.Template>,
    affectedOther: seq<Replies.Template>,
    protectedSelf: seq<Replies.Template>,
    protectedOther: seq<Replies.Template>,
    intervals: seq<Duration.Interval>,
    responseDelay: Option<int>,
    webhookUrls: Option<seq<string>>)

  datatype Configuration = Configuration(roulette: RouletteConfiguration, root: RootSettings)

  /** The `LookupError`s the required accessors raise. */
  datatype LookupError = NoGuild | NoChannels | NoAdministrators

  /** `tuple(str(x) for x in ids)`: every string reads back as its id. */
  function Stringify(ids: seq<nat>): (r: seq<string>)
    ensures |r| == |ids|
    ensures forall i :: 0 <= i < |r| ==> r[i] == IntToString(ids[i])
    ensures forall i :: 0 <= i < |r| ==> ParseInt(r[i]) == Some(ids[i] as int)
  {
    if ids == [] then []
    else
      ParseIntOfIntToString(ids[0]);
      [IntToString(ids[0])] + Stringify(ids[1..])
  }

  /** A number is listed exactly when its string is among the stringified ids:
      different ids never print alike. */
  lemma StringifyListed(ids: seq<nat>, x: int)
    ensures IntToString(x) in Stringify(ids) <==> x in ids
  {
    var r := Stringify(ids);
    if IntToString(x) in r {
      var i :| 0 <= i < |r| && r[i] == IntToString(x);
      assert ParseInt(r[i]) == Some(ids[i] as int);
      ParseIntOfIntToString(x);
      assert ids[i] as int == x;
    }
    if x in ids {
      var i :| 0 <= i < |ids| && ids[i] as int == x;
      assert r[i] == IntToString(ids[i]);
    }
  }

  /** `guild()`: the id as a string, or `LookupError` when the field is absent. */
  function Guild(c: RouletteConfiguration): (r: Result<string, LookupError>)
    ensures r.Failure? <==> c.guild.None?
    ensures r.Failure? ==> r.error == NoGuild
    ensures r.Success? ==> ParseInt(r.value) == Some(c.guild.value as int)
  {
    match c.guild
    case None => Failure(NoGuild)
    case Some(g) =>
      ParseIntOfIntToString(g);
      Success(IntToString(g))
  }

  /** `channels()`: the observed channel ids, raising when none are configured. */
  function Channels(c: RouletteConfiguration): (r: Result<seq<string>, LookupError>)
    ensures r.Failure? <==> c.channels == []
    ensures r.Failure? ==> r.error == NoChannels
    ensures r.Success? ==> |r.value| == |c.channels|
    ensures r.Success? ==> forall i :: 0 <= i < |c.channels| ==> ParseInt(r.value[i]) == Some(c.channels[i] as int)
  {
    var ids := Stringify(c.channels);
    if |ids| > 0 then Success(ids) else Failure(NoChannels)
  }

  /** `protected()`: possibly empty, never raises. */
  function Protected(c: RouletteConfiguration): (r: seq<string>)
    ensures |r| == |c.protectedRoles|
    ensures forall i :: 0 <= i < |r| ==> ParseInt(r[i]) == Some(c.protectedRoles[i] as int)
  {
    Stringify(c.protectedRoles)
  }

  /** `moderator()`: possibly empty, never raises. */
  function Moderator(c: RouletteConfiguration): (r: seq<string>)
    ensures |r| == |c.moderatorRoles|
    ensures forall i :: 0 <= i < |r| ==> ParseInt(r[i]) == Some(c.moderatorRoles[i] as int)
  {
    Stringify(c.moderatorRoles)
  }

  /** `administrator()`: the administrator user ids, raising when none are configured. */
  function Administrator(c: RouletteConfiguration): (r: Result<seq<string>, LookupError>)
    ensures r.Failure? <==> c.administrators == []
    ensures r.Failure? ==> r.error == NoAdministrators
    ensures r.Success? ==> |r.value| == |c.administrators|
    ensures r.Success? ==> forall i :: 0 <= i < |c.administrators| ==> ParseInt(r.value[i]) == Some(c.administrators[i] as int)
  {
    var ids := Stringify(c.administrators);
    if |ids| > 0 then Success(ids) else Failure(NoAdministrators)
  }

  /** `unmute_rate()`: `rate or 1`, so never zero. */
  function UnmuteRate(rate: Option<int>): (r: int)
    ensures r != 0
    ensures rate.Some? && rate.value != 0 ==> r == rate.value
    ensures rate.None? || rate.value == 0 ==> r == 1
  {
    match rate
    case Some(v) => if v != 0 then v else 1
    case None => 1
  }

  /** `timeout_role()`: `role or None`, so an empty string counts as unset. */
  function TimeoutRole(role: Option<string>): (r: Option<string>)
    ensures r.None? <==> role.None? || role.value == ""
    ensures r.Some? ==> r == role
  {
    match role
    case Some(s) => if s != "" then Some(s) else None
    case None => None
  }

  /** `roll_timeout_response_delay_seconds()`: `delay or 0`. */
  function ResponseDelay(delay: Option<int>): (r: int)
    ensures r == 0 <==> delay.None? || delay.value == 0
    ensures delay.Some? ==> r == delay.value
  {
    match delay
    case Some(v) => v
    case None => 0
  }

  /** `roll_timeout_leaderboard_webhook_urls()`: the urls, or the empty tuple
      when unset or empty. */
  function WebhookUrls(urls: Option<seq<string>>): (r: seq<string>)
    ensures r == [] <==> urls.None? || urls.value == []
    ensures urls.Some? ==> r == urls.value
  {
    match urls
    case Some(u) => if u != [] then u else []
    case None => []
  }
}
