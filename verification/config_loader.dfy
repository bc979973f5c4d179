/** `Config.__init__` of the older handler's remotely loaded configuration.

    The fetch, the TOML decoding and the schema validation of `load_config`
    are not part of this model; `RawConfig` is the decoded document after
    validation. The schema does not list `acl.match_patterns`, so a valid
    document may lack it, and the constructor then raises `KeyError`. */
module ConfigLoader {
  import opened Wrappers
  import opened Text
  import Replies

  datatype RawAcl = RawAcl(
    channels: seq<string>,
    matchPatterns: Option<seq<string>>,
    protectedRoles: seq<string>,
    moderator: seq<string>,
    administrator: seq<string>)

  datatype RawMessages = RawMessages(
    affectedSelf: seq<Replies.Template>,
    affectedOther: seq<Replies.Template>,
    protectedSelf: seq<Replies.Template>,
    protectedOther: seq<Replies.Template>)

  datatype RawConfig = RawConfig(acl: RawAcl, messages: RawMessages)

  /** The normalised configuration; the datatype's fields are its properties. */
  datatype Config = Config(
    channels: set<string>,
    matchPatterns: seq<string>,
    protectedRoles: set<string>,
    moderators: set<string>,
    administrators: set<string>,
    messages: RawMessages)

  /** The `KeyError` for the missing `acl.match_patterns`. */
  datatype LoadError = MissingMatchPatterns

  /** `set([x.strip() for x in xs])`. */
  function StripAll(xs: seq<string>): (r: set<string>)
    ensures forall s :: s in r <==> s in Stripped(xs)
    ensures |r| <= |xs|
  {
    if xs == [] then {}
    else
      var rest := StripAll(xs[1..]);
      {Strip(xs[0])} + rest
  }

  /** The stripped entries, in order. */
  function Stripped(xs: seq<string>): (r: seq<string>)
    ensures |r| == |xs|
    ensures forall i :: 0 <= i < |xs| ==> r[i] == Strip(xs[i])
  {
    if xs == [] then []
    else
      var rest := Stripped(xs[1..]);
      assert forall i :: 1 <= i < |xs| ==> rest[i - 1] == Strip(xs[i]) by {
        assert forall i :: 1 <= i < |xs| ==> xs[1..][i - 1] == xs[i];
      }
      [Strip(xs[0])] + rest
  }

  /** `entries` holds exactly the configured entries without their
      surrounding whitespace. */
  ghost predicate StrippedOf(entries: set<string>, xs: seq<string>) {
    forall s :: s in entries <==> exists i :: 0 <= i < |xs| && Strip(xs[i]) == s
  }

  lemma StripAllMeaning(xs: seq<string>)
    ensures StrippedOf(StripAll(xs), xs)
  {
    var stripped := Stripped(xs);
    forall s | s in StripAll(xs)
      ensures exists i :: 0 <= i < |xs| && Strip(xs[i]) == s
    {
      var i :| 0 <= i < |stripped| && stripped[i] == s;
    }
  }

  /** `Config(res)`: the four access lists stripped into sets, the patterns
      and the message lists kept as given. */
  function Load(raw: RawConfig): (r: Result<Config, LoadError>)
    ensures r.Failure? <==> raw.acl.matchPatterns.None?
    ensures r.Success? ==> r.value.matchPatterns == raw.acl.matchPatterns.value
    ensures r.Success? ==> r.value.messages == raw.messages
    ensures r.Success? ==> StrippedOf(r.value.channels, raw.acl.channels)
    ensures r.Success? ==> StrippedOf(r.value.protectedRoles, raw.acl.protectedRoles)
    ensures r.Success? ==> StrippedOf(r.value.moderators, raw.acl.moderator)
    ensures r.Success? ==> StrippedOf(r.value.administrators, raw.acl.administrator)
    ensures r.Success? ==> |r.value.channels| <= |raw.acl.channels|
    ensures r.Success? ==> |r.value.protectedRoles| <= |raw.acl.protectedRoles|
    ensures r.Success? ==> |r.value.moderators| <= |raw.acl.moderator|
    ensures r.Success? ==> |r.value.administrators| <= |raw.acl.administrator|
  {
    match raw.acl.matchPatterns
    case None => Failure(MissingMatchPatterns)
    case Some(patterns) =>
      StripAllMeaning(raw.acl.channels);
      StripAllMeaning(raw.acl.protectedRoles);
      StripAllMeaning(raw.acl.moderator);
      StripAllMeaning(raw.acl.administrator);
      Success(Config(
        StripAll(raw.acl.channels),
        patterns,
        StripAll(raw.acl.protectedRoles),
        StripAll(raw.acl.moderator),
        StripAll(raw.acl.administrator),
        raw.messages))
  }

  /** Spellings that differ only in surrounding whitespace collapse into one
      entry. */
  lemma PaddedSpellingsCollapse(s: string, a: string, b: string)
    requires AllSpace(a) && AllSpace(b)
    ensures StripAll([s, a + s + b]) == {Strip(s)}
  {
    StripIgnoresPadding(a, s, b);
    var xs := [s, a + s + b];
    assert Stripped(xs) == [Strip(s), Strip(s)];
  }

  /** An id configured with surrounding whitespace still matches the `str` of
      that id, which is how the handlers look members up. */
  lemma PaddedIdListed(xs: seq<string>, id: int, a: string, b: string)
    requires AllSpace(a) && AllSpace(b) && a + IntToString(id) + b in xs
    ensures IntToString(id) in StripAll(xs)
  {
    IntToStringHasNoSpace(id);
    PaddedListed(xs, IntToString(id), a, b);
  }

  lemma PaddedListed(xs: seq<string>, v: string, a: string, b: string)
    requires AllSpace(a) && AllSpace(b) && a + v + b in xs && Strip(v) == v
    ensures v in StripAll(xs)
  {
    var i :| 0 <= i < |xs| && xs[i] == a + v + b;
    StripIgnoresPadding(a, v, b);
    assert Stripped(xs)[i] == v;
  }

  /** An entry of the stripped set is some configured entry without its
      surrounding whitespace, and so never starts or ends with whitespace. */
  lemma StrippedEntriesUnpadded(xs: seq<string>, s: string)
    requires s in StripAll(xs)
    ensures Strip(s) == s
    ensures |s| > 0 ==> !IsSpace(s[0]) && !IsSpace(s[|s| - 1])
  {
    var stripped := Stripped(xs);
    assert s in stripped;
    var i :| 0 <= i < |stripped| && stripped[i] == s;
    StripIdempotent(xs[i]);
    StripShape(xs[i]);
  }
}
