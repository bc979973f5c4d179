/** Reply templates: `random.choice(templates).format(**keywords)`.

    A template is held already split into literal text and replacement
    fields; only the field names matter here. `str.format` raises `KeyError`
    for a field no keyword supplies and ignores unused keywords;
    `random.choice` of an empty tuple raises `IndexError`. */
module Replies {
  import opened Wrappers

  datatype Piece = Lit(text: string) | Field(name: string)

  type Template = seq<Piece>

  datatype ReplyError =
    | NoTemplates             // `IndexError` from `random.choice(())`
    | MissingKey(key: string) // `KeyError` from `str.format`

  /** The names of the replacement fields a template uses. */
  function Fields(t: Template): set<string> {
    set i | 0 <= i < |t| && t[i].Field? :: t[i].name
  }

  /** `template.format(**args)`. */
  function Format(t: Template, args: map<string, string>): (r: Result<string, ReplyError>)
    ensures r.Success? <==> Fields(t) <= args.Keys
    ensures r.Failure? ==> r.error.MissingKey? && r.error.key in Fields(t) && r.error.key !in args
  {
    if t == [] then Success("")
    else
      FieldsCons(t);
      match t[0]
      case Lit(s) =>
        var rest :- Format(t[1..], args);
        Success(s + rest)
      case Field(k) =>
        if k !in args then Failure(MissingKey(k))
        else
          var rest :- Format(t[1..], args);
          Success(args[k] + rest)
  }

  lemma FieldsCons(t: Template)
    requires t != []
    ensures Fields(t) == (if t[0].Field? then {t[0].name} else {}) + Fields(t[1..])
  {
    var head := if t[0].Field? then {t[0].name} else {};
    forall k | k in Fields(t)
      ensures k in head + Fields(t[1..])
    {
      var i :| 0 <= i < |t| && t[i].Field? && t[i].name == k;
      if i > 0 {
        assert t[1..][i - 1] == t[i];
      }
    }
    forall k | k in Fields(t[1..])
      ensures k in Fields(t)
    {
      var i :| 0 <= i < |t[1..]| && t[1..][i].Field? && t[1..][i].name == k;
      assert t[i + 1] == t[1..][i];
    }
  }

  /** The text of a template made of literals only. */
  function Literal(t: Template): string {
    if t == [] then "" else (if t[0].Lit? then t[0].text else "") + Literal(t[1..])
  }

  /** A template without fields formats to its own text, whatever the keywords. */
  lemma {:induction false} FormatLiteral(t: Template, args: map<string, string>)
    requires forall i :: 0 <= i < |t| ==> t[i].Lit?
    ensures Format(t, args) == Success(Literal(t))
    decreases |t|
  {
    if t != [] {
      FormatLiteral(t[1..], args);
    }
  }

  /** Keywords a template does not use change nothing: two keyword sets that
      agree on the template's fields format it alike. */
  lemma {:induction false} FormatIgnoresUnused(t: Template, a: map<string, string>, b: map<string, string>)
    requires Fields(t) <= a.Keys && Fields(t) <= b.Keys
    requires forall k :: k in Fields(t) ==> a[k] == b[k]
    ensures Format(t, a) == Format(t, b)
    decreases |t|
  {
    if t != [] {
      FieldsCons(t);
      FormatIgnoresUnused(t[1..], a, b);
    }
  }

  /** `random.choice(templates)` with the draw reduced to an index. */
  function Pick(templates: seq<Template>, draw: nat): (r: Result<Template, ReplyError>)
    ensures r.Failure? <==> templates == []
    ensures r.Failure? ==> r.error == NoTemplates
    ensures r.Success? ==> r.value in templates
  {
    if templates == [] then Failure(NoTemplates) else Success(templates[draw % |templates|])
  }

  /** `random.choice(templates).format(**args)`. */
  function Compose(templates: seq<Template>, draw: nat, args: map<string, string>): (r: Result<string, ReplyError>)
    ensures templates == [] ==> r == Failure(NoTemplates)
    ensures r.Success? <==> templates != [] && Fields(templates[draw % |templates|]) <= args.Keys
  {
    var t :- Pick(templates, draw);
    Format(t, args)
  }

  /** The keywords most replies are formatted with. */
  function PlainArgs(name: string, durationLabel: string): map<string, string> {
    map["user_name" := name, "duration_label" := durationLabel]
  }

  /** The keywords the reply for a protected other member, and every reply of
      the older handler, are formatted with; also the placeholders the
      settings document for all four reply kinds. */
  function PrefixedArgs(name: string, durationLabel: string): map<string, string> {
    map["timeout_user_name" := name, "timeout_duration_label" := durationLabel]
  }

  /** A template written with the documented placeholders cannot be formatted
      with the plain keywords, and the other way round. */
  lemma KeywordSetsDisagree(name: string, durationLabel: string)
    ensures Format([Field("timeout_user_name")], PlainArgs(name, durationLabel)) == Failure(MissingKey("timeout_user_name"))
    ensures Format([Field("user_name")], PrefixedArgs(name, durationLabel)) == Failure(MissingKey("user_name"))
  {
    assert Format([Field("timeout_user_name")][1..], PlainArgs(name, durationLabel)) == Success("");
  }
}
