/** The Redis connection settings of `database/redis_config.py`: an
    `AMAZAKE_REDIS_*` environment variable that is set wins, then a field
    present in the Redis configuration, then the default.

    The environment is a map from variable name to value; the protobuf
    configuration comes in with `None` for an absent field. */
module RedisSettings {
  import opened Wrappers
  import opened Text

  const EnvPrefix: string := "AMAZAKE_REDIS"
  const HostVar: string := EnvPrefix + "_HOST"
  const PortVar: string := EnvPrefix + "_PORT"
  const UsernameVar: string := EnvPrefix + "_USERNAME"
  const PasswordVar: string := EnvPrefix + "_PASSWORD"

  const DefaultHost: string := "localhost"
  const DefaultPort: int := 6379

  datatype RedisConfiguration = RedisConfiguration(
    host: Option<string>,
    port: Option<int>,
    username: Option<string>,
    password: Option<string>)

  /** `int(env_port)` raised `ValueError` on the variable's text. */
  datatype PortError = NotAnInteger(text: string)

  /** The value a setting takes: the environment first (`is not None`, so an
      empty value still counts), then the configuration field. */
  function Pick(env: map<string, string>, name: string, field: Option<string>): (r: Option<string>)
    ensures name in env ==> r == Some(env[name])
    ensures name !in env ==> r == field
  {
    if name in env then Some(env[name]) else field
  }

  /** `host()`. */
  function Host(env: map<string, string>, c: RedisConfiguration): (r: string)
    ensures HostVar in env ==> r == env[HostVar]
    ensures HostVar !in env && c.host.Some? ==> r == c.host.value
    ensures HostVar !in env && c.host.None? ==> r == DefaultHost
  {
    match Pick(env, HostVar, c.host)
    case Some(h) => h
    case None => DefaultHost
  }

  /** `port()`: the variable's text goes through `int()`. */
  function Port(env: map<string, string>, c: RedisConfiguration): (r: Result<int, PortError>)
    ensures PortVar in env ==> (r.Failure? <==> ParseInt(env[PortVar]).None?)
    ensures PortVar in env && r.Success? ==> Some(r.value) == ParseInt(env[PortVar])
    ensures r.Failure? ==> PortVar in env && r.error == NotAnInteger(env[PortVar])
    ensures PortVar !in env && c.port.Some? ==> r == Success(c.port.value)
    ensures PortVar !in env && c.port.None? ==> r == Success(DefaultPort)
  {
    if PortVar in env then
      match ParseInt(env[PortVar])
      case Some(p) => Success(p)
      case None => Failure(NotAnInteger(env[PortVar]))
    else
      match c.port
      case Some(p) => Success(p)
      case None => Success(DefaultPort)
  }

  /** `username()`: `None` when neither source sets it. */
  function Username(env: map<string, string>, c: RedisConfiguration): (r: Option<string>)
    ensures r.None? <==> UsernameVar !in env && c.username.None?
    ensures UsernameVar in env ==> r == Some(env[UsernameVar])
    ensures UsernameVar !in env ==> r == c.username
  {
    Pick(env, UsernameVar, c.username)
  }

  /** `password()`: `None` when neither source sets it. */
  function Password(env: map<string, string>, c: RedisConfiguration): (r: Option<string>)
    ensures r.None? <==> PasswordVar !in env && c.password.None?
    ensures PasswordVar in env ==> r == Some(env[PasswordVar])
    ensures PasswordVar !in env ==> r == c.password
  {
    Pick(env, PasswordVar, c.password)
  }

  /** With nothing set anywhere the client connects to `localhost:6379`
      without credentials. */
  lemma Defaults()
    ensures var none := RedisConfiguration(None, None, None, None);
            Host(map[], none) == "localhost" && Port(map[], none) == Success(6379)
            && Username(map[], none).None? && Password(map[], none).None?
  {
  }

  /** A variable set to the empty string still overrides a configured value. */
  lemma EmptyVariableWins(env: map<string, string>, c: RedisConfiguration)
    requires HostVar in env && env[HostVar] == "" && c.host.Some? && c.host.value != ""
    ensures Host(env, c) == "" && Host(env, c) != c.host.value
  {
  }

  /** Any port written out in decimal, with or without surrounding
      whitespace, is read back from the environment. */
  lemma PortFromEnvironment(env: map<string, string>, c: RedisConfiguration, p: int, a: string, b: string)
    requires AllSpace(a) && AllSpace(b) && PortVar in env && env[PortVar] == a + IntToString(p) + b
    ensures Port(env, c) == Success(p)
  {
    StripIgnoresPadding(a, IntToString(p), b);
    ParseIntOfIntToString(p);
    assert ParseInt(a + IntToString(p) + b) == ParseInt(IntToString(p));
  }

  /** Text that is not a decimal integer fails, whatever the configuration
      says. */
  lemma PortNotANumber(env: map<string, string>, c: RedisConfiguration)
    requires PortVar in env && env[PortVar] == "six"
    ensures Port(env, c) == Failure(NotAnInteger("six"))
  {
    assert Strip("six") == "six" by {
      assert TrimStart("six") == "six";
      assert TrimEnd("six") == "six";
    }
    assert !IsDigit('s');
  }
}
