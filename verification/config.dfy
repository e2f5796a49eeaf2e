/** Resolution of the access token and validation of the command-line criteria
    (index.js lines 8-9, 63 and 73-89). */
module Config {
  import opened Wrappers

  /** The values accepted by `--type`. */
  const RepositoryTypes: set<string> := {"public", "private", "fork"}

  /** The values accepted by `--compare`. */
  const CompareTypes: set<string> := {"updatedAt", "pushedAt", "createdAt"}

  /** Age bounds, already resolved to absolute instants in milliseconds. */
  datatype Bounds = Bounds(after: Option<int>, before: Option<int>)
  {
    predicate HasBound()
    {
      after.Some? || before.Some?
    }
  }

  /** The configuration as the command line and the environment deliver it. */
  datatype RawConfig = RawConfig(
    bounds: Bounds,
    types: set<string>,
    compare: set<string>,
    tokenFlag: Option<string>,
    tokenEnv: Option<string>)

  /** The criteria once validation has accepted them. */
  datatype FilterSpec = FilterSpec(
    bounds: Bounds,
    types: set<string>,
    compare: set<string>,
    token: string)
  {
    predicate Valid()
    {
      && bounds.HasBound()
      && types <= RepositoryTypes
      && compare <= CompareTypes
      && token != ""
    }
  }

  /** The four rules, in the order in which they are checked. */
  datatype ConfigError = MissingBound | BadType | BadCompare | MissingToken

  function Rank(e: ConfigError): nat
  {
    match e
    case MissingBound => 0
    case BadType => 1
    case BadCompare => 2
    case MissingToken => 3
  }

  /** JavaScript truthiness of an optional string: present and not empty. */
  predicate Truthy(s: Option<string>)
  {
    s.Some? && s.value != ""
  }

  /** `flag || env`: the flag when it is truthy, the environment value otherwise. */
  function ResolveToken(flag: Option<string>, env: Option<string>): (token: Option<string>)
    ensures Truthy(token) <==> Truthy(flag) || Truthy(env)
    ensures Truthy(flag) ==> token == flag
    ensures !Truthy(flag) ==> token == env
  {
    if Truthy(flag) then flag else env
  }

  /** Whether the configuration breaks rule `e`. */
  predicate Violated(raw: RawConfig, e: ConfigError)
  {
    match e
    case MissingBound => !raw.bounds.HasBound()
    case BadType => !(raw.types <= RepositoryTypes)
    case BadCompare => !(raw.compare <= CompareTypes)
    case MissingToken => !Truthy(ResolveToken(raw.tokenFlag, raw.tokenEnv))
  }

  /** Checks the rules in order and reports the first one that is broken. */
  function Validate(raw: RawConfig): (r: Result<FilterSpec, ConfigError>)
    ensures r.Success? <==> forall e :: !Violated(raw, e)
    ensures r.Success? ==>
      && r.value.Valid()
      && r.value.bounds == raw.bounds
      && r.value.types == raw.types
      && r.value.compare == raw.compare
      && Some(r.value.token) == ResolveToken(raw.tokenFlag, raw.tokenEnv)
    ensures r.Failure? ==>
      && Violated(raw, r.error)
      && forall e :: Rank(e) < Rank(r.error) ==> !Violated(raw, e)
  {
    if !raw.bounds.HasBound() then
      assert Violated(raw, MissingBound);
      Failure(MissingBound)
    else if !(raw.types <= RepositoryTypes) then
      assert Violated(raw, BadType);
      Failure(BadType)
    else if !(raw.compare <= CompareTypes) then
      assert Violated(raw, BadCompare);
      Failure(BadCompare)
    else
      var token := ResolveToken(raw.tokenFlag, raw.tokenEnv);
      if !Truthy(token) then
        assert Violated(raw, MissingToken);
        Failure(MissingToken)
      else
        Success(FilterSpec(raw.bounds, raw.types, raw.compare, token.value))
  }

  /** Conversely, whenever `e` is the first broken rule, `e` is what is reported. */
  lemma FirstViolationUnique(raw: RawConfig, e: ConfigError)
    requires Violated(raw, e)
    requires forall e' :: Rank(e') < Rank(e) ==> !Violated(raw, e')
    ensures Validate(raw) == Failure(e)
  {
  }
}
