/** The per-record decision: the range test `inRange` (index.js lines 101-106) and the
    checks applied to each repository inside the selection loop (lines 113-134). */
module Selector {
  import opened Wrappers
  import opened Config

  /** One repository record of a listing page; timestamps are already parsed and may be null. */
  datatype Repo = Repo(
    name: string,
    fullName: string,
    isPrivate: bool,
    isFork: bool,
    archived: bool,
    disabled: bool,
    createdAt: Option<int>,
    updatedAt: Option<int>,
    pushedAt: Option<int>)

  /** The range test. `None` stands for the TypeError raised when neither bound is set.
      With both bounds the test is the union "older than before OR newer than after". */
  function InRange(b: Bounds, t: int): (r: Option<bool>)
    ensures r.None? <==> !b.HasBound()
    ensures r == Some(true) <==>
      (b.after.Some? && t > b.after.value) || (b.before.Some? && t < b.before.value)
  {
    if b.after.Some? && b.before.Some? then Some(t < b.before.value || t > b.after.value)
    else if b.after.Some? then Some(t > b.after.value)
    else if b.before.Some? then Some(t < b.before.value)
    else None
  }

  /** The requirement that an active `--type` value places on a repository. */
  predicate Meets(repo: Repo, t: string)
  {
    match t
    case "public" => !repo.isPrivate
    case "private" => repo.isPrivate
    case "fork" => repo.isFork
    case _ => true
  }

  /** The three type checks, each its own `continue`. They combine as AND: a record passes
      iff it meets every active requirement. */
  function TypeStage(types: set<string>, repo: Repo): (pass: bool)
    ensures pass <==> forall t :: t in types ==> Meets(repo, t)
  {
    if "public" in types && repo.isPrivate then false
    else if "private" in types && !repo.isPrivate then false
    else if "fork" in types && !repo.isFork then false
    else true
  }

  /** The timestamp a `--compare` value refers to. */
  function Stamp(repo: Repo, field: string): Option<int>
  {
    match field
    case "createdAt" => repo.createdAt
    case "updatedAt" => repo.updatedAt
    case "pushedAt" => repo.pushedAt
    case _ => None
  }

  /** The `if … else if … else if` date chain. Every branch skips the record, so a later
      field is still checked when an earlier one is inactive, null or in range: the record
      passes exactly when every active, non-null field is in range. */
  function DateStage(b: Bounds, compare: set<string>, repo: Repo): (pass: bool)
    requires b.HasBound()
    ensures pass <==>
      forall f :: f in compare && Stamp(repo, f).Some? ==> InRange(b, Stamp(repo, f).value) == Some(true)
  {
    if "createdAt" in compare && repo.createdAt.Some? && !InRange(b, repo.createdAt.value).value then false
    else if "updatedAt" in compare && repo.updatedAt.Some? && !InRange(b, repo.updatedAt.value).value then false
    else if "pushedAt" in compare && repo.pushedAt.Some? && !InRange(b, repo.pushedAt.value).value then false
    else true
  }

  /** Whether the loop appends `repo` to the target list. */
  function Selected(spec: FilterSpec, repo: Repo): (pass: bool)
    requires spec.bounds.HasBound()
    ensures pass ==> !repo.disabled && !repo.archived
  {
    if repo.disabled || repo.archived then false
    else TypeStage(spec.types, repo) && DateStage(spec.bounds, spec.compare, repo)
  }

  /** A record is selected iff it is neither disabled nor archived, meets every active type
      requirement, and every active non-null timestamp is in range. */
  lemma SelectedMeaning(spec: FilterSpec, repo: Repo)
    requires spec.bounds.HasBound()
    ensures Selected(spec, repo) <==>
      && !repo.disabled && !repo.archived
      && (forall t :: t in spec.types ==> Meets(repo, t))
      && (forall f :: f in spec.compare && Stamp(repo, f).Some? ==>
            InRange(spec.bounds, Stamp(repo, f).value) == Some(true))
  {
  }

  /** Asking for both `public` and `private` selects nothing: the filters are conjunctive. */
  lemma PublicAndPrivateSelectNothing(spec: FilterSpec, repo: Repo)
    requires spec.bounds.HasBound()
    requires "public" in spec.types && "private" in spec.types
    ensures !Selected(spec, repo)
  {
  }

  /** With `{public, fork}` a private fork fails the `public` requirement. */
  lemma PrivateForkFailsPublicFork(spec: FilterSpec, repo: Repo)
    requires spec.bounds.HasBound()
    requires spec.types == {"public", "fork"}
    requires repo.isPrivate && repo.isFork
    ensures !Selected(spec, repo)
  {
  }

  /** A later compare field is still checked after an earlier one passes: a record whose
      `createdAt` is in range but whose `pushedAt` is out of range is rejected. */
  lemma LaterFieldStillChecked(spec: FilterSpec, repo: Repo, c: int, p: int)
    requires spec.bounds.HasBound()
    requires "createdAt" in spec.compare && "pushedAt" in spec.compare
    requires repo.createdAt == Some(c) && repo.pushedAt == Some(p)
    requires InRange(spec.bounds, c) == Some(true) && InRange(spec.bounds, p) == Some(false)
    ensures !Selected(spec, repo)
  {
  }

  /** Null timestamps and inactive fields impose nothing: a record with no timestamps
      passes the date stage whatever the bounds. */
  lemma NullStampsImposeNothing(b: Bounds, compare: set<string>, repo: Repo)
    requires b.HasBound()
    requires repo.createdAt.None? && repo.updatedAt.None? && repo.pushedAt.None?
    ensures DateStage(b, compare, repo)
  {
  }

  /** Every comparison is strict: a timestamp equal to a bound is out of range for it. */
  lemma BoundItselfOutOfRange(b: Bounds)
    requires b.HasBound()
    ensures b.after.Some? && b.before.None? ==> InRange(b, b.after.value) == Some(false)
    ensures b.before.Some? && b.after.None? ==> InRange(b, b.before.value) == Some(false)
  {
  }

  /** When `after` lies before `before` the union covers every instant. */
  lemma CrossedBoundsAcceptAll(b: Bounds, t: int)
    requires b.after.Some? && b.before.Some? && b.after.value < b.before.value
    ensures InRange(b, t) == Some(true)
  {
  }
}
