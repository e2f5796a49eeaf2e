# gh-archiver selection engine, modelled in Dafny

gh-archiver lists the repositories of the authenticated GitHub user and picks the ones to
archive. The picking uses age bounds (`--after`, `--before`), the timestamps to compare
(`--compare`: `createdAt`, `updatedAt`, `pushedAt`) and repository types (`--type`: `public`,
`private`, `fork`). It then asks for confirmation and archives every selected repository with
one request each, reporting each request that fails.

This project models the decision logic of `index.js`:

- `wrappers.dfy` (module `Wrappers`): `Option`, `Result`, and a predicate for increasing index lists.
- `config.dfy` (module `Config`): token resolution (`flag || env`) and the four validation rules,
  checked in order: a bound exists, the `--type` values are known, the `--compare` values are
  known, a token exists. The first broken rule is reported.
- `selector.dfy` (module `Selector`): the repository record, the range test `inRange` and the
  per-record checks of the selection loop.
- `selection.dfy` (module `Selection`): the nested loop over listing pages (`SelectTargets` over pages,
  `SelectFromPage` over the records of one page). It appends every
  surviving record to the target list. It is proved equal to `Candidates`, a pure filter over the
  flattened pages, and lemmas pin `Candidates` down as exactly the in-order subsequence of
  selected records.
- `orchestrator.dfy` (module `Orchestrator`): the empty-list exit, the confirmation answer, one
  archive request per target, and the loop that reports rejected outcomes.
- `pipeline.dfy` (module `Pipeline`): one whole run, from raw configuration to exit.

These behaviours are counter-intuitive, and the model keeps them exactly:

- With both bounds set, the range test is a union: `t < before || t > after`. All comparisons are strict.
- Type filters are requirements that combine with AND. `{public, private}` selects nothing, and
  `{public, fork}` rejects a private fork.
- The date checks form an `if … else if … else if` chain in which every branch skips the record.
  So a record is kept only when every compare field that is active and non-null is in range.
  The chain is not a priority pick: a later field is still checked after an earlier one passes
  (`Selector.LaterFieldStillChecked`).

External inputs are parameters:

- the bounds, already resolved to instants;
- the login of the authenticated user;
- the listing pages, as `seq<seq<Repo>>`;
- the answer typed at the prompt;
- the provider's reply to each archive request, as a function from request to outcome.

## Model

| member | source | states |
|---|---|---|
| `Config.ResolveToken` | index.js:63 | The token is truthy iff the flag or the environment value is truthy. A truthy flag wins. Otherwise the environment value is used. |
| `Config.Validate` | index.js:73-89 | Success iff no rule is broken. On success the criteria are kept unchanged, with the resolved token, and they are valid. On failure the reported rule is broken and every earlier rule holds. |
| `Config.FirstViolationUnique` | index.js:79-89 | Whenever a rule is broken and all earlier rules hold, validation reports exactly that rule. |
| `Selector.InRange` | index.js:101-106 | Fails (TypeError) iff there is no bound. Otherwise in range iff strictly newer than `after` or strictly older than `before`, for the bounds that are set: a union. |
| `Selector.BoundItselfOutOfRange` | index.js:102-104 | With a single bound, a timestamp equal to that bound is out of range. |
| `Selector.CrossedBoundsAcceptAll` | index.js:102 | When `after` < `before`, every timestamp is in range. |
| `Selector.TypeStage` | index.js:114-116 | The type checks pass iff the record meets every active requirement: `public` needs non-private, `private` needs private, `fork` needs a fork. |
| `Selector.DateStage` | index.js:117-134 | The date chain passes iff every active compare field with a non-null timestamp is in range. |
| `Selector.Selected` | index.js:113 | A selected record is never disabled or archived. |
| `Selector.SelectedMeaning` | index.js:113-134 | Selected iff not disabled, not archived, meets every active type requirement, and every active non-null timestamp is in range. |
| `Selector.PublicAndPrivateSelectNothing` | index.js:114-115 | With both `public` and `private` active, no record is selected. |
| `Selector.PrivateForkFailsPublicFork` | index.js:114-116 | With `{public, fork}`, a private fork is rejected. |
| `Selector.LaterFieldStillChecked` | index.js:117-134 | `createdAt` in range but `pushedAt` out of range, with both active: the record is rejected. |
| `Selector.NullStampsImposeNothing` | index.js:117-134 | A record with no timestamps passes the date checks, whatever the bounds and compare fields. |
| `Selection.Candidates` | index.js:111-139 | There are never more targets than records. |
| `Selection.SelectFromPage` | index.js:112-138 | The record-by-record loop over one page extends the targets so far to exactly the selection over the records seen plus this page. |
| `Selection.SelectTargets` | index.js:97-139 | The page-by-page loop, starting from an empty list, builds exactly the selection filter over the concatenated pages. |
| `Selection.CandidatesAreSelectedSubsequence` | index.js:111-139 | The targets are the records at an increasing list of positions, and a position is on that list iff its record is selected. |
| `Selection.CandidatesCount` | index.js:113-137 | Every occurrence of a selected record is kept, and records that are not selected never appear. |
| `Selection.CandidatesAppend` | index.js:111-112 | Selecting over two concatenated listings gives the two selections concatenated, so page boundaries do not matter. |
| `Selection.FlattenHoldsEveryRecord` | index.js:111-112 | The concatenated listing has the total record count, holds every record of every page, and nothing else. |
| `Selection.FlattenAt` | index.js:111-112 | Records keep page order: record `i` of page `p` sits at position (records on earlier pages) + `i` of the concatenated listing. |
| `Selection.TargetsNeverArchivedOrDisabled` | index.js:113-137 | No target is disabled or archived, and there are at most as many targets as records over all pages. |
| `Orchestrator.Lower` | index.js:152 | Lowercasing keeps the length and maps each character through ASCII lowercasing. |
| `Orchestrator.Confirmed` | index.js:147-152 | The answer confirms iff it is non-empty and starts with `y` or `Y`. |
| `Orchestrator.Rejections` | index.js:167-169 | At most one report per outcome. |
| `Orchestrator.ReportRejections` | index.js:167-169 | The reporting loop reports exactly the rejected outcomes. |
| `Orchestrator.RejectionsExactlyRejected` | index.js:167-169 | The reports are the reasons of the rejected outcomes, in outcome order. A position is reported iff its outcome was rejected. |
| `Orchestrator.NothingReportedIffAllFulfilled` | index.js:167-169 | Nothing is reported iff every request was fulfilled. |
| `Orchestrator.Orchestrate` | index.js:141-170 | Empty list: no prompt, no request. Otherwise the prompt shows the count, and archiving happens iff the answer confirms; cancelling issues no request. On archiving, there is one request per target, in target order, each setting `archived`, each with its own outcome, and the errors are exactly the rejections. |
| `Pipeline.Execute` | index.js:73-170 | A broken rule ends the run with that error, before any listing or request. Otherwise the targets are the selection over all pages. An empty list ends with no prompt; otherwise the prompt shows the count and archiving happens iff the answer confirms. Requests are issued iff there are targets and the answer confirms. Each request archives its target, no target is archived or disabled, each request has its own outcome, and the reported errors are exactly the rejected outcomes. |

## Left out

- Command-line parsing and the usage text (index.js:11-61) are not modelled, including the flags that the argument parser itself requires. The model starts from the parsed values.
- Duration parsing and the clock (index.js:66-71) are not modelled. Bounds are given as optional instants in milliseconds. An unparsable duration, which yields an invalid date, is not modelled.
- Parsing timestamps from text (index.js:120, 126, 132) is not modelled. Timestamps are `Option<int>`, where `None` stands for a null or empty field. A string that parses to NaN, which would always be out of range, is not modelled.
- Authentication, paginated listing and the update call (index.js:95-100, 159-163) are network I/O. The login, the pages and the provider's reply to each request are inputs. Listing and authentication failures, which abort the process, are not modelled.
- The prompt, console output and process exits (index.js:90-92, 142-154, 168, 170) are terminal I/O. The answer is an input. Exits and the printed errors are values in `Exit` and `Run`.
- The requests run concurrently. They are modelled as an outcome sequence aligned one-to-one with the targets. Each outcome is a function of its own request only. Timing and completion order are not modelled.
- `Orchestrator.Lower`: ASCII lowercasing only, not full Unicode `toLowerCase`. For the confirmation this makes no difference, because only `Y` lowercases to `y`.
