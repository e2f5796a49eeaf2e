/** One whole run of the command (index.js lines 63-170): validate the criteria, drain the
    listing, then decide and archive. The authenticated login, the listing pages, the answer
    typed at the prompt and the provider's answer to each archive request are inputs. */
module Pipeline {
  import opened Wrappers
  import opened Config
  import opened Selector
  import opened Selection
  import opened Orchestrator

  /** How the process ends: exit status 1 with the first broken rule, or status 0 after the
      decision stage, whatever the outcomes of the archive requests. */
  datatype Exit = ConfigRejected(error: ConfigError) | Completed(targets: seq<Repo>, run: Run)

  method Execute(raw: RawConfig, login: string, pages: seq<seq<Repo>>, answer: string,
                 archive: ArchiveRequest -> Settled)
    returns (exit: Exit)
    ensures exit.ConfigRejected? <==> Validate(raw).Failure?
    ensures exit.ConfigRejected? ==> exit.error == Validate(raw).error
    ensures exit.Completed? ==>
      && Validate(raw).value.Valid()
      && exit.targets == Candidates(Validate(raw).value, Flatten(pages))
    ensures exit.Completed? ==> |exit.run.requests| <= TotalRecords(pages)
    ensures exit.Completed? ==> (exit.targets == [] <==> exit.run.terminal == NoTargets)
    ensures exit.Completed? ==>
      exit.run.prompt == if exit.targets == [] then None else Some(|exit.targets|)
    ensures exit.Completed? && exit.targets != [] ==>
      (exit.run.terminal == Reported <==> Confirmed(answer))
    ensures exit.Completed? ==>
      && |exit.run.responses| == |exit.run.requests|
      && (forall i :: 0 <= i < |exit.run.requests| ==> exit.run.responses[i] == archive(exit.run.requests[i]))
      && exit.run.errors == Rejections(exit.run.responses)
    ensures exit.Completed? ==>
      (exit.run.requests != [] <==> exit.targets != [] && Confirmed(answer))
    ensures exit.Completed? ==> forall x :: x in exit.targets ==> !x.archived && !x.disabled
    ensures exit.Completed? ==>
      exit.run.requests == [] || |exit.run.requests| == |exit.targets|
    ensures exit.Completed? ==>
      forall i :: 0 <= i < |exit.run.requests| ==>
        && exit.run.requests[i] == ArchiveRequest(login, exit.targets[i].name, true)
        && !exit.targets[i].archived && !exit.targets[i].disabled
  {
    var validated := Validate(raw);
    if validated.Failure? {
      return ConfigRejected(validated.error);
    }
    var spec := validated.value;
    var targets := SelectTargets(spec, pages);
    TargetsNeverArchivedOrDisabled(spec, pages);
    var run := Orchestrate(login, targets, answer, archive);
    exit := Completed(targets, run);
  }
}
