/** What happens once the target list is complete (index.js lines 141-170): the empty
    check, the confirmation answer, one archive request per target, and the report of
    every rejected request. */
module Orchestrator {
  import opened Wrappers
  import opened Selector

  /** `toLowerCase` on one character, for the ASCII letters. */
  function LowerChar(c: char): char
  {
    if 'A' <= c <= 'Z' then (c as int + 32) as char else c
  }

  function Lower(s: string): (r: string)
    ensures |r| == |s|
    ensures forall i :: 0 <= i < |s| ==> r[i] == LowerChar(s[i])
  {
    if s == [] then [] else [LowerChar(s[0])] + Lower(s[1..])
  }

  /** The answer confirms when its lowercased first character is `y`; an empty answer has
      no first character and cancels. */
  function Confirmed(answer: string): (yes: bool)
    ensures yes <==> |answer| > 0 && (answer[0] == 'y' || answer[0] == 'Y')
  {
    var lowered := Lower(answer);
    |lowered| > 0 && lowered[0] == 'y'
  }

  /** One `repos.update` call: set `archived` on `owner/repo`. */
  datatype ArchiveRequest = ArchiveRequest(owner: string, repo: string, archived: bool)

  /** A settled request, as `Promise.allSettled` reports it. */
  datatype Settled = Fulfilled | Rejected(reason: string)

  /** The reasons of the rejected outcomes, in outcome order. */
  function Rejections(responses: seq<Settled>): (errors: seq<string>)
    ensures |errors| <= |responses|
  {
    if responses == [] then []
    else
      var last := responses[|responses| - 1];
      Rejections(responses[..|responses| - 1]) + (if last.Rejected? then [last.reason] else [])
  }

  /** The reporting loop over the settled outcomes. */
  method ReportRejections(responses: seq<Settled>) returns (errors: seq<string>)
    ensures errors == Rejections(responses)
  {
    errors := [];
    var i := 0;
    while i < |responses|
      invariant 0 <= i <= |responses|
      invariant errors == Rejections(responses[..i])
    {
      assert responses[..i + 1][..i] == responses[..i];
      if responses[i].Rejected? {
        errors := errors + [responses[i].reason];
      }
      i := i + 1;
    }
    assert responses[..i] == responses;
  }

  /** The reported errors are exactly the rejected outcomes' reasons, in order: `idx` lists
      the positions reported, and a position is reported iff its outcome was rejected. */
  lemma {:induction false} RejectionsExactlyRejected(responses: seq<Settled>) returns (idx: seq<nat>)
    ensures IncreasingIndices(idx, |responses|)
    ensures |idx| == |Rejections(responses)|
    ensures forall k :: 0 <= k < |idx| ==>
      responses[idx[k]].Rejected? && Rejections(responses)[k] == responses[idx[k]].reason
    ensures forall i :: 0 <= i < |responses| ==> (i in idx <==> responses[i].Rejected?)
  {
    if responses == [] {
      idx := [];
    } else {
      var n := |responses| - 1;
      var idx' := RejectionsExactlyRejected(responses[..n]);
      if responses[n].Rejected? {
        idx := idx' + [n];
      } else {
        idx := idx';
      }
    }
  }

  /** Nothing is reported iff every request was fulfilled. */
  lemma {:induction false} NothingReportedIffAllFulfilled(responses: seq<Settled>)
    ensures Rejections(responses) == [] <==> forall i :: 0 <= i < |responses| ==> responses[i].Fulfilled?
  {
    if responses != [] {
      var n := |responses| - 1;
      NothingReportedIffAllFulfilled(responses[..n]);
      assert forall i :: 0 <= i < n ==> responses[..n][i] == responses[i];
    }
  }

  /** How a run ends. */
  datatype Terminal = NoTargets | Cancelled | Reported

  /** A run of the decision stage: how it ended, the count shown in the prompt (if one was
      shown), the archive requests issued, their outcomes and the errors reported. */
  datatype Run = Run(
    terminal: Terminal,
    prompt: Option<nat>,
    requests: seq<ArchiveRequest>,
    responses: seq<Settled>,
    errors: seq<string>)

  /** The decision stage. `archive` is the provider's answer to one request, so an outcome
      depends only on its own request and never on the others. */
  method Orchestrate(owner: string, targets: seq<Repo>, answer: string, archive: ArchiveRequest -> Settled)
    returns (run: Run)
    ensures targets == [] <==> run.terminal == NoTargets
    ensures targets == [] ==> run.prompt == None
    ensures targets != [] ==> run.prompt == Some(|targets|)
    ensures targets != [] ==> (run.terminal == Reported <==> Confirmed(answer))
    ensures run.terminal != Reported ==> run.requests == [] && run.responses == [] && run.errors == []
    ensures run.terminal == Reported ==>
      && |run.requests| == |targets|
      && |run.responses| == |targets|
      && forall i :: 0 <= i < |targets| ==>
           && run.requests[i] == ArchiveRequest(owner, targets[i].name, true)
           && run.responses[i] == archive(run.requests[i])
    ensures run.errors == Rejections(run.responses)
  {
    if |targets| == 0 {
      return Run(NoTargets, None, [], [], []);
    }
    if !Confirmed(answer) {
      return Run(Cancelled, Some(|targets|), [], [], []);
    }
    var requests := seq(|targets|, i requires 0 <= i < |targets| => ArchiveRequest(owner, targets[i].name, true));
    var responses := seq(|requests|, i requires 0 <= i < |requests| => archive(requests[i]));
    var errors := ReportRejections(responses);
    run := Run(Reported, Some(|targets|), requests, responses, errors);
  }

  /** Two targets, a confirming answer, and a provider that rejects the second request:
      both requests are issued and exactly one error is reported. */
  method TwoTargetsOneRejected(a: Repo, b: Repo)
    requires a.name != b.name
  {
    var archive := (req: ArchiveRequest) => if req.repo == b.name then Rejected("forbidden") else Fulfilled;
    var run := Orchestrate("owner", [a, b], "Yes", archive);
    assert Confirmed("Yes");
    assert run.terminal == Reported;
    assert run.responses == [Fulfilled, Rejected("forbidden")];
    assert run.errors == ["forbidden"];
  }

  /** Three targets and the answer "n": no request is issued. */
  method ThreeTargetsDeclined(a: Repo, b: Repo, c: Repo)
  {
    var run := Orchestrate("owner", [a, b, c], "n", req => Fulfilled);
    assert run.terminal == Cancelled && run.prompt == Some(3);
    assert run.requests == [];
  }
}
