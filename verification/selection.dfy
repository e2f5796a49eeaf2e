/** Draining the paginated listing into the target list (index.js lines 97 and 111-139). */
module Selection {
  import opened Wrappers
  import opened Config
  import opened Selector

  /** All records of all pages, in page order. */
  function Flatten(pages: seq<seq<Repo>>): (rs: seq<Repo>)
  {
    if pages == [] then [] else Flatten(pages[..|pages| - 1]) + pages[|pages| - 1]
  }

  /** The records of `rs` that the selector keeps, in arrival order. */
  function Candidates(spec: FilterSpec, rs: seq<Repo>): (c: seq<Repo>)
    requires spec.bounds.HasBound()
    ensures |c| <= |rs|
  {
    if rs == [] then []
    else
      var last := rs[|rs| - 1];
      Candidates(spec, rs[..|rs| - 1]) + (if Selected(spec, last) then [last] else [])
  }

  /** Appending one record extends the selection by that record iff it passes. */
  lemma CandidatesSnoc(spec: FilterSpec, rs: seq<Repo>, x: Repo)
    requires spec.bounds.HasBound()
    ensures Candidates(spec, rs + [x]) == Candidates(spec, rs) + (if Selected(spec, x) then [x] else [])
  {
  }

  /** Taking one more page appends that page's records. */
  lemma FlattenSnoc(pages: seq<seq<Repo>>, p: nat)
    requires p < |pages|
    ensures Flatten(pages[..p + 1]) == Flatten(pages[..p]) + pages[p]
  {
    assert pages[..p + 1][..p] == pages[..p];
  }

  /** One more record of the current page: the selection grows by that record iff it passes. */
  lemma CandidatesStep(spec: FilterSpec, seen: seq<Repo>, page: seq<Repo>, i: nat)
    requires spec.bounds.HasBound()
    requires i < |page|
    ensures Candidates(spec, seen + page[..i + 1])
      == Candidates(spec, seen + page[..i]) + (if Selected(spec, page[i]) then [page[i]] else [])
  {
    assert seen + page[..i + 1] == (seen + page[..i]) + [page[i]];
    CandidatesSnoc(spec, seen + page[..i], page[i]);
  }

  /** The inner loop over one page: appends the page's survivors to `targets`. */
  method SelectFromPage(spec: FilterSpec, ghost seen: seq<Repo>, page: seq<Repo>, targets: seq<Repo>)
    returns (extended: seq<Repo>)
    requires spec.bounds.HasBound()
    requires targets == Candidates(spec, seen)
    ensures extended == Candidates(spec, seen + page)
  {
    extended := targets;
    var i := 0;
    assert seen + page[..0] == seen;
    while i < |page|
      invariant 0 <= i <= |page|
      invariant extended == Candidates(spec, seen + page[..i])
    {
      var repo := page[i];
      CandidatesStep(spec, seen, page, i);
      if Selected(spec, repo) {
        extended := extended + [repo];
      }
      i := i + 1;
    }
    assert page[..i] == page;
  }

  /** The outer loop: one page at a time, as the listing delivers them. */
  method SelectTargets(spec: FilterSpec, pages: seq<seq<Repo>>) returns (targets: seq<Repo>)
    requires spec.bounds.HasBound()
    ensures targets == Candidates(spec, Flatten(pages))
  {
    targets := [];
    var p := 0;
    while p < |pages|
      invariant 0 <= p <= |pages|
      invariant targets == Candidates(spec, Flatten(pages[..p]))
    {
      targets := SelectFromPage(spec, Flatten(pages[..p]), pages[p], targets);
      FlattenSnoc(pages, p);
      p := p + 1;
    }
    assert pages[..p] == pages;
  }

  /** The target list is exactly the in-order subsequence of the records that pass the
      selector: `idx` lists the positions kept, and a position is kept iff its record passes. */
  lemma {:induction false} CandidatesAreSelectedSubsequence(spec: FilterSpec, rs: seq<Repo>)
    returns (idx: seq<nat>)
    requires spec.bounds.HasBound()
    ensures IncreasingIndices(idx, |rs|)
    ensures |idx| == |Candidates(spec, rs)|
    ensures forall k :: 0 <= k < |idx| ==> Candidates(spec, rs)[k] == rs[idx[k]]
    ensures forall i :: 0 <= i < |rs| ==> (i in idx <==> Selected(spec, rs[i]))
  {
    if rs == [] {
      idx := [];
    } else {
      var n := |rs| - 1;
      var prefix := rs[..n];
      var idx' := CandidatesAreSelectedSubsequence(spec, prefix);
      if Selected(spec, rs[n]) {
        idx := idx' + [n];
      } else {
        idx := idx';
      }
    }
  }

  /** Every occurrence of a selected record is kept and no other record appears. */
  lemma {:induction false} CandidatesCount(spec: FilterSpec, rs: seq<Repo>, x: Repo)
    requires spec.bounds.HasBound()
    ensures multiset(Candidates(spec, rs))[x] == if Selected(spec, x) then multiset(rs)[x] else 0
  {
    if rs != [] {
      var n := |rs| - 1;
      CandidatesCount(spec, rs[..n], x);
      assert rs == rs[..n] + [rs[n]];
    }
  }

  /** Selection distributes over concatenation, so pages can be processed one by one. */
  lemma {:induction false} CandidatesAppend(spec: FilterSpec, a: seq<Repo>, b: seq<Repo>)
    requires spec.bounds.HasBound()
    ensures Candidates(spec, a + b) == Candidates(spec, a) + Candidates(spec, b)
  {
    if b == [] {
      assert a + b == a;
    } else {
      var n := |b| - 1;
      CandidatesAppend(spec, a, b[..n]);
      CandidatesSnoc(spec, a + b[..n], b[n]);
      CandidatesSnoc(spec, b[..n], b[n]);
      assert a + b == (a + b[..n]) + [b[n]];
      assert b == b[..n] + [b[n]];
    }
  }

  /** The number of records over all pages. */
  function TotalRecords(pages: seq<seq<Repo>>): nat
  {
    if pages == [] then 0 else TotalRecords(pages[..|pages| - 1]) + |pages[|pages| - 1]|
  }

  /** The flattened listing holds every record of every page, and nothing else. */
  lemma {:induction false} FlattenHoldsEveryRecord(pages: seq<seq<Repo>>)
    ensures |Flatten(pages)| == TotalRecords(pages)
    ensures forall p, i :: 0 <= p < |pages| && 0 <= i < |pages[p]| ==> pages[p][i] in Flatten(pages)
    ensures forall x :: x in Flatten(pages) ==> exists p :: 0 <= p < |pages| && x in pages[p]
  {
    if pages != [] {
      var n := |pages| - 1;
      FlattenHoldsEveryRecord(pages[..n]);
      forall p, i | 0 <= p < |pages| && 0 <= i < |pages[p]|
        ensures pages[p][i] in Flatten(pages)
      {
        if p < n {
          assert pages[..n][p] == pages[p];
        }
      }
      forall x | x in Flatten(pages)
        ensures exists p :: 0 <= p < |pages| && x in pages[p]
      {
        if x in Flatten(pages[..n]) {
          var p :| 0 <= p < n && x in pages[..n][p];
          assert x in pages[p];
        } else {
          assert x in pages[n];
        }
      }
    }
  }

  /** Records keep their page order: record `i` of page `p` sits right after the records of
      the earlier pages. */
  lemma {:induction false} FlattenAt(pages: seq<seq<Repo>>, p: nat, i: nat)
    requires p < |pages| && i < |pages[p]|
    ensures TotalRecords(pages[..p]) + i < |Flatten(pages)|
    ensures Flatten(pages)[TotalRecords(pages[..p]) + i] == pages[p][i]
  {
    var n := |pages| - 1;
    FlattenHoldsEveryRecord(pages[..n]);
    FlattenHoldsEveryRecord(pages[..p]);
    if p < n {
      FlattenAt(pages[..n], p, i);
      assert pages[..n][..p] == pages[..p];
    } else {
      assert pages[..p] == pages[..n];
    }
  }

  /** No target is disabled or archived, and there are never more targets than records. */
  lemma TargetsNeverArchivedOrDisabled(spec: FilterSpec, pages: seq<seq<Repo>>)
    requires spec.bounds.HasBound()
    ensures forall x :: x in Candidates(spec, Flatten(pages)) ==> !x.disabled && !x.archived
    ensures |Candidates(spec, Flatten(pages))| <= TotalRecords(pages)
  {
    FlattenHoldsEveryRecord(pages);
    var rs := Flatten(pages);
    var idx := CandidatesAreSelectedSubsequence(spec, rs);
    forall x | x in Candidates(spec, rs)
      ensures !x.disabled && !x.archived
    {
      var k :| 0 <= k < |Candidates(spec, rs)| && Candidates(spec, rs)[k] == x;
      assert idx[k] in idx;
      assert Selected(spec, rs[idx[k]]);
    }
  }
}
