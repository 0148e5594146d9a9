/** The per-repository driver `process_repos` (gather.py:350-395): which
    categories are gathered, how an `owner/repo` entry is split, and the
    sequence commits, then issues and PRs, then finalisation, each repository
    starting from empty buckets and an empty `prev_diffs`. */
module Repository {
  import opened Wrappers
  import opened Text
  import opened Snapshot
  import opened Collect
  import opened Collector
  import Diffs
  import Finalize
  import PerUser

  /** The `--only-commits`, `--only-issues` and `--only-prs` switches. */
  datatype Flags = Flags(onlyCommits: bool, onlyIssues: bool, onlyPrs: bool)

  /** Which categories a run gathers (and writes per-user files for). */
  datatype Selection = Selection(commits: bool, issues: bool, prs: bool)

  /** The three flag expressions of gather.py:375-377: with no switch every
      category is gathered, otherwise exactly the switched ones. */
  function Select(f: Flags): (r: Selection)
    ensures !f.onlyCommits && !f.onlyIssues && !f.onlyPrs ==> r == Selection(true, true, true)
    ensures f.onlyCommits || f.onlyIssues || f.onlyPrs ==>
              r == Selection(f.onlyCommits, f.onlyIssues, f.onlyPrs)
  {
    var noSwitch := !f.onlyCommits && !f.onlyIssues && !f.onlyPrs;
    Selection((f.onlyCommits && !(f.onlyIssues || f.onlyPrs)) || noSwitch || f.onlyCommits,
              (f.onlyIssues && !f.onlyCommits) || noSwitch || f.onlyIssues,
              (f.onlyPrs && !f.onlyCommits) || noSwitch || f.onlyPrs)
  }

  /** `user_t, repo_t = repo_tuple.split('/')`: defined exactly when the
      entry holds one `/`; the two halves put back together give the entry. */
  function SplitRepo(repo: string): (r: Option<(string, string)>)
    ensures r.Some? <==> Count(repo, '/') == 1
    ensures r.Some? ==> r.value.0 + "/" + r.value.1 == repo
    ensures r.Some? ==> '/' !in r.value.0 && '/' !in r.value.1
  {
    SplitCount(repo, '/');
    SplitJoin(repo, '/');
    var parts := Split(repo, '/');
    if |parts| == 2 then
      assert Join(parts, '/') == parts[0] + "/" + parts[1];
      Some((parts[0], parts[1]))
    else None
  }

  /** The store `process_repos` ends one repository with: commits first when
      selected, then issues and PRs when either is selected (both starting at
      page 1), then `finalize_repo_data`, which rewrites the file. */
  function GatherRepoSpec(env: Env, sel: Selection, crs: seq<ListResponse<CommitItem>>,
                          irs: seq<ListResponse<IssueItem>>): (r: Store)
    ensures Fits(env, r)
  {
    var s0 := Store(InitialBuckets(env.ms), map[], [], []);
    var s1 := if sel.commits then CommitsRun(env, s0, crs, 1).store else s0;
    var s2 := if sel.issues || sel.prs then IssuesRun(env, s1, irs, 1, sel.issues, sel.prs).store else s1;
    var final := Finalize.FinalizeSnapshot(s2.buckets);
    s2.(buckets := final, saved := s2.saved + [final])
  }

  /** One repository, run through a fresh `Collection`. */
  method GatherRepo(env: Env, sel: Selection, crs: seq<ListResponse<CommitItem>>,
                    irs: seq<ListResponse<IssueItem>>) returns (r: Store)
    ensures r == GatherRepoSpec(env, sel, crs, irs)
  {
    var col := new Collection(env);
    if sel.commits {
      var _ := col.GatherCommits(crs);
    }
    if sel.issues || sel.prs {
      var _ := col.GatherIssuesAndPrs(irs, sel.issues, sel.prs);
    }
    col.FinalizeAll();
    r := col.State();
  }

  /** What one repository ends with: its file's last write is the
      finalized, well-formed snapshot, one bucket per milestone. */
  lemma GatherRepoEffect(env: Env, sel: Selection, crs: seq<ListResponse<CommitItem>>,
                         irs: seq<ListResponse<IssueItem>>)
    ensures var r := GatherRepoSpec(env, sel, crs, irs);
      |r.buckets| == |env.ms| && Finished(r)
  {
    var s0 := Store(InitialBuckets(env.ms), map[], [], []);
    var s1 := if sel.commits then CommitsRun(env, s0, crs, 1).store else s0;
    if sel.commits {
      CommitsRunEffect(env, s0, crs, 1);
    }
    if sel.issues || sel.prs {
      IssuesRunEffect(env, s1, irs, 1, sel.issues, sel.prs);
    }
    var s2 := if sel.issues || sel.prs then IssuesRun(env, s1, irs, 1, sel.issues, sel.prs).store else s1;
    Finalize.FinalizeWellFormed(s2.buckets);
  }

  /** Only the selected categories are filled: one that is not selected
      stays empty in every bucket, and every bucket keeps its milestone
      date. */
  lemma GatherRepoSelects(env: Env, sel: Selection, crs: seq<ListResponse<CommitItem>>,
                          irs: seq<ListResponse<IssueItem>>)
    ensures var r := GatherRepoSpec(env, sel, crs, irs);
      && (forall i :: 0 <= i < |r.buckets| ==> r.buckets[i].date == env.ms[i] + DisplayShift)
      && (!sel.commits ==> forall i :: 0 <= i < |r.buckets| ==> r.buckets[i].commits == [])
      && (!sel.issues ==> forall i :: 0 <= i < |r.buckets| ==> r.buckets[i].issues == [])
      && (!sel.prs ==> forall i :: 0 <= i < |r.buckets| ==> r.buckets[i].prs == [])
  {
    var s0 := Store(InitialBuckets(env.ms), map[], [], []);
    var s1 := if sel.commits then CommitsRun(env, s0, crs, 1).store else s0;
    var s2 := if sel.issues || sel.prs then IssuesRun(env, s1, irs, 1, sel.issues, sel.prs).store else s1;
    CommitStageSelects(env, sel, crs);
    IssueStageSelects(env, sel, s1, irs);
    FinalizeSelects(s2.buckets, env.ms, sel);
  }

  /** Every bucket holds its milestone's display date, and the categories not selected are empty. */
  predicate OnlySelected(bs: seq<Bucket>, ms: seq<int>, sel: Selection)
  {
    && |bs| == |ms|
    && (forall i :: 0 <= i < |bs| ==> bs[i].date == ms[i] + DisplayShift)
    && (!sel.commits ==> forall i :: 0 <= i < |bs| ==> bs[i].commits == [])
    && (!sel.issues ==> forall i :: 0 <= i < |bs| ==> bs[i].issues == [])
    && (!sel.prs ==> forall i :: 0 <= i < |bs| ==> bs[i].prs == [])
  }

  /** After the commit stage, issues and PRs are still empty and every date is kept. */
  lemma CommitStageSelects(env: Env, sel: Selection, crs: seq<ListResponse<CommitItem>>)
    ensures var s0 := Store(InitialBuckets(env.ms), map[], [], []);
      var s1 := if sel.commits then CommitsRun(env, s0, crs, 1).store else s0;
      OnlySelected(s1.buckets, env.ms, sel.(issues := false, prs := false))
  {
    var s0 := Store(InitialBuckets(env.ms), map[], [], []);
    if sel.commits {
      CommitsRunKeeps(env, s0, crs, 1, Issues);
      CommitsRunKeeps(env, s0, crs, 1, Prs);
    }
  }

  /** The issue stage keeps every date and leaves the categories it does not gather as they were. */
  lemma IssueStageSelects(env: Env, sel: Selection, s1: Store, irs: seq<ListResponse<IssueItem>>)
    requires OnlySelected(s1.buckets, env.ms, sel.(issues := false, prs := false))
    ensures var s2 := if sel.issues || sel.prs then IssuesRun(env, s1, irs, 1, sel.issues, sel.prs).store else s1;
      OnlySelected(s2.buckets, env.ms, sel)
  {
    if sel.issues || sel.prs {
      IssuesRunKeeps(env, s1, irs, 1, sel.issues, sel.prs, Commits);
      if !sel.issues {
        IssuesRunKeeps(env, s1, irs, 1, sel.issues, sel.prs, Issues);
      }
      if !sel.prs {
        IssuesRunKeeps(env, s1, irs, 1, sel.issues, sel.prs, Prs);
      }
    }
  }

  /** Finalising reorders within each map, so it keeps dates and empty maps. */
  lemma FinalizeSelects(bs: seq<Bucket>, ms: seq<int>, sel: Selection)
    requires OnlySelected(bs, ms, sel)
    ensures OnlySelected(Finalize.FinalizeSnapshot(bs), ms, sel)
  {
  }

  /** How the existence check `GET /repos/{owner}/{repo}` answers: a body,
      404 (the repository is skipped), or any other error status, which
      `raise_for_status` turns into an exception that ends the whole run. */
  datatype RepoStatus = Reachable | Missing | Broken

  /** One entry of the normalised repository list, with everything the
      network answers for it. */
  datatype RepoInput = RepoInput(repo: string, status: RepoStatus, net: string -> nat -> Diffs.Attempt,
                                 commits: seq<ListResponse<CommitItem>>, issues: seq<ListResponse<IssueItem>>)

  /** A finished repository: its `owner-repo` slug, its final store, and the
      per-contributor rows `write_per_user_csvs` writes under that slug. */
  datatype RepoOutput = RepoOutput(slug: string, store: Store, perUser: PerUserFiles)

  /** The three aggregates of `write_per_user_csvs` (gather.py:741-743); a
      category that is not written gets `{}`. */
  datatype PerUserFiles = PerUserFiles(commits: PerUser.Aggregate, issues: PerUser.Aggregate, prs: PerUser.Aggregate)

  function Selected(sel: Selection, c: Category): bool
  {
    match c
    case Commits => sel.commits
    case Issues => sel.issues
    case Prs => sel.prs
  }

  function FilesOf(f: PerUserFiles, c: Category): PerUser.Aggregate
  {
    match c
    case Commits => f.commits
    case Issues => f.issues
    case Prs => f.prs
  }

  /** What `write_per_user_csvs(ms_l, …, slug, write_* = the gather flags)` aggregates. */
  function PerUserSpec(slug: string, sel: Selection, bs: seq<Bucket>): PerUserFiles
  {
    PerUserFiles(if sel.commits then PerUser.AggregateSpec(slug, Commits, bs) else [],
                 if sel.issues then PerUser.AggregateSpec(slug, Issues, bs) else [],
                 if sel.prs then PerUser.AggregateSpec(slug, Prs, bs) else [])
  }

  /** The three `aggregate(...) if write_* else {}` lines. */
  method WritePerUser(slug: string, sel: Selection, bs: seq<Bucket>) returns (f: PerUserFiles)
    ensures f == PerUserSpec(slug, sel, bs)
  {
    var commits: PerUser.Aggregate := [];
    var issues: PerUser.Aggregate := [];
    var prs: PerUser.Aggregate := [];
    if sel.commits {
      commits := PerUser.AggregateRows(slug, Commits, bs);
    }
    if sel.issues {
      issues := PerUser.AggregateRows(slug, Issues, bs);
    }
    if sel.prs {
      prs := PerUser.AggregateRows(slug, Prs, bs);
    }
    f := PerUserFiles(commits, issues, prs);
  }

  /** A category that is written gets one file per contributor of the
      snapshot, each contributor once; one that is not written gets none. */
  lemma PerUserCovers(slug: string, sel: Selection, bs: seq<Bucket>, c: Category)
    ensures var agg := FilesOf(PerUserSpec(slug, sel, bs), c);
      && (!Selected(sel, c) ==> agg == [])
      && (Selected(sel, c) ==>
            && (forall idx, j :: 0 <= idx < |bs| && 0 <= j < |bs[idx].Get(c)| ==>
                  bs[idx].Get(c)[j].0 in PerUser.Keys(agg))
            && (forall i, j :: 0 <= i < j < |agg| ==> PerUser.Keys(agg)[i] != PerUser.Keys(agg)[j]))
  {
    if Selected(sel, c) {
      var agg := FilesOf(PerUserSpec(slug, sel, bs), c);
      assert agg == PerUser.AggregateSpec(slug, c, bs);
      forall idx, j | 0 <= idx < |bs| && 0 <= j < |bs[idx].Get(c)|
        ensures bs[idx].Get(c)[j].0 in PerUser.Keys(agg)
      {
        PerUser.EveryContributorListed(slug, c, bs, idx, j);
      }
      PerUser.AggregateKeys(slug, c, PerUser.Contribs(bs, c));
      PerUser.FirstAppearanceDistinct(PerUser.Contribs(bs, c));
    }
  }

  /** The repositories finished, and whether an exception ended the run. */
  datatype Outcome = Outcome(done: seq<RepoOutput>, aborted: bool)

  /** An entry that raises: one without exactly one `/`, or a failing check. */
  predicate Fails(input: RepoInput) {
    SplitRepo(input.repo).None? || input.status.Broken?
  }

  function Reachables(inputs: seq<RepoInput>): nat {
    if inputs == [] then 0
    else (if !Fails(inputs[0]) && inputs[0].status.Reachable? then 1 else 0) + Reachables(inputs[1..])
  }

  /** One reachable repository: gathered into a fresh store, finalised, and
      its per-user rows aggregated under `slug`. */
  function FinishRepo(env: Env, sel: Selection, input: RepoInput, slug: string): RepoOutput
  {
    var st := GatherRepoSpec(env.(net := input.net), sel, input.commits, input.issues);
    RepoOutput(slug, st, PerUserSpec(slug, sel, st.buckets))
  }

  /** The repository loop of `process_repos`, entry by entry. */
  function ProcessReposSpec(env: Env, sel: Selection, inputs: seq<RepoInput>): (r: Outcome)
    decreases |inputs|
  {
    if inputs == [] then Outcome([], false)
    else
      var input := inputs[0];
      match SplitRepo(input.repo)
      case None => Outcome([], true)
      case Some((owner, name)) =>
        match input.status
        case Broken => Outcome([], true)
        case Missing => ProcessReposSpec(env, sel, inputs[1..])
        case Reachable =>
          var out := FinishRepo(env, sel, input, owner + "-" + name);
          var rest := ProcessReposSpec(env, sel, inputs[1..]);
          Outcome([out] + rest.done, rest.aborted)
  }

  /** A repository's final store: its file's last write is the finalized
      snapshot, whose maps are key-sorted with date-sorted lists and hold one
      entry per contributor with `count == len(list)`. */
  predicate Finished(st: Store) {
    && WellFormedSnapshot(st.buckets)
    && |st.saved| >= 1 && st.saved[|st.saved| - 1] == st.buckets
    && forall i :: 0 <= i < |st.buckets| ==> Finalize.FinalizedBucket(st.buckets[i])
  }

  /** The run stops with an exception exactly when some entry raises; until
      then every reachable repository is finished, in entry order. */
  lemma {:induction false} ProcessReposAborts(env: Env, sel: Selection, inputs: seq<RepoInput>)
    ensures var r := ProcessReposSpec(env, sel, inputs);
      && (r.aborted <==> exists k :: 0 <= k < |inputs| && Fails(inputs[k]))
      && (!r.aborted ==> |r.done| == Reachables(inputs))
      && |r.done| <= |inputs|
    decreases |inputs|
  {
    if inputs != [] {
      var r := ProcessReposSpec(env, sel, inputs);
      if Fails(inputs[0]) {
        assert r == Outcome([], true);
        assert Fails(inputs[0]);
      } else {
        var tail := inputs[1..];
        var rest := ProcessReposSpec(env, sel, tail);
        ProcessReposAborts(env, sel, tail);
        assert r.aborted == rest.aborted;
        assert |r.done| == |rest.done| + (if inputs[0].status.Reachable? then 1 else 0);
        if exists k :: 0 <= k < |tail| && Fails(tail[k]) {
          var k :| 0 <= k < |tail| && Fails(tail[k]);
          assert Fails(inputs[k + 1]);
        }
        if exists k :: 0 <= k < |inputs| && Fails(inputs[k]) {
          var k :| 0 <= k < |inputs| && Fails(inputs[k]);
          assert Fails(tail[k - 1]);
        }
      }
    }
  }

  /** Every repository the run finishes ends finished. */
  lemma {:induction false} ProcessReposFinished(env: Env, sel: Selection, inputs: seq<RepoInput>)
    ensures var r := ProcessReposSpec(env, sel, inputs);
      forall j :: 0 <= j < |r.done| ==> Finished(r.done[j].store)
    decreases |inputs|
  {
    if inputs != [] {
      var input := inputs[0];
      ProcessReposFinished(env, sel, inputs[1..]);
      assert forall j :: 0 <= j < |ProcessReposSpec(env, sel, inputs[1..]).done| ==>
        Finished(ProcessReposSpec(env, sel, inputs[1..]).done[j].store);
      if !Fails(input) && input.status.Reachable? {
        var (owner, name) := SplitRepo(input.repo).value;
        var st := GatherRepoSpec(env.(net := input.net), sel, input.commits, input.issues);
        GatherRepoEffect(env.(net := input.net), sel, input.commits, input.issues);
        var rest := ProcessReposSpec(env, sel, inputs[1..]);
        var d := [FinishRepo(env, sel, input, owner + "-" + name)] + rest.done;
        assert ProcessReposSpec(env, sel, inputs).done == d;
        assert Finished(st);
        forall j | 0 <= j < |d| ensures Finished(d[j].store) {
          if j == 0 {
            assert d[0].store == st;
          } else {
            assert d[j] == rest.done[j - 1];
            assert Finished(rest.done[j - 1].store);
          }
        }
      } else if !Fails(input) {
        assert ProcessReposSpec(env, sel, inputs) == ProcessReposSpec(env, sel, inputs[1..]);
      } else {
        assert ProcessReposSpec(env, sel, inputs).done == [];
      }
    }
  }

  /** A finished repository's per-user rows come from its final snapshot, under its own slug. */
  predicate PerUserWritten(sel: Selection, out: RepoOutput)
  {
    out.perUser == PerUserSpec(out.slug, sel, out.store.buckets)
  }

  /** Every repository the run finishes has its per-user rows written from
      its finalised snapshot, under its own slug, for the gathered
      categories only. */
  lemma {:induction false} ProcessReposPerUser(env: Env, sel: Selection, inputs: seq<RepoInput>)
    ensures var r := ProcessReposSpec(env, sel, inputs);
      forall j :: 0 <= j < |r.done| ==> PerUserWritten(sel, r.done[j])
    decreases |inputs|
  {
    if inputs != [] {
      var input := inputs[0];
      ProcessReposPerUser(env, sel, inputs[1..]);
      var rest := ProcessReposSpec(env, sel, inputs[1..]);
      assert forall j :: 0 <= j < |ProcessReposSpec(env, sel, inputs[1..]).done| ==>
        PerUserWritten(sel, ProcessReposSpec(env, sel, inputs[1..]).done[j]);
      if !Fails(input) && input.status.Reachable? {
        var (owner, name) := SplitRepo(input.repo).value;
        var d := [FinishRepo(env, sel, input, owner + "-" + name)] + rest.done;
        assert ProcessReposSpec(env, sel, inputs).done == d;
        forall j | 0 <= j < |d|
          ensures PerUserWritten(sel, d[j])
        {
          if j > 0 {
            assert d[j] == rest.done[j - 1];
          }
        }
      } else if !Fails(input) {
        assert ProcessReposSpec(env, sel, inputs) == rest;
      }
    }
  }

  /** `process_repos`: each repository gets a fresh `Collection` (empty
      buckets and an empty `prev_diffs`); an entry that raises ends the run. */
  method ProcessRepos(env: Env, sel: Selection, inputs: seq<RepoInput>) returns (r: Outcome)
    ensures r == ProcessReposSpec(env, sel, inputs)
  {
    var done: seq<RepoOutput> := [];
    var k := 0;
    while k < |inputs|
      invariant 0 <= k <= |inputs|
      invariant var rest := ProcessReposSpec(env, sel, inputs[k..]);
        Outcome(done + rest.done, rest.aborted) == ProcessReposSpec(env, sel, inputs)
    {
      var input := inputs[k];
      assert inputs[k..][1..] == inputs[k + 1..];
      var parts := SplitRepo(input.repo);
      if parts.None? || input.status.Broken? {
        return Outcome(done, true);
      }
      if input.status.Reachable? {
        var (owner, name) := parts.value;
        var slug := owner + "-" + name;
        var store := GatherRepo(env.(net := input.net), sel, input.commits, input.issues);
        var files := WritePerUser(slug, sel, store.buckets);
        assert RepoOutput(slug, store, files) == FinishRepo(env, sel, input, slug);
        done := done + [RepoOutput(slug, store, files)];
      }
      k := k + 1;
    }
    assert inputs[k..] == [];
    r := Outcome(done, false);
  }
}
