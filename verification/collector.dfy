/** The state gather.py updates in place while it walks one repository:
    `ms_l`, `prev_diffs` and the repository's JSON file. Every method runs
    the loop of the source step by step and is proved to end in the state
    the functions of `Collect` and `Finalize` describe. */
module Collector {
  import opened Wrappers
  import opened Snapshot
  import opened Diffs
  import opened Dicts
  import opened Collect
  import Finalize

  /** The part of `PrFetch` a loop has gathered so far, followed by what the
      rest of the loop does. */
  function Then(fetched: seq<string>, stats: seq<DiffStat>, rest: PrFetch): PrFetch {
    rest.(fetched := fetched + rest.fetched,
          stats := if rest.stats.Some? then Some(stats + rest.stats.value) else None)
  }

  /** The pages a loop has requested so far, followed by the rest of the run. */
  function ThenRun(pages: seq<nat>, rest: Run): Run {
    Run(rest.store, pages + rest.pages)
  }

  class Collection {
    /** What the run is given; never changes. */
    const env: Env
    /** `ms_l` */
    var buckets: seq<Bucket>
    /** `prev_diffs` */
    var prevDiffs: map<string, DiffStat>
    /** What `json.dump(ms_l, ...)` has written to the repository file, in order. */
    var saved: seq<seq<Bucket>>
    /** The commit URLs `get_diff` was called on, in order. */
    var requested: seq<string>

    function State(): Store
      reads this
    {
      Store(buckets, prevDiffs, saved, requested)
    }

    ghost predicate Valid()
      reads this
    {
      Fits(env, State()) && WellFormedSnapshot(buckets)
    }

    /** One empty bucket per milestone, an empty cache, nothing written. */
    constructor(env: Env)
      ensures this.env == env
      ensures State() == Store(InitialBuckets(env.ms), map[], [], [])
      ensures Valid()
    {
      this.env := env;
      buckets := InitialBuckets(env.ms);
      prevDiffs := map[];
      saved := [];
      requested := [];
    }

    /** `for i, ms_date in enumerate(ms_dates): if date_t < ms_date: ... break`:
        the bucket an item dated `t` goes to. */
    method ChooseBucket(t: int) returns (r: Option<nat>)
      ensures r == FirstLater(t, env.ms)
      ensures r.Some? ==> r.value < |env.ms| && t < env.ms[r.value]
    {
      var i := 0;
      while i < |env.ms|
        invariant 0 <= i <= |env.ms|
        invariant forall j :: 0 <= j < i ==> env.ms[j] <= t
      {
        if t < env.ms[i] {
          return Some(i);
        }
        i := i + 1;
      }
      return None;
    }

    /** The fan-out loop `for author_name in coauthors + [author_t]`
        (gather.py:470-486) on bucket `i`, category `c`. */
    method RecordAllIn(i: nat, c: Category, names: seq<string>, a: Activity)
      requires Valid() && i < |buckets|
      modifies this
      ensures buckets == old(buckets)[i := old(buckets)[i].Put(c, RecordAll(old(buckets)[i].Get(c), names, a, env.users))]
      ensures prevDiffs == old(prevDiffs) && saved == old(saved) && requested == old(requested)
      ensures Valid()
    {
      var m := FanOut(buckets[i].Get(c), names, a);
      RecordAllWellFormed(buckets[i].Get(c), names, a, env.users);
      buckets := buckets[i := buckets[i].Put(c, m)];
    }

    /** The loop itself, on one contributor map: each name in turn gets the
        record, under its full name from the users map. */
    method FanOut(m0: ContributorMap, names: seq<string>, a: Activity) returns (m: ContributorMap)
      ensures m == RecordAll(m0, names, a, env.users)
    {
      m := m0;
      var k := 0;
      while k < |names|
        invariant 0 <= k <= |names|
        invariant RecordAll(m, names[k..], a, env.users) == RecordAll(m0, names, a, env.users)
      {
        var who := names[k];
        assert names[k..][1..] == names[k + 1..];
        m := Record(m, who, FullName(env.users, who), a);
        k := k + 1;
      }
    }

    /** `with repo_path.open('w') as f: json.dump(ms_l, f)` */
    method Save()
      modifies this
      ensures saved == old(saved) + [old(buckets)]
      ensures buckets == old(buckets) && prevDiffs == old(prevDiffs) && requested == old(requested)
    {
      saved := saved + [buckets];
    }

    /** One commit of a page; `stop` is the `seen_before` break. */
    method ProcessCommit(c: CommitItem) returns (stop: bool)
      requires Valid()
      modifies this
      ensures (State(), stop) == CommitStep(env, old(State()), c)
      ensures Valid()
    {
      if c.url.None? || c.date.None? {
        return false;
      }
      var t := c.date.value;
      if t < env.notBefore {
        return true;
      }
      if c.message.None? || c.link.None? {
        return false;
      }
      var names := env.coauthors(c.message.value) + [PrimaryAuthor(c)];
      var diff, _ := GetDiff(env.net(c.url.value), RetryCount);
      requested := requested + [c.url.value];
      if diff.None? || c.sha.None? {
        return false;
      }
      prevDiffs := prevDiffs[c.sha.value := diff.value];
      var i := ChooseBucket(t);
      if i.Some? {
        RecordAllIn(i.value, Commits, names, CommitRecord(c, diff.value));
      }
      stop := false;
    }

    /** `for commit in commits` over one page; `stale` is `seen_before`. */
    method ProcessCommitPage(items: seq<CommitItem>) returns (stale: bool)
      requires Valid()
      modifies this
      ensures (State(), stale) == CommitItems(env, old(State()), items)
      ensures Valid()
    {
      var k := 0;
      while k < |items|
        invariant 0 <= k <= |items|
        invariant Valid()
        invariant CommitItems(env, State(), items[k..]) == CommitItems(env, old(State()), items)
      {
        assert items[k..][1..] == items[k + 1..];
        stale := ProcessCommit(items[k]);
        if stale {
          return;
        }
        k := k + 1;
      }
      stale := false;
    }

    /** The `while True` page loop of `gather_commits`; `rs[n]` answers the
        `n`-th request. Returns the page numbers requested. */
    method GatherCommits(rs: seq<ListResponse<CommitItem>>) returns (pages: seq<nat>)
      requires Valid()
      modifies this
      ensures Run(State(), pages) == CommitsRun(env, old(State()), rs, 1)
      ensures Valid()
    {
      var page: nat := 1;
      var n := 0;
      pages := [];
      while true
        invariant 0 <= n <= |rs|
        invariant Valid()
        invariant ThenRun(pages, CommitsRun(env, State(), rs[n..], page)) == CommitsRun(env, old(State()), rs, 1)
        decreases |rs| - n
      {
        ghost var s0 := State();
        CommitsRunUnfold(env, s0, rs[n..], page);
        if n == |rs| {
          ThenRunAppend(pages, page, Run(s0, []));
          pages := pages + [page];
          break;
        }
        var answer := rs[n];
        assert rs[n..][1..] == rs[n + 1..];
        n := n + 1;
        if answer.RateLimited? && answer.wait < MaxWait {
          ThenRunAppend(pages, page, CommitsRun(env, s0, rs[n..], page));
          pages := pages + [page];
          continue;
        }
        if !answer.Page? || answer.items == [] {
          ThenRunAppend(pages, page, Run(s0, []));
          pages := pages + [page];
          break;
        }
        var stale := ProcessCommitPage(answer.items);
        Save();
        if stale {
          ThenRunAppend(pages, page, Run(State(), []));
          pages := pages + [page];
          break;
        }
        ThenRunAppend(pages, page, CommitsRun(env, State(), rs[n..], page + 1));
        pages := pages + [page];
        page := page + 1;
      }
    }

    /** The diff of a PR from the (sha, url) pairs of its commit list
        (gather.py:578-591): cached SHAs are reused, others fetched once and
        cached; `None` when a fetch raised. */
    method ReadPrDiff(pairs: seq<(string, string)>) returns (d: Option<Diff>)
      modifies this
      ensures var f := FetchAll(old(prevDiffs), env.net, DictOf(pairs));
        && prevDiffs == f.cache
        && requested == old(requested) + f.fetched
        && d == (if f.stats.Some? then Some(PrDiff(f.stats.value)) else None)
      ensures buckets == old(buckets) && saved == old(saved)
    {
      d := FetchDiffs(DictOf(pairs));
    }

    /** The loop over `commit_urls` once the dict is built: one `DiffOf`
        per SHA, stopping at the first failure, then the sum. */
    method FetchDiffs(urls: seq<(string, string)>) returns (d: Option<Diff>)
      modifies this
      ensures var f := FetchAll(old(prevDiffs), env.net, urls);
        && prevDiffs == f.cache
        && requested == old(requested) + f.fetched
        && d == (if f.stats.Some? then Some(PrDiff(f.stats.value)) else None)
      ensures buckets == old(buckets) && saved == old(saved)
    {
      ghost var goal := FetchAll(prevDiffs, env.net, urls);
      ghost var got: seq<string> := [];
      var stats: seq<DiffStat> := [];
      var j := 0;
      ThenNothing(goal);
      while j < |urls|
        invariant 0 <= j <= |urls|
        invariant requested == old(requested) + got
        invariant buckets == old(buckets) && saved == old(saved)
        invariant Then(got, stats, FetchAll(prevDiffs, env.net, urls[j..])) == goal
      {
        var sha, url := urls[j].0, urls[j].1;
        assert urls[j..][1..] == urls[j + 1..];
        ThenStep(got, stats, prevDiffs, env.net, urls[j..]);
        ghost var cached := sha in prevDiffs;
        var st := DiffOf(sha, url);
        if !cached {
          got := got + [url];
        }
        if st.None? {
          return None;
        }
        stats := stats + [st.value];
        j := j + 1;
      }
      assert urls[j..] == [];
      assert got + [] == got && stats + [] == stats;
      var sum := SumDiffs(stats);
      d := Some(sum);
    }

    /** One commit of a PR (gather.py:581-586): the cached stat, or a fresh
        `get_diff` stored in the cache; `None` when `get_diff` raised. */
    method DiffOf(sha: string, url: string) returns (st: Option<DiffStat>)
      modifies this
      ensures sha in old(prevDiffs) ==>
                st == Some(old(prevDiffs)[sha]) && prevDiffs == old(prevDiffs) && requested == old(requested)
      ensures sha !in old(prevDiffs) ==>
                && st == DiffOutcome(env.net(url), RetryCount)
                && requested == old(requested) + [url]
                && prevDiffs == if st.Some? then old(prevDiffs)[sha := st.value] else old(prevDiffs)
      ensures buckets == old(buckets) && saved == old(saved)
    {
      if sha in prevDiffs {
        return Some(prevDiffs[sha]);
      }
      var diff, _ := GetDiff(env.net(url), RetryCount);
      requested := requested + [url];
      if diff.Some? {
        prevDiffs := prevDiffs[sha := diff.value];
      }
      st := diff;
    }

    /** `diff_d`: the union of the files and the sum of the totals. */
    static method SumDiffs(stats: seq<DiffStat>) returns (d: Diff)
      ensures d == PrDiff(stats)
    {
      var files: set<string> := {};
      var total := 0;
      var j := 0;
      while j < |stats|
        invariant 0 <= j <= |stats|
        invariant files + FilesUnion(stats[j..]) == FilesUnion(stats)
        invariant total + TotalSum(stats[j..]) == TotalSum(stats)
      {
        assert stats[j..][1..] == stats[j + 1..];
        files := files + stats[j].filenames;
        total := total + stats[j].total;
        j := j + 1;
      }
      d := Diff(|files|, total);
    }

    /** The comment loop (gather.py:558-565); `None` when an author is unreadable. */
    method ReadComments(raw: seq<RawComment>) returns (r: Option<seq<Comment>>)
      ensures r == CommentList(raw, env.users)
    {
      var cs: seq<Comment> := [];
      var j := 0;
      while j < |raw|
        invariant 0 <= j <= |raw|
        invariant |cs| == j
        invariant forall k :: 0 <= k < j ==> raw[k].login.Some?
        invariant forall k :: 0 <= k < j ==>
                    cs[k] == Comment(raw[k].login.value, FullName(env.users, raw[k].login.value), raw[k].body)
      {
        if raw[j].login.None? {
          return None;
        }
        var who := raw[j].login.value;
        cs := cs + [Comment(who, FullName(env.users, who), raw[j].body)];
        j := j + 1;
      }
      assert cs == CommentList(raw, env.users).value;
      r := Some(cs);
    }

    /** The `assignee_full_names` loop (gather.py:610-613). */
    method AssigneeFullNames(names: seq<string>) returns (r: seq<string>)
      ensures r == FullNames(env.users, names)
    {
      r := [];
      var j := 0;
      while j < |names|
        invariant 0 <= j <= |names|
        invariant r == FullNames(env.users, names[..j])
      {
        r := r + [FullName(env.users, names[j])];
        j := j + 1;
        assert names[..j] == names[..j - 1] + [names[j - 1]];
      }
      assert names[..|names|] == names;
    }

    /** The placement loop of the issue path (gather.py:597-631). */
    method PlaceIssueIn(it: IssueItem, cs: seq<Comment>, prDiff: Option<Diff>)
      requires Valid() && Readable(it) && it.link.Some?
      modifies this
      ensures State() == PlaceIssue(env, old(State()), it, cs, prDiff)
      ensures Valid()
    {
      var i := ChooseBucket(it.created.value);
      if i.None? {
        return;
      }
      var c := if it.isPr then Prs else Issues;
      var who := it.login.value;
      var full := FullName(env.users, who);
      ghost var m := buckets[i.value].Get(c);
      TouchIn(i.value, c, who, full);
      if it.state.None? {
        return;
      }
      var a := IssueActivityOf(it, cs, prDiff);
      RecordIn(i.value, c, who, full, a);
      TouchThenRecord(m, who, full, a);
    }

    /** The record an issue or PR adds to its author's list. */
    method IssueActivityOf(it: IssueItem, cs: seq<Comment>, prDiff: Option<Diff>) returns (a: Activity)
      requires Readable(it) && it.link.Some? && it.state.Some?
      ensures a == IssueRecord(env, it, cs, prDiff)
    {
      var fullNames := AssigneeFullNames(Values(it.assignees));
      a := IssueActivity(it.title.value, it.body, it.created.value + DisplayShift, Values(it.labels),
                         Values(it.assignees), fullNames, it.link.value, it.state.value, cs, prDiff);
    }

    /** Creating contributor `who` of bucket `i` if it is not there yet. */
    method TouchIn(i: nat, c: Category, who: string, full: string)
      requires Valid() && i < |buckets|
      modifies this
      ensures buckets == old(buckets)[i := old(buckets)[i].Put(c, Touch(old(buckets)[i].Get(c), who, full))]
      ensures prevDiffs == old(prevDiffs) && saved == old(saved) && requested == old(requested)
      ensures Valid()
    {
      buckets := buckets[i := buckets[i].Put(c, Touch(buckets[i].Get(c), who, full))];
    }

    /** Appending one record to one contributor of bucket `i`. */
    method RecordIn(i: nat, c: Category, who: string, full: string, a: Activity)
      requires Valid() && i < |buckets|
      modifies this
      ensures buckets == old(buckets)[i := old(buckets)[i].Put(c, Record(old(buckets)[i].Get(c), who, full, a))]
      ensures prevDiffs == old(prevDiffs) && saved == old(saved) && requested == old(requested)
      ensures Valid()
    {
      buckets := buckets[i := buckets[i].Put(c, Record(buckets[i].Get(c), who, full, a))];
    }

    /** One issue or PR of a page; `stop` is the `seen_before` break. */
    method ProcessIssue(it: IssueItem, includeIssues: bool, includePrs: bool) returns (stop: bool)
      requires Valid()
      modifies this
      ensures (State(), stop) == IssueStep(env, old(State()), it, includeIssues, includePrs)
      ensures Valid()
    {
      if !Included(it, includeIssues, includePrs) || it.created.None? {
        return false;
      }
      if it.created.value < env.notBefore {
        return true;
      }
      if !Readable(it) {
        return false;
      }
      var cs: Option<seq<Comment>> := Some([]);
      if it.commentCount > 0 && it.comments.Fetched? {
        cs := ReadComments(it.comments.value);
      }
      if cs.None? || it.link.None? {
        return false;
      }
      var prDiff: Option<Diff> := None;
      if it.isPr {
        match it.prCommits
        case RequestFailed =>
          prDiff := Some(Diff(0, 0));
        case Fetched(pairs) =>
          prDiff := ReadPrDiff(pairs);
          if prDiff.None? {
            return false;
          }
      }
      PlaceIssueIn(it, cs.value, prDiff);
      stop := false;
    }

    /** `for issue in issues` over one page. */
    method ProcessIssuePage(items: seq<IssueItem>, includeIssues: bool, includePrs: bool) returns (stale: bool)
      requires Valid()
      modifies this
      ensures (State(), stale) == IssueItems(env, old(State()), items, includeIssues, includePrs)
      ensures Valid()
    {
      var k := 0;
      while k < |items|
        invariant 0 <= k <= |items|
        invariant Valid()
        invariant IssueItems(env, State(), items[k..], includeIssues, includePrs)
               == IssueItems(env, old(State()), items, includeIssues, includePrs)
      {
        assert items[k..][1..] == items[k + 1..];
        stale := ProcessIssue(items[k], includeIssues, includePrs);
        if stale {
          return;
        }
        k := k + 1;
      }
      stale := false;
    }

    /** The `while True` page loop of `gather_issues_and_prs`. */
    method GatherIssuesAndPrs(rs: seq<ListResponse<IssueItem>>, includeIssues: bool, includePrs: bool)
      returns (pages: seq<nat>)
      requires Valid()
      modifies this
      ensures Run(State(), pages) == IssuesRun(env, old(State()), rs, 1, includeIssues, includePrs)
      ensures Valid()
    {
      var page: nat := 1;
      var n := 0;
      pages := [];
      while true
        invariant 0 <= n <= |rs|
        invariant Valid()
        invariant ThenRun(pages, IssuesRun(env, State(), rs[n..], page, includeIssues, includePrs))
               == IssuesRun(env, old(State()), rs, 1, includeIssues, includePrs)
        decreases |rs| - n
      {
        ghost var s0 := State();
        IssuesRunUnfold(env, s0, rs[n..], page, includeIssues, includePrs);
        if n == |rs| {
          ThenRunAppend(pages, page, Run(s0, []));
          pages := pages + [page];
          break;
        }
        var answer := rs[n];
        assert rs[n..][1..] == rs[n + 1..];
        n := n + 1;
        if !answer.Page? || answer.items == [] {
          ThenRunAppend(pages, page, Run(s0, []));
          pages := pages + [page];
          break;
        }
        var stale := ProcessIssuePage(answer.items, includeIssues, includePrs);
        Save();
        if stale {
          ThenRunAppend(pages, page, Run(State(), []));
          pages := pages + [page];
          break;
        }
        ThenRunAppend(pages, page, IssuesRun(env, State(), rs[n..], page + 1, includeIssues, includePrs));
        pages := pages + [page];
        page := page + 1;
      }
    }

    /** `finalize_repo_data` (gather.py:648-678): every bucket finalised in
        turn, then the file written once more. */
    method FinalizeAll()
      requires Valid()
      modifies this
      ensures buckets == Finalize.FinalizeSnapshot(old(buckets))
      ensures saved == old(saved) + [buckets]
      ensures prevDiffs == old(prevDiffs) && requested == old(requested)
      ensures Valid()
    {
      Finalize.FinalizeWellFormed(buckets);
      buckets := Finalize.FinalizeEach(buckets);
      Save();
    }
  }

  /** One turn of the commit page loop. */
  lemma CommitsRunUnfold(env: Env, s: Store, rs: seq<ListResponse<CommitItem>>, page: nat)
    requires Fits(env, s)
    ensures rs != [] && rs[0].RateLimited? && rs[0].wait < MaxWait ==>
              CommitsRun(env, s, rs, page) == ThenRun([page], CommitsRun(env, s, rs[1..], page))
    ensures rs == [] || (rs[0].RateLimited? && rs[0].wait >= MaxWait) || rs[0].NotList? || rs[0].FetchFailed?
            || (rs[0].Page? && rs[0].items == []) ==>
              CommitsRun(env, s, rs, page) == Run(s, [page])
    ensures rs != [] && rs[0].Page? && rs[0].items != [] ==>
              var (s1, stale) := CommitItems(env, s, rs[0].items);
              var s2 := s1.(saved := s1.saved + [s1.buckets]);
              CommitsRun(env, s, rs, page)
              == if stale then Run(s2, [page])
                 else ThenRun([page], CommitsRun(env, s2, rs[1..], page + 1))
  {
  }

  /** Pages gathered in two goes are the pages gathered in one. */
  lemma ThenRunAppend(pages: seq<nat>, page: nat, r: Run)
    ensures ThenRun(pages, ThenRun([page], r)) == ThenRun(pages + [page], r)
    ensures ThenRun(pages, Run(r.store, [page])) == Run(r.store, pages + [page])
  {
    assert pages + ([page] + r.pages) == pages + [page] + r.pages;
  }

  /** One turn of the issue page loop. */
  lemma IssuesRunUnfold(env: Env, s: Store, rs: seq<ListResponse<IssueItem>>, page: nat,
                        includeIssues: bool, includePrs: bool)
    requires Fits(env, s)
    ensures rs == [] || !rs[0].Page? || rs[0].items == [] ==>
              IssuesRun(env, s, rs, page, includeIssues, includePrs) == Run(s, [page])
    ensures rs != [] && rs[0].Page? && rs[0].items != [] ==>
              var (s1, stale) := IssueItems(env, s, rs[0].items, includeIssues, includePrs);
              var s2 := s1.(saved := s1.saved + [s1.buckets]);
              IssuesRun(env, s, rs, page, includeIssues, includePrs)
              == if stale then Run(s2, [page])
                 else ThenRun([page], IssuesRun(env, s2, rs[1..], page + 1, includeIssues, includePrs))
  {
  }

  /** One turn of the PR diff loop, in terms of `Then`. */
  lemma ThenStep(fetched: seq<string>, stats: seq<DiffStat>, cache: map<string, DiffStat>,
                 net: string -> nat -> Attempt, d: seq<(string, string)>)
    requires d != []
    ensures d[0].0 in cache ==>
              Then(fetched, stats, FetchAll(cache, net, d))
              == Then(fetched, stats + [cache[d[0].0]], FetchAll(cache, net, d[1..]))
    ensures d[0].0 !in cache && DiffOutcome(net(d[0].1), RetryCount).None? ==>
              Then(fetched, stats, FetchAll(cache, net, d)) == PrFetch(cache, fetched + [d[0].1], None)
    ensures d[0].0 !in cache && DiffOutcome(net(d[0].1), RetryCount).Some? ==>
              var st := DiffOutcome(net(d[0].1), RetryCount).value;
              Then(fetched, stats, FetchAll(cache, net, d))
              == Then(fetched + [d[0].1], stats + [st], FetchAll(cache[d[0].0 := st], net, d[1..]))
  {
    var sha, url := d[0].0, d[0].1;
    if sha in cache {
      var r := FetchAll(cache, net, d[1..]);
      if r.stats.Some? {
        assert stats + ([cache[sha]] + r.stats.value) == stats + [cache[sha]] + r.stats.value;
      }
    } else if DiffOutcome(net(url), RetryCount).Some? {
      var st := DiffOutcome(net(url), RetryCount).value;
      var r := FetchAll(cache[sha := st], net, d[1..]);
      assert fetched + ([url] + r.fetched) == fetched + [url] + r.fetched;
      if r.stats.Some? {
        assert stats + ([st] + r.stats.value) == stats + [st] + r.stats.value;
      }
    }
  }

  lemma ThenNothing(r: PrFetch)
    ensures Then([], [], r) == r
  {
    assert [] + r.fetched == r.fetched;
    if r.stats.Some? {
      assert [] + r.stats.value == r.stats.value;
    }
  }

  lemma TouchThenRecord(m: ContributorMap, who: string, full: string, a: Activity)
    ensures Record(Touch(m, who, full), who, full, a) == Record(m, who, full, a)
  {
    if Lookup(m, who).None? {
      TouchThenRecordNew(m, who, full, a);
    }
  }

  /** The case where `who` is new: both sides append one entry holding `a`. */
  lemma TouchThenRecordNew(m: ContributorMap, who: string, full: string, a: Activity)
    requires Lookup(m, who).None?
    ensures Record(Touch(m, who, full), who, full, a) == Record(m, who, full, a)
  {
    var t := m + [(who, Entry(0, [], full))];
    var goal := t[|m| := (who, Entry(1, [a], full))];
    assert Touch(m, who, full) == t;
    assert Record(t, who, full, a) == goal by {
      assert IndexOf(t, who) == Some(|m|) by {
        assert t[..|m|] == m;
        IndexOfExtend(m, t, who);
      }
      assert [] + [a] == [a];
    }
    assert Record(m, who, full, a) == goal by {
      assert IndexOf(m, who).None?;
    }
  }
}
