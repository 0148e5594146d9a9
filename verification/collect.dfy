/** The two page loops of gather.py, as functions of the responses they are
    given: `gather_commits` (gather.py:397-502) and `gather_issues_and_prs`
    (gather.py:504-646). The `Collector` class runs the same loops step by
    step and is proved against these functions. */
module Collect {
  import opened Wrappers
  import opened Snapshot
  import opened Diffs
  import opened Dicts

  /** What one request for a page of a list endpoint gives back. */
  datatype ListResponse<T> =
    | Page(items: seq<T>)     // a JSON list, possibly empty
    | NotList                 // a body that is not a list
    | RateLimited(wait: int)  // a 403 saying "API rate limit exceeded"; seconds to wait
    | FetchFailed             // any other request error

  /** The longest rate-limit wait the commit loop sits out (gather.py:424). */
  const MaxWait: int := 300

  /** What a run is given: the milestone times, the cut-off, the username
      mappings, the co-author extraction applied to a commit message, and the
      server's answers to the commit-detail URLs. */
  datatype Env = Env(ms: seq<int>, notBefore: int, users: map<string, string>,
                     coauthors: string -> seq<string>, net: string -> nat -> Attempt)

  /** What a run changes: the buckets (`ms_l`), the `prev_diffs` cache, the
      snapshots written to the repository file so far, and the commit URLs
      whose detail was requested (one `get_diff` call each). */
  datatype Store = Store(buckets: seq<Bucket>, cache: map<string, DiffStat>,
                         saved: seq<seq<Bucket>>, fetched: seq<string>)

  /** What a page loop ends with: the store and the page numbers requested. */
  datatype Run = Run(store: Store, pages: seq<nat>)

  predicate Fits(env: Env, s: Store) {
    |s.buckets| == |env.ms|
  }

  /** `ms_l` before any item (gather.py:356): one empty bucket per milestone,
      dated in display time. */
  function InitialBuckets(ms: seq<int>): (r: seq<Bucket>)
    ensures |r| == |ms| && WellFormedSnapshot(r)
  {
    seq(|ms|, i requires 0 <= i < |ms| => Bucket(ms[i] + DisplayShift, [], [], []))
  }

  /** `s` is a prefix of `t`, and if `t` is longer its last element is `last`. */
  predicate SavedThrough(s: seq<seq<Bucket>>, t: seq<seq<Bucket>>, first: seq<Bucket>, last: seq<Bucket>) {
    && s <= t
    && (|t| == |s| ==> last == first)
    && (|t| > |s| ==> t[|t| - 1] == last)
  }

  /** Every bucket keeps its date and its category `c` from `bs` to `bs2`. */
  predicate Untouched(bs: seq<Bucket>, bs2: seq<Bucket>, c: Category) {
    && |bs| == |bs2|
    && forall i :: 0 <= i < |bs| ==> bs2[i].date == bs[i].date && bs2[i].Get(c) == bs[i].Get(c)
  }

  // ---------------------------------------------------------------- commits

  /** The fields of one element of the commit list that the loop reads;
      `None` where reading the key raises (the commit is then skipped).
      `login` is `author.login` when `author` is a non-null object holding
      it; `authorName` is `commit.author.name`. */
  datatype CommitItem = CommitItem(
    url: Option<string>, date: Option<int>, login: Option<string>, authorName: Option<string>,
    message: Option<string>, link: Option<string>, sha: Option<string>)

  /** The primary author (gather.py:449-454). */
  function PrimaryAuthor(c: CommitItem): (r: string)
    ensures c.login.Some? ==> r == c.login.value
    ensures c.login.None? && c.authorName.Some? ==> r == c.authorName.value
    ensures c.login.None? && c.authorName.None? ==> r == "unknown"
  {
    match c.login
    case Some(login) => login
    case None => c.authorName.GetOr("unknown")
  }

  /** The commit that ends the page: its date is readable and before the cut-off. */
  predicate StaleCommit(env: Env, c: CommitItem) {
    c.url.Some? && c.date.Some? && c.date.value < env.notBefore
  }

  /** The commit is recorded: every field it reads is there, it is not stale,
      and `get_diff` returned a value. */
  predicate KeptCommit(env: Env, c: CommitItem) {
    && c.url.Some? && c.date.Some? && env.notBefore <= c.date.value
    && c.message.Some? && c.link.Some? && c.sha.Some?
    && DiffOutcome(env.net(c.url.value), RetryCount).Some?
  }

  function CommitRecord(c: CommitItem, st: DiffStat): Activity
    requires c.date.Some? && c.message.Some? && c.link.Some?
  {
    CommitActivity(c.message.value, c.date.value + DisplayShift, c.link.value, Diff(|st.filenames|, st.total))
  }

  /** One pass of the body of `for commit in commits` (gather.py:437-490).
      The second component says the loop breaks here. */
  function CommitStep(env: Env, s: Store, c: CommitItem): (r: (Store, bool))
    requires Fits(env, s)
    ensures Fits(env, r.0)
  {
    if c.url.None? || c.date.None? then (s, false)
    else if c.date.value < env.notBefore then (s, true)
    else if c.message.None? || c.link.None? then (s, false)
    else
      var url, t := c.url.value, c.date.value;
      var s1 := s.(fetched := s.fetched + [url]);
      match DiffOutcome(env.net(url), RetryCount)
      case None => (s1, false)
      case Some(st) =>
        if c.sha.None? then (s1, false)
        else
          var names := env.coauthors(c.message.value) + [PrimaryAuthor(c)];
          (s1.(cache := s.cache[c.sha.value := st],
               buckets := Place(s.buckets, env.ms, Commits, t, names, CommitRecord(c, st), env.users)),
           false)
  }

  /** A commit stops the page exactly when it is stale, and then changes
      nothing. Otherwise it requests at most its own detail URL, keeps every
      cached stat except its own SHA's, and touches neither the buckets nor
      the cache unless it is recorded; it never writes the file and keeps
      the snapshot well formed. */
  lemma CommitStepEffect(env: Env, s: Store, c: CommitItem)
    requires Fits(env, s)
    ensures var r := CommitStep(env, s, c);
      && (r.1 <==> StaleCommit(env, c))
      && (r.1 ==> r.0 == s)
      && r.0.saved == s.saved
      && (WellFormedSnapshot(s.buckets) ==> WellFormedSnapshot(r.0.buckets))
      && (r.0.fetched == s.fetched || (c.url.Some? && r.0.fetched == s.fetched + [c.url.value]))
      && (forall k :: k in s.cache ==> k in r.0.cache)
      && (forall k :: k in s.cache && (c.sha.None? || k != c.sha.value) ==> r.0.cache[k] == s.cache[k])
      && (!KeptCommit(env, c) ==> r.0.buckets == s.buckets && r.0.cache == s.cache)
  {
    if KeptCommit(env, c) {
      var st := DiffOutcome(env.net(c.url.value), RetryCount).value;
      var names := env.coauthors(c.message.value) + [PrimaryAuthor(c)];
      PlaceEffect(s.buckets, env.ms, Commits, c.date.value, names, CommitRecord(c, st), env.users);
    }
  }

  /** What a recorded commit does. Its detail is requested even when its SHA
      is cached, and the cache entry is overwritten. The commit lands in the
      first milestone strictly later than it, under `commits`, and nowhere
      else: each of `coauthors + [author]` gets one copy of the record per
      time it is listed, a new contributor starting from the mapped full
      name; nothing happens to the buckets when no milestone is later. */
  lemma CommitLands(env: Env, s: Store, c: CommitItem, i: nat, k: string)
    requires Fits(env, s) && KeptCommit(env, c) && FirstLater(c.date.value, env.ms) == Some(i)
    ensures var r := CommitStep(env, s, c).0;
      var st := DiffOutcome(env.net(c.url.value), RetryCount).value;
      var names := env.coauthors(c.message.value) + [PrimaryAuthor(c)];
      && r.fetched == s.fetched + [c.url.value]
      && c.sha.value in r.cache && r.cache[c.sha.value] == st
      && |r.buckets| == |s.buckets|
      && (forall j :: 0 <= j < |s.buckets| && j != i ==> r.buckets[j] == s.buckets[j])
      && r.buckets[i].issues == s.buckets[i].issues
      && r.buckets[i].prs == s.buckets[i].prs
      && Lookup(r.buckets[i].commits, k)
         == if Occurrences(names, k) == 0 then Lookup(s.buckets[i].commits, k)
            else Some(Grown(Base(s.buckets[i].commits, k, FullName(env.users, k)),
                            CommitRecord(c, st), Occurrences(names, k)))
  {
    var st := DiffOutcome(env.net(c.url.value), RetryCount).value;
    var names := env.coauthors(c.message.value) + [PrimaryAuthor(c)];
    PlaceLands(s.buckets, env.ms, Commits, c.date.value, names, CommitRecord(c, st), env.users, i, k);
    var r := Place(s.buckets, env.ms, Commits, c.date.value, names, CommitRecord(c, st), env.users);
    assert r[i].Get(Issues) == s.buckets[i].Get(Issues) && r[i].Get(Prs) == s.buckets[i].Get(Prs);
  }

  /** A kept commit later than every milestone changes no bucket. */
  lemma CommitAfterEveryMilestone(env: Env, s: Store, c: CommitItem)
    requires Fits(env, s) && KeptCommit(env, c) && FirstLater(c.date.value, env.ms).None?
    ensures CommitStep(env, s, c).0.buckets == s.buckets
  {
  }

  /** The commits of one page, up to and including the first stale one. */
  function CommitItems(env: Env, s: Store, items: seq<CommitItem>): (r: (Store, bool))
    requires Fits(env, s)
    ensures Fits(env, r.0)
    decreases |items|
  {
    if items == [] then (s, false)
    else
      var (s1, stop) := CommitStep(env, s, items[0]);
      if stop then (s1, true)
      else CommitItems(env, s1, items[1..])
  }

  /** A page's commits end the page exactly when one of them is stale; they
      never write the file and keep the snapshot well formed. */
  lemma {:induction false} CommitItemsEffect(env: Env, s: Store, items: seq<CommitItem>)
    requires Fits(env, s)
    ensures var r := CommitItems(env, s, items);
      && r.0.saved == s.saved
      && (r.1 <==> exists k :: 0 <= k < |items| && StaleCommit(env, items[k]))
      && (WellFormedSnapshot(s.buckets) ==> WellFormedSnapshot(r.0.buckets))
    decreases |items|
  {
    if items != [] {
      CommitStepEffect(env, s, items[0]);
      var (s1, stop) := CommitStep(env, s, items[0]);
      if !stop {
        CommitItemsEffect(env, s1, items[1..]);
        var r := CommitItems(env, s1, items[1..]);
        if r.1 {
          var k :| 0 <= k < |items[1..]| && StaleCommit(env, items[1..][k]);
          assert StaleCommit(env, items[k + 1]);
        }
        if exists k :: 0 <= k < |items| && StaleCommit(env, items[k]) {
          var k :| 0 <= k < |items| && StaleCommit(env, items[k]);
          assert k != 0;
          assert StaleCommit(env, items[1..][k - 1]);
        }
      }
    }
  }

  /** The first stale commit ends the page: the commits after it are never
      looked at. */
  lemma {:induction false} StaleCutsPage(env: Env, s: Store, items: seq<CommitItem>, k: nat)
    requires Fits(env, s) && k < |items| && StaleCommit(env, items[k])
    requires forall j :: 0 <= j < k ==> !StaleCommit(env, items[j])
    ensures !CommitItems(env, s, items[..k]).1
    ensures CommitItems(env, s, items) == (CommitItems(env, s, items[..k]).0, true)
    decreases k
  {
    if k > 0 {
      var s1 := CommitStep(env, s, items[0]).0;
      assert items[..k][1..] == items[1..][..k - 1];
      StaleCutsPage(env, s1, items[1..], k - 1);
    }
  }

  /** The page loop of `gather_commits` against the answers `rs` to
      successive requests, starting at page `page`. Running out of answers
      stands for an empty page. */
  function CommitsRun(env: Env, s: Store, rs: seq<ListResponse<CommitItem>>, page: nat): (r: Run)
    requires Fits(env, s)
    ensures Fits(env, r.store)
    decreases |rs|
  {
    if rs == [] then Run(s, [page])
    else match rs[0]
      case RateLimited(wait) =>
        if wait < MaxWait then
          var r := CommitsRun(env, s, rs[1..], page);
          Run(r.store, [page] + r.pages)
        else Run(s, [page])
      case NotList => Run(s, [page])
      case FetchFailed => Run(s, [page])
      case Page(items) =>
        if items == [] then Run(s, [page])
        else
          var (s1, stale) := CommitItems(env, s, items);
          var s2 := s1.(saved := s1.saved + [s1.buckets]);
          if stale then Run(s2, [page])
          else
            var r := CommitsRun(env, s2, rs[1..], page + 1);
            Run(r.store, [page] + r.pages)
  }

  /** The commit loop requests `page` first, and each later request is for
      the same page (after a short rate-limit wait) or the next one. Every
      change to the buckets is followed by a write of the file, which is
      only ever appended to; the snapshot stays well formed. */
  lemma {:induction false} CommitsRunEffect(env: Env, s: Store, rs: seq<ListResponse<CommitItem>>, page: nat)
    requires Fits(env, s)
    ensures var r := CommitsRun(env, s, rs, page);
      && |r.pages| >= 1 && r.pages[0] == page
      && (forall j :: 0 <= j < |r.pages| - 1 ==>
            r.pages[j + 1] == r.pages[j] || r.pages[j + 1] == r.pages[j] + 1)
      && SavedThrough(s.saved, r.store.saved, s.buckets, r.store.buckets)
      && (WellFormedSnapshot(s.buckets) ==> WellFormedSnapshot(r.store.buckets))
    decreases |rs|
  {
    if rs != [] {
      match rs[0]
      case RateLimited(wait) =>
        if wait < MaxWait {
          CommitsRunEffect(env, s, rs[1..], page);
        }
      case NotList =>
      case FetchFailed =>
      case Page(items) =>
        if items != [] {
          CommitItemsEffect(env, s, items);
          var (s1, stale) := CommitItems(env, s, items);
          var s2 := s1.(saved := s1.saved + [s1.buckets]);
          if !stale {
            CommitsRunEffect(env, s2, rs[1..], page + 1);
          }
        }
    }
  }

  /** The commit loop only ever writes the `commits` maps. */
  lemma {:induction false} CommitsRunKeeps(env: Env, s: Store, rs: seq<ListResponse<CommitItem>>,
                                           page: nat, c: Category)
    requires Fits(env, s) && c != Commits
    ensures Untouched(s.buckets, CommitsRun(env, s, rs, page).store.buckets, c)
    decreases |rs|
  {
    if rs != [] {
      match rs[0]
      case RateLimited(wait) =>
        if wait < MaxWait {
          CommitsRunKeeps(env, s, rs[1..], page, c);
        }
      case NotList =>
      case FetchFailed =>
      case Page(items) =>
        if items != [] {
          CommitItemsKeeps(env, s, items, c);
          var (s1, stale) := CommitItems(env, s, items);
          var s2 := s1.(saved := s1.saved + [s1.buckets]);
          if !stale {
            CommitsRunKeeps(env, s2, rs[1..], page + 1, c);
          }
        }
    }
  }

  lemma {:induction false} CommitItemsKeeps(env: Env, s: Store, items: seq<CommitItem>, c: Category)
    requires Fits(env, s) && c != Commits
    ensures Untouched(s.buckets, CommitItems(env, s, items).0.buckets, c)
    decreases |items|
  {
    if items != [] {
      CommitStepKeeps(env, s, items[0], c);
      var (s1, stop) := CommitStep(env, s, items[0]);
      if !stop {
        CommitItemsKeeps(env, s1, items[1..], c);
      }
    }
  }

  lemma CommitStepKeeps(env: Env, s: Store, it: CommitItem, c: Category)
    requires Fits(env, s) && c != Commits
    ensures Untouched(s.buckets, CommitStep(env, s, it).0.buckets, c)
  {
    if KeptCommit(env, it) {
      var st := DiffOutcome(env.net(it.url.value), RetryCount).value;
      var names := env.coauthors(it.message.value) + [PrimaryAuthor(it)];
      PlaceEffect(s.buckets, env.ms, Commits, it.date.value, names, CommitRecord(it, st), env.users);
    }
  }

  /** A page holding a stale commit is the last one requested, and it is saved. */
  lemma StalePageIsLast(env: Env, s: Store, rs: seq<ListResponse<CommitItem>>, page: nat)
    requires Fits(env, s) && rs != [] && rs[0].Page?
    requires exists k :: 0 <= k < |rs[0].items| && StaleCommit(env, rs[0].items[k])
    ensures var r := CommitsRun(env, s, rs, page);
      && r.pages == [page]
      && r.store.saved == s.saved + [CommitItems(env, s, rs[0].items).0.buckets]
  {
    CommitItemsEffect(env, s, rs[0].items);
  }

  /** A page whose every commit is fresh is saved, and the next page is
      requested. */
  lemma FreshPageContinues(env: Env, s: Store, rs: seq<ListResponse<CommitItem>>, page: nat)
    requires Fits(env, s) && rs != [] && rs[0].Page? && rs[0].items != []
    requires forall k :: 0 <= k < |rs[0].items| ==> !StaleCommit(env, rs[0].items[k])
    ensures var r := CommitsRun(env, s, rs, page);
      && |r.pages| >= 2 && r.pages[1] == page + 1
      && |r.store.saved| > |s.saved|
      && r.store.saved[|s.saved|] == CommitItems(env, s, rs[0].items).0.buckets
  {
    CommitItemsEffect(env, s, rs[0].items);
    var r1 := CommitItems(env, s, rs[0].items);
    var s2 := r1.0.(saved := r1.0.saved + [r1.0.buckets]);
    CommitsRunEffect(env, s2, rs[1..], page + 1);
    var r := CommitsRun(env, s2, rs[1..], page + 1);
    assert s2.saved <= r.store.saved;
    assert r.store.saved[|s.saved|] == s2.saved[|s.saved|];
  }

  /** A short rate-limit wait repeats the same page; any other request error,
      a body that is not a list and an empty page end the loop with nothing
      changed. */
  lemma CommitsRunErrors(env: Env, s: Store, rs: seq<ListResponse<CommitItem>>, page: nat)
    requires Fits(env, s) && rs != []
    ensures rs[0].RateLimited? && rs[0].wait < MaxWait ==>
              && CommitsRun(env, s, rs, page).pages == [page] + CommitsRun(env, s, rs[1..], page).pages
              && CommitsRun(env, s, rs, page).store == CommitsRun(env, s, rs[1..], page).store
    ensures (rs[0].RateLimited? && MaxWait <= rs[0].wait) || rs[0].NotList? || rs[0].FetchFailed?
              || rs[0] == Page([]) ==>
              CommitsRun(env, s, rs, page) == Run(s, [page])
  {
  }

  /** The guard in front of the rate-limit wait, as written (gather.py:418-419):
      `e.response` is a requests `Response`, whose truth value is `ok`, that
      is, a status below 400. */
  predicate RetryGuardAsWritten(status: Option<int>, rateLimitText: bool) {
    && status.Some? && status.value < 400
    && status.value == 403 && rateLimitText
  }

  /** `raise_for_status` raises only for a status of 400 or more, and other
      request errors carry no response: the guard never holds, so the wait
      and `continue` at gather.py:420-425 are never reached and a rate-limit
      answer ends the commit loop like any other error. */
  lemma RetryGuardNeverHolds(status: Option<int>, rateLimitText: bool)
    requires status.Some? ==> status.value >= 400
    ensures !RetryGuardAsWritten(status, rateLimitText)
  {
  }

  /** The page loop of `gather_commits` as written: since the guard never
      holds, the `except` block always reaches `break`, and a rate-limit
      answer ends the loop like any other request error. */
  function CommitsRunAsWritten(env: Env, s: Store, rs: seq<ListResponse<CommitItem>>, page: nat): (r: Run)
    requires Fits(env, s)
    ensures Fits(env, r.store)
    ensures |r.pages| >= 1 && r.pages[0] == page
    decreases |rs|
  {
    if rs == [] then Run(s, [page])
    else match rs[0]
      case RateLimited(_) => Run(s, [page])
      case NotList => Run(s, [page])
      case FetchFailed => Run(s, [page])
      case Page(items) =>
        if items == [] then Run(s, [page])
        else
          var (s1, stale) := CommitItems(env, s, items);
          var s2 := s1.(saved := s1.saved + [s1.buckets]);
          if stale then Run(s2, [page])
          else
            var r := CommitsRunAsWritten(env, s2, rs[1..], page + 1);
            Run(r.store, [page] + r.pages)
  }

  /** A 403 rate-limit answer reaches the guard with a response whose status
      is 403, so the guard fails and the loop as written ends on it, with
      nothing recorded and nothing saved. */
  lemma RateLimitEndsAsWritten(env: Env, s: Store, rs: seq<ListResponse<CommitItem>>, page: nat)
    requires Fits(env, s) && rs != [] && rs[0].RateLimited?
    ensures !RetryGuardAsWritten(Some(403), true)
    ensures CommitsRunAsWritten(env, s, rs, page) == Run(s, [page])
  {
    RetryGuardNeverHolds(Some(403), true);
  }

  /** The corrected loop and the loop as written differ only on a short
      rate-limit wait: without one among the answers they end alike. */
  lemma {:induction false} CommitsRunAgree(env: Env, s: Store, rs: seq<ListResponse<CommitItem>>, page: nat)
    requires Fits(env, s)
    requires forall k :: 0 <= k < |rs| ==> !(rs[k].RateLimited? && rs[k].wait < MaxWait)
    ensures CommitsRunAsWritten(env, s, rs, page) == CommitsRun(env, s, rs, page)
    decreases |rs|
  {
    if rs != [] {
      assert !(rs[0].RateLimited? && rs[0].wait < MaxWait);
      forall k | 0 <= k < |rs[1..]|
        ensures !(rs[1..][k].RateLimited? && rs[1..][k].wait < MaxWait)
      {
        assert rs[1..][k] == rs[k + 1];
      }
      match rs[0]
      case RateLimited(_) =>
      case NotList =>
      case FetchFailed =>
      case Page(items) =>
        if items != [] {
          var (s1, stale) := CommitItems(env, s, items);
          var s2 := s1.(saved := s1.saved + [s1.buckets]);
          if !stale {
            CommitsRunAgree(env, s2, rs[1..], page + 1);
          }
        }
    }
  }

  /** The input that shows the difference: a short rate-limit wait followed
      by a non-empty page. As written the loop stops after one request with
      nothing saved; corrected, it asks for the same page again, processes
      it and saves the snapshot. */
  lemma RateLimitDiffers(env: Env, s: Store, w: int, items: seq<CommitItem>,
                         rest: seq<ListResponse<CommitItem>>, page: nat)
    requires Fits(env, s) && w < MaxWait && items != []
    ensures var rs := [RateLimited(w), Page(items)] + rest;
      && CommitsRunAsWritten(env, s, rs, page) == Run(s, [page])
      && |CommitsRun(env, s, rs, page).pages| >= 2
      && CommitsRun(env, s, rs, page).pages[0] == page && CommitsRun(env, s, rs, page).pages[1] == page
      && |CommitsRun(env, s, rs, page).store.saved| > |s.saved|
  {
    var rs := [RateLimited(w), Page(items)] + rest;
    var tail := rs[1..];
    assert tail == [Page(items)] + rest;
    assert tail[0] == Page(items) && tail[1..] == rest;
    var (s1, stale) := CommitItems(env, s, items);
    CommitItemsEffect(env, s, items);
    var s2 := s1.(saved := s1.saved + [s1.buckets]);
    if !stale {
      CommitsRunEffect(env, s2, rest, page + 1);
    }
  }

  // ------------------------------------------------------------ issues, PRs

  /** A reply to a request that may raise a `RequestException`. */
  datatype Fetched<T> = Fetched(value: T) | RequestFailed

  /** One element of a comment list: `user.login` (if readable) and `body`. */
  datatype RawComment = RawComment(login: Option<string>, body: string)

  /** The fields of one element of the issue list that the loop reads;
      `None` where reading the key raises (the item is then skipped).
      `comments` and `prCommits` are the replies to the comment-list and
      PR-commit-list requests; each PR commit is a (sha, url) pair. */
  datatype IssueItem = IssueItem(
    isPr: bool, created: Option<int>, title: Option<string>, body: string,
    labels: seq<Option<string>>, assignees: seq<Option<string>>, login: Option<string>,
    commentCount: int, comments: Fetched<seq<RawComment>>, link: Option<string>,
    state: Option<string>, prCommits: Fetched<seq<(string, string)>>)

  predicate AllPresent(xs: seq<Option<string>>) {
    forall j :: 0 <= j < |xs| ==> xs[j].Some?
  }

  function Values(xs: seq<Option<string>>): (r: seq<string>)
    requires AllPresent(xs)
    ensures |r| == |xs| && forall j :: 0 <= j < |xs| ==> xs[j] == Some(r[j])
  {
    seq(|xs|, j requires 0 <= j < |xs| && AllPresent(xs) => xs[j].value)
  }

  /** `assignee_full_names` (gather.py:611-613). */
  function FullNames(users: map<string, string>, names: seq<string>): (r: seq<string>)
    ensures |r| == |names| && forall j :: 0 <= j < |names| ==> r[j] == FullName(users, names[j])
  {
    seq(|names|, j requires 0 <= j < |names| => FullName(users, names[j]))
  }

  /** The loop over a fetched comment list (gather.py:558-565): `None` when
      a comment's author cannot be read. */
  function CommentList(raw: seq<RawComment>, users: map<string, string>): (r: Option<seq<Comment>>)
    ensures r.None? <==> exists j :: 0 <= j < |raw| && raw[j].login.None?
    ensures r.Some? ==> |r.value| == |raw| && forall j :: 0 <= j < |raw| ==>
              r.value[j] == Comment(raw[j].login.value, FullName(users, raw[j].login.value), raw[j].body)
  {
    if exists j :: 0 <= j < |raw| && raw[j].login.None? then None
    else Some(seq(|raw|, j requires 0 <= j < |raw| && raw[j].login.Some? =>
                           Comment(raw[j].login.value, FullName(users, raw[j].login.value), raw[j].body)))
  }

  /** The comments recorded for an item (gather.py:551-566): `[]` when it has
      none or the request fails; `None` when a comment's author cannot be
      read, an error that is not a request error and skips the whole item. */
  function IssueComments(it: IssueItem, users: map<string, string>): Option<seq<Comment>> {
    if it.commentCount <= 0 then Some([])
    else match it.comments
      case RequestFailed => Some([])
      case Fetched(raw) => CommentList(raw, users)
  }

  function Included(it: IssueItem, includeIssues: bool, includePrs: bool): bool {
    if it.isPr then includePrs else includeIssues
  }

  /** The item that ends the page: of an included category, with a readable
      date before the cut-off. */
  predicate StaleIssue(env: Env, it: IssueItem, includeIssues: bool, includePrs: bool) {
    Included(it, includeIssues, includePrs) && it.created.Some? && it.created.value < env.notBefore
  }

  /** Everything read before the comments is there. */
  predicate Readable(it: IssueItem) {
    it.created.Some? && it.title.Some? && AllPresent(it.labels) && AllPresent(it.assignees) && it.login.Some?
  }

  function IssueRecord(env: Env, it: IssueItem, cs: seq<Comment>, prDiff: Option<Diff>): Activity
    requires Readable(it) && it.link.Some? && it.state.Some?
  {
    IssueActivity(it.title.value, it.body, it.created.value + DisplayShift, Values(it.labels),
                  Values(it.assignees), FullNames(env.users, Values(it.assignees)), it.link.value,
                  it.state.value, cs, prDiff)
  }

  /** Adding an issue or PR to the milestone lists (gather.py:597-631). The
      author's entry is created before `state` is read, so an item without a
      state leaves the entry behind with no record. */
  function PlaceIssue(env: Env, s: Store, it: IssueItem, cs: seq<Comment>, prDiff: Option<Diff>): (r: Store)
    requires Fits(env, s) && Readable(it) && it.link.Some?
    ensures Fits(env, r) && r.cache == s.cache && r.fetched == s.fetched && r.saved == s.saved
  {
    match FirstLater(it.created.value, env.ms)
    case None => s
    case Some(i) =>
      var c := if it.isPr then Prs else Issues;
      var who := it.login.value;
      var m := s.buckets[i].Get(c);
      var m' := if it.state.None? then Touch(m, who, FullName(env.users, who))
                else Record(m, who, FullName(env.users, who), IssueRecord(env, it, cs, prDiff));
      s.(buckets := s.buckets[i := s.buckets[i].Put(c, m')])
  }

  lemma PlaceIssueWellFormed(env: Env, s: Store, it: IssueItem, cs: seq<Comment>, prDiff: Option<Diff>)
    requires Fits(env, s) && Readable(it) && it.link.Some? && WellFormedSnapshot(s.buckets)
    ensures WellFormedSnapshot(PlaceIssue(env, s, it, cs, prDiff).buckets)
  {
  }

  /** An issue or PR lands in the first milestone strictly later than it,
      under `issues` or `prs`: its author's entry gains exactly this record
      (or is only created when `state` is missing); every other contributor,
      category and bucket is unchanged; no later milestone, no change. */
  lemma IssueLands(env: Env, s: Store, it: IssueItem, cs: seq<Comment>, prDiff: Option<Diff>, k: string)
    requires Fits(env, s) && Readable(it) && it.link.Some?
    ensures var r := PlaceIssue(env, s, it, cs, prDiff);
      var c := if it.isPr then Prs else Issues;
      forall i :: 0 <= i < |s.buckets| ==>
        if FirstLater(it.created.value, env.ms) == Some(i) then
          && (forall d :: d != c ==> r.buckets[i].Get(d) == s.buckets[i].Get(d))
          && r.buckets[i].date == s.buckets[i].date
          && Lookup(r.buckets[i].Get(c), k)
             == if k != it.login.value then Lookup(s.buckets[i].Get(c), k)
                else if it.state.None? then Some(Base(s.buckets[i].Get(c), k, FullName(env.users, k)))
                else Some(Grown(Base(s.buckets[i].Get(c), k, FullName(env.users, k)),
                                IssueRecord(env, it, cs, prDiff), 1))
        else r.buckets[i] == s.buckets[i]
  {
    var r := PlaceIssue(env, s, it, cs, prDiff);
    var c := if it.isPr then Prs else Issues;
    forall i | 0 <= i < |s.buckets|
      ensures if FirstLater(it.created.value, env.ms) == Some(i) then
          && (forall d :: d != c ==> r.buckets[i].Get(d) == s.buckets[i].Get(d))
          && r.buckets[i].date == s.buckets[i].date
          && Lookup(r.buckets[i].Get(c), k)
             == if k != it.login.value then Lookup(s.buckets[i].Get(c), k)
                else if it.state.None? then Some(Base(s.buckets[i].Get(c), k, FullName(env.users, k)))
                else Some(Grown(Base(s.buckets[i].Get(c), k, FullName(env.users, k)),
                                IssueRecord(env, it, cs, prDiff), 1))
        else r.buckets[i] == s.buckets[i]
    {
      if FirstLater(it.created.value, env.ms) == Some(i) {
        IssueLandsAt(env, s, it, cs, prDiff, k, i);
      }
    }
  }

  /** The bucket the item lands in. */
  lemma IssueLandsAt(env: Env, s: Store, it: IssueItem, cs: seq<Comment>, prDiff: Option<Diff>, k: string, i: nat)
    requires Fits(env, s) && Readable(it) && it.link.Some?
    requires FirstLater(it.created.value, env.ms) == Some(i)
    ensures var r := PlaceIssue(env, s, it, cs, prDiff);
      var c := if it.isPr then Prs else Issues;
      && i < |s.buckets|
      && (forall d :: d != c ==> r.buckets[i].Get(d) == s.buckets[i].Get(d))
      && r.buckets[i].date == s.buckets[i].date
      && Lookup(r.buckets[i].Get(c), k)
         == if k != it.login.value then Lookup(s.buckets[i].Get(c), k)
            else if it.state.None? then Some(Base(s.buckets[i].Get(c), k, FullName(env.users, k)))
            else Some(Grown(Base(s.buckets[i].Get(c), k, FullName(env.users, k)),
                            IssueRecord(env, it, cs, prDiff), 1))
  {
    var c := if it.isPr then Prs else Issues;
    var who := it.login.value;
    var full := FullName(env.users, who);
    var m := s.buckets[i].Get(c);
    var m' := if it.state.None? then Touch(m, who, full)
              else Record(m, who, full, IssueRecord(env, it, cs, prDiff));
    var b' := s.buckets[i].Put(c, m');
    assert PlaceIssue(env, s, it, cs, prDiff).buckets[i] == b';
    assert b'.Get(c) == m';
    if it.state.Some? {
      RecordOnceLookup(m, who, full, IssueRecord(env, it, cs, prDiff), k);
    }
  }

  /** One record added to `who`: only `who`'s entry changes, by that record. */
  lemma RecordOnceLookup(m: ContributorMap, who: string, full: string, a: Activity, k: string)
    ensures Lookup(Record(m, who, full, a), k)
         == if k != who then Lookup(m, k) else Some(Grown(Base(m, k, full), a, 1))
  {
    assert Repeat(a, 1) == [a] by { assert Repeat(a, 0) + [a] == [a]; }
  }

  /** One pass of the body of `for issue in issues` (gather.py:528-634). */
  function IssueStep(env: Env, s: Store, it: IssueItem, includeIssues: bool, includePrs: bool)
    : (r: (Store, bool))
    requires Fits(env, s)
    ensures Fits(env, r.0)
  {
    if !Included(it, includeIssues, includePrs) || it.created.None? then (s, false)
    else if it.created.value < env.notBefore then (s, true)
    else if !Readable(it) then (s, false)
    else match IssueComments(it, env.users)
      case None => (s, false)
      case Some(cs) =>
        if it.link.None? then (s, false)
        else if !it.isPr then (PlaceIssue(env, s, it, cs, None), false)
        else match it.prCommits
          case RequestFailed => (PlaceIssue(env, s, it, cs, Some(Diff(0, 0))), false)
          case Fetched(pairs) =>
            var f := FetchAll(s.cache, env.net, DictOf(pairs));
            var s1 := s.(cache := f.cache, fetched := s.fetched + f.fetched);
            if f.stats.None? then (s1, false)
            else (PlaceIssue(env, s1, it, cs, Some(PrDiff(f.stats.value))), false)
  }

  /** An item stops the page exactly when it is stale, and an item of a
      category that is not gathered changes nothing. Cached stats keep their
      values, requests are only appended, an issue (not a PR) touches
      neither the cache nor the requests, the file is not written, and the
      snapshot stays well formed. */
  lemma IssueStepEffect(env: Env, s: Store, it: IssueItem, includeIssues: bool, includePrs: bool)
    requires Fits(env, s)
    ensures var r := IssueStep(env, s, it, includeIssues, includePrs);
      && (r.1 <==> StaleIssue(env, it, includeIssues, includePrs))
      && (r.1 || !Included(it, includeIssues, includePrs) ==> r.0 == s)
      && r.0.saved == s.saved
      && (WellFormedSnapshot(s.buckets) ==> WellFormedSnapshot(r.0.buckets))
      && (forall k :: k in s.cache ==> k in r.0.cache && r.0.cache[k] == s.cache[k])
      && s.fetched <= r.0.fetched
      && (!it.isPr ==> r.0.cache == s.cache && r.0.fetched == s.fetched)
  {
    var r := IssueStep(env, s, it, includeIssues, includePrs);
    if !Included(it, includeIssues, includePrs) || it.created.None? {
      assert r == (s, false);
    } else if it.created.value < env.notBefore {
      assert r == (s, true);
    } else if !Readable(it) || IssueComments(it, env.users).None? || it.link.None? {
      assert r == (s, false);
    } else {
      var cs := IssueComments(it, env.users).value;
      if it.isPr && it.prCommits.Fetched? {
        PrStepEffect(env, s, it, cs);
      } else {
        var prDiff := if it.isPr then Some(Diff(0, 0)) else None;
        assert r == (PlaceIssue(env, s, it, cs, prDiff), false);
        if WellFormedSnapshot(s.buckets) {
          PlaceIssueWellFormed(env, s, it, cs, prDiff);
        }
      }
    }
  }

  /** The PR branch of `IssueStep` once its commit list has been read. */
  lemma PrStepEffect(env: Env, s: Store, it: IssueItem, cs: seq<Comment>)
    requires Fits(env, s) && Readable(it) && it.link.Some? && it.prCommits.Fetched?
    ensures var f := FetchAll(s.cache, env.net, DictOf(it.prCommits.value));
      var s1 := s.(cache := f.cache, fetched := s.fetched + f.fetched);
      var r := if f.stats.None? then s1 else PlaceIssue(env, s1, it, cs, Some(PrDiff(f.stats.value)));
      && r.saved == s.saved
      && (WellFormedSnapshot(s.buckets) ==> WellFormedSnapshot(r.buckets))
      && (forall k :: k in s.cache ==> k in r.cache && r.cache[k] == s.cache[k])
      && s.fetched <= r.fetched
  {
    var d := DictOf(it.prCommits.value);
    FetchAllEffect(s.cache, env.net, d);
    var f := FetchAll(s.cache, env.net, d);
    var s1 := s.(cache := f.cache, fetched := s.fetched + f.fetched);
    if f.stats.Some? && WellFormedSnapshot(s.buckets) {
      PlaceIssueWellFormed(env, s1, it, cs, Some(PrDiff(f.stats.value)));
    }
  }

  /** The PR path reads diffs through the cache: the commit URLs it requests
      are, in dict order, those of the SHAs not cached yet (all of them when
      the PR is recorded, a prefix when a request raised), and a PR whose
      commit list cannot be fetched is recorded with `{files: 0, total: 0}`. */
  lemma PrFetchesMissingOnly(env: Env, s: Store, it: IssueItem, includeIssues: bool, includePrs: bool)
    requires Fits(env, s) && it.isPr && it.prCommits.Fetched?
    ensures var r := IssueStep(env, s, it, includeIssues, includePrs).0;
      exists added :: r.fetched == s.fetched + added && added <= MissingUrls(s.cache, DictOf(it.prCommits.value))
  {
    var r := IssueStep(env, s, it, includeIssues, includePrs).0;
    var d := DictOf(it.prCommits.value);
    FetchAllEffect(s.cache, env.net, d);
    if r.fetched == s.fetched {
      assert r.fetched == s.fetched + [];
    }
  }

  lemma PrWithoutCommitList(env: Env, s: Store, it: IssueItem, includeIssues: bool, includePrs: bool)
    requires Fits(env, s) && it.isPr && it.prCommits.RequestFailed? && includePrs
    requires Readable(it) && env.notBefore <= it.created.value && it.link.Some?
    requires IssueComments(it, env.users).Some?
    ensures IssueStep(env, s, it, includeIssues, includePrs).0
         == PlaceIssue(env, s, it, IssueComments(it, env.users).value, Some(Diff(0, 0)))
  {
  }

  /** The items of one page, up to and including the first stale one. */
  function IssueItems(env: Env, s: Store, items: seq<IssueItem>, includeIssues: bool, includePrs: bool)
    : (r: (Store, bool))
    requires Fits(env, s)
    ensures Fits(env, r.0)
    decreases |items|
  {
    if items == [] then (s, false)
    else
      var (s1, stop) := IssueStep(env, s, items[0], includeIssues, includePrs);
      if stop then (s1, true)
      else IssueItems(env, s1, items[1..], includeIssues, includePrs)
  }

  /** A page's items end the page exactly when one of them is stale; they
      never write the file and keep the snapshot well formed. */
  lemma {:induction false} IssueItemsEffect(env: Env, s: Store, items: seq<IssueItem>,
                                            includeIssues: bool, includePrs: bool)
    requires Fits(env, s)
    ensures var r := IssueItems(env, s, items, includeIssues, includePrs);
      && r.0.saved == s.saved
      && (r.1 <==> exists k :: 0 <= k < |items| && StaleIssue(env, items[k], includeIssues, includePrs))
      && (WellFormedSnapshot(s.buckets) ==> WellFormedSnapshot(r.0.buckets))
    decreases |items|
  {
    if items != [] {
      IssueStepEffect(env, s, items[0], includeIssues, includePrs);
      var (s1, stop) := IssueStep(env, s, items[0], includeIssues, includePrs);
      if !stop {
        IssueItemsEffect(env, s1, items[1..], includeIssues, includePrs);
        var r := IssueItems(env, s1, items[1..], includeIssues, includePrs);
        if r.1 {
          var k :| 0 <= k < |items[1..]| && StaleIssue(env, items[1..][k], includeIssues, includePrs);
          assert StaleIssue(env, items[k + 1], includeIssues, includePrs);
        }
        if exists k :: 0 <= k < |items| && StaleIssue(env, items[k], includeIssues, includePrs) {
          var k :| 0 <= k < |items| && StaleIssue(env, items[k], includeIssues, includePrs);
          assert k != 0;
          assert StaleIssue(env, items[1..][k - 1], includeIssues, includePrs);
        }
      }
    }
  }

  /** An item of a category that is not gathered never ends a page, however
      old it is. */
  lemma ExcludedNeverStops(env: Env, s: Store, items: seq<IssueItem>, includeIssues: bool, includePrs: bool)
    requires Fits(env, s)
    requires forall k :: 0 <= k < |items| ==> !Included(items[k], includeIssues, includePrs)
    ensures IssueItems(env, s, items, includeIssues, includePrs) == (s, false)
  {
    assert forall k :: 0 <= k < |items| ==> !StaleIssue(env, items[k], includeIssues, includePrs);
    IssueItemsEffect(env, s, items, includeIssues, includePrs);
    ExcludedUnchanged(env, s, items, includeIssues, includePrs);
  }

  lemma {:induction false} ExcludedUnchanged(env: Env, s: Store, items: seq<IssueItem>,
                                             includeIssues: bool, includePrs: bool)
    requires Fits(env, s)
    requires forall k :: 0 <= k < |items| ==> !Included(items[k], includeIssues, includePrs)
    ensures IssueItems(env, s, items, includeIssues, includePrs).0 == s
    decreases |items|
  {
    if items != [] {
      IssueStepEffect(env, s, items[0], includeIssues, includePrs);
      ExcludedUnchanged(env, s, items[1..], includeIssues, includePrs);
    }
  }

  /** The page loop of `gather_issues_and_prs`: any request error ends it
      (no wait, no retry), so the pages requested are consecutive. */
  function IssuesRun(env: Env, s: Store, rs: seq<ListResponse<IssueItem>>, page: nat,
                     includeIssues: bool, includePrs: bool): (r: Run)
    requires Fits(env, s)
    ensures Fits(env, r.store)
    decreases |rs|
  {
    if rs == [] || !rs[0].Page? || rs[0].items == [] then Run(s, [page])
    else
      var (s1, stale) := IssueItems(env, s, rs[0].items, includeIssues, includePrs);
      var s2 := s1.(saved := s1.saved + [s1.buckets]);
      if stale then Run(s2, [page])
      else
        var r := IssuesRun(env, s2, rs[1..], page + 1, includeIssues, includePrs);
        Run(r.store, [page] + r.pages)
  }

  /** Any request error ends the issue loop (no wait, no retry), so the
      pages requested are consecutive, at most one more than the answers.
      Every change to the buckets is followed by a write of the file, which
      is only ever appended to; the snapshot stays well formed. */
  lemma {:induction false} IssuesRunEffect(env: Env, s: Store, rs: seq<ListResponse<IssueItem>>, page: nat,
                                           includeIssues: bool, includePrs: bool)
    requires Fits(env, s)
    ensures var r := IssuesRun(env, s, rs, page, includeIssues, includePrs);
      && |r.pages| >= 1 && (forall j :: 0 <= j < |r.pages| ==> r.pages[j] == page + j)
      && |r.pages| <= |rs| + 1
      && SavedThrough(s.saved, r.store.saved, s.buckets, r.store.buckets)
      && (WellFormedSnapshot(s.buckets) ==> WellFormedSnapshot(r.store.buckets))
    decreases |rs|
  {
    var r := IssuesRun(env, s, rs, page, includeIssues, includePrs);
    if rs == [] || !rs[0].Page? || rs[0].items == [] {
      assert r == Run(s, [page]);
    } else {
      IssueItemsEffect(env, s, rs[0].items, includeIssues, includePrs);
      var (s1, stale) := IssueItems(env, s, rs[0].items, includeIssues, includePrs);
      var s2 := s1.(saved := s1.saved + [s1.buckets]);
      if stale {
        assert r == Run(s2, [page]);
      } else {
        var rest := IssuesRun(env, s2, rs[1..], page + 1, includeIssues, includePrs);
        assert r == Run(rest.store, [page] + rest.pages);
        IssuesRunEffect(env, s2, rs[1..], page + 1, includeIssues, includePrs);
      }
    }
  }

  /** The issue loop never writes the `commits` maps, and leaves the
      `issues` (`prs`) maps alone when issues (PRs) are not gathered. */
  lemma {:induction false} IssuesRunKeeps(env: Env, s: Store, rs: seq<ListResponse<IssueItem>>, page: nat,
                                          includeIssues: bool, includePrs: bool, c: Category)
    requires Fits(env, s)
    requires c == Commits || (c == Issues && !includeIssues) || (c == Prs && !includePrs)
    ensures Untouched(s.buckets, IssuesRun(env, s, rs, page, includeIssues, includePrs).store.buckets, c)
    decreases |rs|
  {
    if rs != [] && rs[0].Page? && rs[0].items != [] {
      IssueItemsKeeps(env, s, rs[0].items, includeIssues, includePrs, c);
      var (s1, stale) := IssueItems(env, s, rs[0].items, includeIssues, includePrs);
      var s2 := s1.(saved := s1.saved + [s1.buckets]);
      if !stale {
        IssuesRunKeeps(env, s2, rs[1..], page + 1, includeIssues, includePrs, c);
      }
    }
  }

  lemma {:induction false} IssueItemsKeeps(env: Env, s: Store, items: seq<IssueItem>,
                                           includeIssues: bool, includePrs: bool, c: Category)
    requires Fits(env, s)
    requires c == Commits || (c == Issues && !includeIssues) || (c == Prs && !includePrs)
    ensures Untouched(s.buckets, IssueItems(env, s, items, includeIssues, includePrs).0.buckets, c)
    decreases |items|
  {
    if items != [] {
      IssueStepKeeps(env, s, items[0], includeIssues, includePrs, c);
      var (s1, stop) := IssueStep(env, s, items[0], includeIssues, includePrs);
      if !stop {
        IssueItemsKeeps(env, s1, items[1..], includeIssues, includePrs, c);
      }
    }
  }

  lemma IssueStepKeeps(env: Env, s: Store, it: IssueItem, includeIssues: bool, includePrs: bool, c: Category)
    requires Fits(env, s)
    requires c == Commits || (c == Issues && !includeIssues) || (c == Prs && !includePrs)
    ensures Untouched(s.buckets, IssueStep(env, s, it, includeIssues, includePrs).0.buckets, c)
  {
    var r := IssueStep(env, s, it, includeIssues, includePrs).0;
    if !Included(it, includeIssues, includePrs) || it.created.None? || it.created.value < env.notBefore
       || !Readable(it) || IssueComments(it, env.users).None? || it.link.None?
    {
      assert r == s;
    } else {
      var cs := IssueComments(it, env.users).value;
      if !it.isPr {
        assert r == PlaceIssue(env, s, it, cs, None);
        PlaceIssueKeeps(env, s, it, cs, None, c);
      } else if it.prCommits.RequestFailed? {
        assert r == PlaceIssue(env, s, it, cs, Some(Diff(0, 0)));
        PlaceIssueKeeps(env, s, it, cs, Some(Diff(0, 0)), c);
      } else {
        var f := FetchAll(s.cache, env.net, DictOf(it.prCommits.value));
        var s1 := s.(cache := f.cache, fetched := s.fetched + f.fetched);
        if f.stats.Some? {
          assert r == PlaceIssue(env, s1, it, cs, Some(PrDiff(f.stats.value)));
          PlaceIssueKeeps(env, s1, it, cs, Some(PrDiff(f.stats.value)), c);
        } else {
          assert r == s1;
        }
      }
    }
  }

  lemma PlaceIssueKeeps(env: Env, s: Store, it: IssueItem, cs: seq<Comment>, prDiff: Option<Diff>, c: Category)
    requires Fits(env, s) && Readable(it) && it.link.Some?
    requires c != (if it.isPr then Prs else Issues)
    ensures Untouched(s.buckets, PlaceIssue(env, s, it, cs, prDiff).buckets, c)
  {
  }

  /** Every page the issue loop processes is saved once: when the first `n`
      answers are non-empty pages without a stale item, the first `n`
      snapshots written are the buckets after each of them. */
  lemma {:induction false} IssuesRunSavesEachPage(env: Env, s: Store, rs: seq<ListResponse<IssueItem>>,
                                                  page: nat, includeIssues: bool, includePrs: bool, n: nat)
    requires Fits(env, s) && n <= |rs|
    requires forall j :: 0 <= j < n ==> rs[j].Page? && rs[j].items != []
    requires forall j, k :: 0 <= j < n && 0 <= k < |rs[j].items| ==>
               !StaleIssue(env, rs[j].items[k], includeIssues, includePrs)
    ensures var r := IssuesRun(env, s, rs, page, includeIssues, includePrs);
      |r.pages| > n && |r.store.saved| >= |s.saved| + n
    decreases n
  {
    IssuesRunEffect(env, s, rs, page, includeIssues, includePrs);
    if n > 0 {
      IssueItemsEffect(env, s, rs[0].items, includeIssues, includePrs);
      var (s1, stale) := IssueItems(env, s, rs[0].items, includeIssues, includePrs);
      var s2 := s1.(saved := s1.saved + [s1.buckets]);
      assert !stale;
      IssuesRunSavesEachPage(env, s2, rs[1..], page + 1, includeIssues, includePrs, n - 1);
    }
  }
}
