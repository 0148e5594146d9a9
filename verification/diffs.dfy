/** Per-commit change statistics: the bounded retry of `get_diff`
    (gather.py:27-50), the SHA -> URL dict a PR's commit list is read into
    (gather.py:578), and the PR-level aggregation (gather.py:579-591). */
module Diffs {
  import opened Wrappers
  import opened Snapshot
  import opened Dicts

  /** `get_diff`'s default `retry_count`, the value both call sites use. */
  const RetryCount: nat := 3

  /** What one request for a commit's detail gives back. */
  datatype Attempt =
    | Served(filenames: set<string>, total: int)  // a body with `files` and `stats.total`
    | Failed                                      // a request error, an error status or an undecodable body: caught, retried
    | Incomplete                                  // a body lacking `files` or `stats`: the KeyError is not caught

  /** `{filenames, total}` as `get_diff` returns it and `prev_diffs` caches it. */
  datatype DiffStat = DiffStat(filenames: set<string>, total: int)

  /** What `get_diff` yields when attempts `k..` remain: `Some(stat)`, or
      `None` when an exception leaves it (an incomplete body; or, with
      `retry_count == 0`, the implicit `None` that the caller then subscripts). */
  function DiffFrom(net: nat -> Attempt, retry: nat, k: nat): Option<DiffStat>
    decreases retry - k
  {
    if k >= retry then None
    else match net(k)
      case Served(f, t) => Some(DiffStat(f, t))
      case Incomplete => None
      case Failed => if k == retry - 1 then Some(DiffStat({}, 0)) else DiffFrom(net, retry, k + 1)
  }

  /** `get_diff(url, headers, retry)` against a server whose answer to
      attempt `k` is `net(k)`. */
  function DiffOutcome(net: nat -> Attempt, retry: nat): Option<DiffStat> {
    DiffFrom(net, retry, 0)
  }

  /** Exhausting every attempt gives empty filenames and total 0. */
  lemma {:induction false} DiffExhausted(net: nat -> Attempt, retry: nat, k: nat)
    requires k < retry
    requires forall j :: k <= j < retry ==> net(j) == Failed
    ensures DiffFrom(net, retry, k) == Some(DiffStat({}, 0))
    decreases retry - k
  {
    if k < retry - 1 {
      DiffExhausted(net, retry, k + 1);
    }
  }

  /** The first attempt that does not fail decides the outcome. */
  lemma {:induction false} DiffFirstAnswer(net: nat -> Attempt, retry: nat, k: nat, j: nat)
    requires k <= j < retry && net(j) != Failed
    requires forall i :: k <= i < j ==> net(i) == Failed
    ensures DiffFrom(net, retry, k)
         == if net(j).Served? then Some(DiffStat(net(j).filenames, net(j).total)) else None
    decreases j - k
  {
    if k < j {
      DiffFirstAnswer(net, retry, k + 1, j);
    }
  }

  /** The retry loop of `get_diff`. `attempts` is how many requests it made. */
  method GetDiff(net: nat -> Attempt, retryCount: nat) returns (r: Option<DiffStat>, attempts: nat)
    ensures r == DiffOutcome(net, retryCount)
    ensures attempts <= retryCount
    ensures attempts == 0 <==> retryCount == 0
    ensures forall j :: 0 <= j < attempts - 1 ==> net(j) == Failed
    ensures attempts > 0 ==> match net(attempts - 1)
                             case Served(f, t) => r == Some(DiffStat(f, t))
                             case Incomplete => r == None
                             case Failed => attempts == retryCount && r == Some(DiffStat({}, 0))
    ensures attempts == 0 ==> r == None
  {
    attempts := 0;
    while attempts < retryCount
      invariant attempts <= retryCount
      invariant attempts == 0 || attempts < retryCount
      invariant forall j :: 0 <= j < attempts ==> net(j) == Failed
      invariant DiffFrom(net, retryCount, attempts) == DiffOutcome(net, retryCount)
    {
      var answer := net(attempts);
      attempts := attempts + 1;
      match answer
      case Served(f, t) =>
        return Some(DiffStat(f, t)), attempts;
      case Incomplete =>
        return None, attempts;
      case Failed =>
        if attempts == retryCount {
          return Some(DiffStat({}, 0)), attempts;
        }
    }
    r := None;
  }

  /** The union of the files the commits touch. */
  function FilesUnion(stats: seq<DiffStat>): set<string> {
    if stats == [] then {} else stats[0].filenames + FilesUnion(stats[1..])
  }

  function TotalSum(stats: seq<DiffStat>): int {
    if stats == [] then 0 else stats[0].total + TotalSum(stats[1..])
  }

  function FileCountSum(stats: seq<DiffStat>): nat {
    if stats == [] then 0 else |stats[0].filenames| + FileCountSum(stats[1..])
  }

  /** A PR's `{files, total}` (gather.py:588-591): distinct files over all its
      commits, and the sum of their totals. */
  function PrDiff(stats: seq<DiffStat>): Diff {
    Diff(|FilesUnion(stats)|, TotalSum(stats))
  }

  /** A file touched by several commits of a PR is counted once: `files` is
      at most the sum of per-commit file counts, with equality when no two
      commits share a file; and it is at least each commit's own count. */
  lemma {:induction false} PrFilesBounds(stats: seq<DiffStat>)
    ensures PrDiff(stats).files <= FileCountSum(stats)
    ensures forall j :: 0 <= j < |stats| ==> |stats[j].filenames| <= PrDiff(stats).files
    ensures (forall i, j :: 0 <= i < j < |stats| ==> stats[i].filenames !! stats[j].filenames)
            ==> PrDiff(stats).files == FileCountSum(stats)
  {
    if stats != [] {
      PrFilesBounds(stats[1..]);
      var rest := FilesUnion(stats[1..]);
      assert |stats[0].filenames + rest| <= |stats[0].filenames| + |rest| by {
        SetUnionSize(stats[0].filenames, rest);
      }
      forall j | 0 <= j < |stats| ensures |stats[j].filenames| <= |FilesUnion(stats)| {
        UnionContains(stats, j);
        SubsetSize(stats[j].filenames, FilesUnion(stats));
      }
      if forall i, j :: 0 <= i < j < |stats| ==> stats[i].filenames !! stats[j].filenames {
        assert stats[0].filenames !! rest by {
          forall f | f in stats[0].filenames && f in rest ensures false {
            var j := UnionWitness(stats[1..], f);
          }
        }
        SetUnionSize(stats[0].filenames, rest);
      }
    }
  }

  lemma SetUnionSize(a: set<string>, b: set<string>)
    ensures |a + b| <= |a| + |b|
    ensures a !! b ==> |a + b| == |a| + |b|
  {
    assert |a + b| == |a| + |b| - |a * b|;
  }

  lemma SubsetSize(a: set<string>, b: set<string>)
    requires a <= b
    ensures |a| <= |b|
  {
    assert b == a + (b - a);
  }

  lemma {:induction false} UnionContains(stats: seq<DiffStat>, j: nat)
    requires j < |stats|
    ensures stats[j].filenames <= FilesUnion(stats)
  {
    if j > 0 {
      UnionContains(stats[1..], j - 1);
    }
  }

  lemma {:induction false} UnionWitness(stats: seq<DiffStat>, f: string) returns (j: nat)
    requires f in FilesUnion(stats)
    ensures j < |stats| && f in stats[j].filenames
  {
    if f in stats[0].filenames {
      j := 0;
    } else {
      j := UnionWitness(stats[1..], f);
      j := j + 1;
    }
  }

  /** The worked example of a PR whose two commits touch {a, b} and {b, c}
      with 5 and 7 changed lines: 3 files, 12 lines. */
  lemma PrDiffExample()
    ensures PrDiff([DiffStat({"a", "b"}, 5), DiffStat({"b", "c"}, 7)]) == Diff(3, 12)
  {
    var stats := [DiffStat({"a", "b"}, 5), DiffStat({"b", "c"}, 7)];
    assert stats[1..] == [DiffStat({"b", "c"}, 7)];
    assert FilesUnion(stats) == {"a", "b", "c"};
    assert |{"a", "b", "c"}| == 3;
  }

  /** What reading a PR's commits through `prev_diffs` does (gather.py:579-586):
      the cache afterwards, the URLs requested, and the per-commit stats, or
      `None` when a fetch raised (the item is then skipped, and what was
      cached before that point stays cached). */
  datatype PrFetch = PrFetch(cache: map<string, DiffStat>, fetched: seq<string>,
                             stats: Option<seq<DiffStat>>)

  function FetchAll(cache: map<string, DiffStat>, net: string -> nat -> Attempt,
                    d: seq<(string, string)>): PrFetch
    decreases |d|
  {
    if d == [] then PrFetch(cache, [], Some([]))
    else
      var sha, url := d[0].0, d[0].1;
      if sha in cache then
        var r := FetchAll(cache, net, d[1..]);
        r.(stats := if r.stats.Some? then Some([cache[sha]] + r.stats.value) else None)
      else match DiffOutcome(net(url), RetryCount)
        case None => PrFetch(cache, [url], None)
        case Some(st) =>
          var r := FetchAll(cache[sha := st], net, d[1..]);
          r.(fetched := [url] + r.fetched,
             stats := if r.stats.Some? then Some([st] + r.stats.value) else None)
  }

  /** The URLs of the SHAs the cache does not hold yet, in dict order. */
  function MissingUrls(cache: map<string, DiffStat>, d: seq<(string, string)>): seq<string> {
    if d == [] then []
    else (if d[0].0 in cache then [] else [d[0].1]) + MissingUrls(cache, d[1..])
  }

  lemma {:induction false} MissingUrlsUnaffected(cache: map<string, DiffStat>, sha: string, st: DiffStat,
                                                 d: seq<(string, string)>)
    requires forall j :: 0 <= j < |d| ==> d[j].0 != sha
    ensures MissingUrls(cache[sha := st], d) == MissingUrls(cache, d)
  {
    if d != [] {
      MissingUrlsUnaffected(cache, sha, st, d[1..]);
    }
  }

  /** The cache discipline of the PR path: a SHA already cached is never
      requested and keeps its value; each other SHA of the dict is requested
      exactly once, in dict order, and its stat stored; every PR commit's stat
      is the cached one. A raised fetch stops the sequence of requests early. */
  lemma FetchAllEffect(cache: map<string, DiffStat>, net: string -> nat -> Attempt,
                        d: seq<(string, string)>)
    requires Distinct(d)
    ensures var r := FetchAll(cache, net, d);
      && (forall sha :: sha in cache ==> sha in r.cache && r.cache[sha] == cache[sha])
      && (forall sha :: sha in r.cache ==> sha in cache || exists j :: 0 <= j < |d| && d[j].0 == sha)
      && r.fetched <= MissingUrls(cache, d)
      && (r.stats.Some? ==>
            && r.fetched == MissingUrls(cache, d)
            && |r.stats.value| == |d|
            && forall j :: 0 <= j < |d| ==> d[j].0 in r.cache && r.stats.value[j] == r.cache[d[j].0])
  {
    FetchAllCache(cache, net, d);
    FetchAllFetched(cache, net, d);
    FetchAllStats(cache, net, d);
  }

  /** The cache only grows, and only by SHAs of the dict. */
  lemma {:induction false} FetchAllCache(cache: map<string, DiffStat>, net: string -> nat -> Attempt,
                                         d: seq<(string, string)>)
    ensures var r := FetchAll(cache, net, d);
      && (forall sha :: sha in cache ==> sha in r.cache && r.cache[sha] == cache[sha])
      && (forall sha :: sha in r.cache ==> sha in cache || exists j :: 0 <= j < |d| && d[j].0 == sha)
    decreases |d|
  {
    if d != [] {
      var sha, url := d[0].0, d[0].1;
      if sha in cache {
        FetchAllCache(cache, net, d[1..]);
      } else {
        match DiffOutcome(net(url), RetryCount)
        case None =>
        case Some(st) =>
          FetchAllCache(cache[sha := st], net, d[1..]);
          var r := FetchAll(cache, net, d);
          forall k | k in r.cache
            ensures k in cache || exists j :: 0 <= j < |d| && d[j].0 == k
          {
            if k !in cache[sha := st] {
              var j :| 0 <= j < |d[1..]| && d[1..][j].0 == k;
              assert d[j + 1].0 == k;
            } else if k == sha {
              assert d[0].0 == k;
            }
          }
      }
    }
  }

  /** Each missing SHA is requested once, in dict order, until a fetch fails. */
  lemma {:induction false} FetchAllFetched(cache: map<string, DiffStat>, net: string -> nat -> Attempt,
                                           d: seq<(string, string)>)
    requires Distinct(d)
    ensures var r := FetchAll(cache, net, d);
      && r.fetched <= MissingUrls(cache, d)
      && (r.stats.Some? ==> r.fetched == MissingUrls(cache, d))
    decreases |d|
  {
    if d != [] {
      var sha, url := d[0].0, d[0].1;
      assert Distinct(d[1..]);
      if sha in cache {
        FetchAllFetched(cache, net, d[1..]);
      } else {
        match DiffOutcome(net(url), RetryCount)
        case None =>
        case Some(st) =>
          FetchAllFetched(cache[sha := st], net, d[1..]);
          MissingUrlsUnaffected(cache, sha, st, d[1..]);
      }
    }
  }

  /** On success there is one stat per commit: the cached one for its SHA. */
  lemma {:induction false} FetchAllStats(cache: map<string, DiffStat>, net: string -> nat -> Attempt,
                                         d: seq<(string, string)>)
    ensures var r := FetchAll(cache, net, d);
      r.stats.Some? ==>
        && |r.stats.value| == |d|
        && forall j :: 0 <= j < |d| ==> d[j].0 in r.cache && r.stats.value[j] == r.cache[d[j].0]
    decreases |d|
  {
    if d != [] {
      var sha, url := d[0].0, d[0].1;
      if sha in cache {
        FetchAllStats(cache, net, d[1..]);
        FetchAllCache(cache, net, d[1..]);
      } else {
        match DiffOutcome(net(url), RetryCount)
        case None =>
        case Some(st) =>
          FetchAllStats(cache[sha := st], net, d[1..]);
          FetchAllCache(cache[sha := st], net, d[1..]);
      }
    }
  }
}
