/** The per-repository snapshot that gather.py builds in `ms_l`: one bucket
    per milestone, each with `commits`, `issues` and `prs` maps from
    contributor to `{count, list, full_name}`. Python dicts keep insertion
    order, so a contributor map is an association list here. */
module Snapshot {
  import opened Wrappers

  /** gather.py adds three hours to every recorded date (the UTC+3 display offset). */
  const DisplayShift: int := 3 * 3600

  /** `{files, total}`: distinct files touched and total changed lines. */
  datatype Diff = Diff(files: int, total: int)

  datatype Comment = Comment(author: string, authorFullName: string, body: string)

  /** One recorded activity. `date` is the display-offset time of the item;
      the source stores it as a fixed-width `YYYY-MM-DD HH:MM:SS` string, whose
      string order is this number's order. */
  datatype Activity =
    | CommitActivity(message: string, date: int, link: string, diff: Diff)
    | IssueActivity(title: string, desc: string, date: int, labels: seq<string>,
                    assignees: seq<string>, assigneeFullNames: seq<string>, link: string,
                    state: string, comments: seq<Comment>, prDiff: Option<Diff>)

  /** `{count, list, full_name}` for one contributor. */
  datatype Entry = Entry(count: int, list: seq<Activity>, fullName: string)

  type ContributorMap = seq<(string, Entry)>

  datatype Category = Commits | Issues | Prs

  datatype Bucket = Bucket(date: int, commits: ContributorMap, issues: ContributorMap, prs: ContributorMap)
  {
    function Get(c: Category): (m: ContributorMap)
      ensures WellFormedBucket(this) ==> WellFormedMap(m)
    {
      match c
      case Commits => commits
      case Issues => issues
      case Prs => prs
    }

    function Put(c: Category, m: ContributorMap): (b: Bucket)
      ensures b.Get(c) == m && b.date == date
      ensures forall d :: d != c ==> b.Get(d) == Get(d)
      ensures WellFormedBucket(this) && WellFormedMap(m) ==> WellFormedBucket(b)
    {
      match c
      case Commits => this.(commits := m)
      case Issues => this.(issues := m)
      case Prs => this.(prs := m)
    }
  }

  predicate DistinctKeys(m: ContributorMap) {
    forall i, j :: 0 <= i < j < |m| ==> m[i].0 != m[j].0
  }

  /** The invariant the collectors keep: one entry per contributor, and
      every entry's `count` equals the length of its `list`. */
  predicate WellFormedMap(m: ContributorMap) {
    && DistinctKeys(m)
    && forall i :: 0 <= i < |m| ==> m[i].1.count == |m[i].1.list|
  }

  predicate WellFormedBucket(b: Bucket) {
    WellFormedMap(b.commits) && WellFormedMap(b.issues) && WellFormedMap(b.prs)
  }

  predicate WellFormedSnapshot(bs: seq<Bucket>) {
    forall i :: 0 <= i < |bs| ==> WellFormedBucket(bs[i])
  }

  /** The first position of key `k`, if any. */
  function IndexOf(m: ContributorMap, k: string): (r: Option<nat>)
    ensures r.Some? ==> r.value < |m| && m[r.value].0 == k
    ensures r.Some? ==> forall j :: 0 <= j < r.value ==> m[j].0 != k
    ensures r.None? ==> forall j :: 0 <= j < |m| ==> m[j].0 != k
  {
    if m == [] then None
    else if m[0].0 == k then Some(0)
    else match IndexOf(m[1..], k)
      case None => None
      case Some(i) => Some(i + 1)
  }

  /** `m.get(k)`. */
  function Lookup(m: ContributorMap, k: string): Option<Entry> {
    match IndexOf(m, k)
    case None => None
    case Some(i) => Some(m[i].1)
  }

  /** `get_full_name`: the mapped display name, or the username itself. */
  function FullName(users: map<string, string>, u: string): (r: string)
    ensures u in users ==> r == users[u]
    ensures u !in users ==> r == u
  {
    if u in users then users[u] else u
  }

  /** The entry a new record is added to: the existing one, or the fresh
      `{count: 0, list: [], full_name: full}` the source creates. */
  function Base(m: ContributorMap, who: string, full: string): Entry {
    Lookup(m, who).GetOr(Entry(0, [], full))
  }

  /** Adding one record to one contributor (gather.py:474-486 and 602-630):
      create the entry if missing, append to its list, bump its count. */
  function Record(m: ContributorMap, who: string, full: string, a: Activity): (r: ContributorMap)
    ensures Lookup(r, who) == Some(Base(m, who, full).(count := Base(m, who, full).count + 1,
                                                        list := Base(m, who, full).list + [a]))
    ensures forall k :: k != who ==> Lookup(r, k) == Lookup(m, k)
    ensures WellFormedMap(m) ==> WellFormedMap(r)
    ensures |r| == |m| + (if Lookup(m, who).None? then 1 else 0)
    ensures forall j :: 0 <= j < |m| ==> r[j].0 == m[j].0
  {
    match IndexOf(m, who)
    case Some(i) =>
      var r := m[i := (who, m[i].1.(count := m[i].1.count + 1, list := m[i].1.list + [a]))];
      assert forall k :: IndexOf(r, k) == IndexOf(m, k) by {
        forall k ensures IndexOf(r, k) == IndexOf(m, k) {
          IndexOfSameKeys(m, r, k);
        }
      }
      r
    case None =>
      var r := m + [(who, Entry(0, [], full))];
      var r' := r[|m| := (who, r[|m|].1.(count := 1, list := [a]))];
      assert r'[..|m|] == m;
      forall k ensures IndexOf(r', k) == (if k == who then Some(|m|) else IndexOf(m, k)) {
        IndexOfExtend(m, r', k);
      }
      assert Lookup(r', who) == Some(Entry(1, [a], full));
      assert Base(m, who, full) == Entry(0, [], full);
      assert [] + [a] == [a];
      r'
  }

  lemma {:induction false} IndexOfSameKeys(m: ContributorMap, r: ContributorMap, k: string)
    requires |m| == |r| && forall j :: 0 <= j < |m| ==> m[j].0 == r[j].0
    ensures IndexOf(r, k) == IndexOf(m, k)
  {
    if m != [] && m[0].0 != k {
      IndexOfSameKeys(m[1..], r[1..], k);
    }
  }

  lemma {:induction false} IndexOfExtend(m: ContributorMap, r: ContributorMap, k: string)
    requires |r| == |m| + 1 && r[..|m|] == m
    requires forall j :: 0 <= j < |m| ==> m[j].0 != r[|m|].0
    ensures IndexOf(r, k) == if k == r[|m|].0 then Some(|m|) else IndexOf(m, k)
  {
    if m != [] && m[0].0 != k {
      assert r[1..][..|m| - 1] == m[1..];
      IndexOfExtend(m[1..], r[1..], k);
    }
  }

  /** Setting up the entry without adding a record: what an issue leaves
      behind when reading it fails after its author's entry was created
      (gather.py:602-608 before 621). */
  function Touch(m: ContributorMap, who: string, full: string): (r: ContributorMap)
    ensures Lookup(r, who) == Some(Base(m, who, full))
    ensures forall k :: k != who ==> Lookup(r, k) == Lookup(m, k)
    ensures WellFormedMap(m) ==> WellFormedMap(r)
  {
    if Lookup(m, who).Some? then m
    else
      var r := m + [(who, Entry(0, [], full))];
      assert r[..|m|] == m;
      forall k ensures IndexOf(r, k) == (if k == who then Some(|m|) else IndexOf(m, k)) {
        IndexOfExtend(m, r, k);
      }
      r
  }

  /** `n` copies of `a`. */
  function Repeat(a: Activity, n: nat): (r: seq<Activity>)
    ensures |r| == n && forall j :: 0 <= j < n ==> r[j] == a
  {
    if n == 0 then [] else Repeat(a, n - 1) + [a]
  }

  /** How many times `k` occurs in `names`. */
  function Occurrences(names: seq<string>, k: string): nat {
    if names == [] then 0 else (if names[0] == k then 1 else 0) + Occurrences(names[1..], k)
  }

  /** The fan-out loop `for author_name in coauthors + [author_t]` (gather.py:470-486):
      every listed name, in order and with repetitions, gets the same record. */
  function RecordAll(m: ContributorMap, names: seq<string>, a: Activity, users: map<string, string>)
    : ContributorMap
    decreases |names|
  {
    if names == [] then m
    else RecordAll(Record(m, names[0], FullName(users, names[0]), a), names[1..], a, users)
  }

  /** Entry `b` after `n` more copies of `a`. */
  function Grown(b: Entry, a: Activity, n: nat): Entry {
    Entry(b.count + n, b.list + Repeat(a, n), b.fullName)
  }

  /** Fan-out: a contributor named `n` times gets exactly `n` copies of the
      record and `n` more in its count; its full name is the one it already
      had, or the mapped name when the entry is new; every other contributor
      is untouched. */
  lemma {:induction false} RecordAllEffect(m: ContributorMap, names: seq<string>, a: Activity,
                                           users: map<string, string>, k: string)
    ensures Lookup(RecordAll(m, names, a, users), k)
              == if Occurrences(names, k) == 0 then Lookup(m, k)
                 else Some(Grown(Base(m, k, FullName(users, k)), a, Occurrences(names, k)))
    decreases |names|
  {
    if names != [] {
      var m1 := Record(m, names[0], FullName(users, names[0]), a);
      assert RecordAll(m, names, a, users) == RecordAll(m1, names[1..], a, users);
      RecordAllEffect(m1, names[1..], a, users, k);
      RecordOne(m, names[0], FullName(users, names[0]), a, k);
      if names[0] == k {
        RecordFirst(m, names, a, users, k);
      } else {
        assert Occurrences(names, k) == Occurrences(names[1..], k);
      }
    }
  }

  /** The induction step of `RecordAllEffect` when the first name is `k`. */
  lemma RecordFirst(m: ContributorMap, names: seq<string>, a: Activity, users: map<string, string>, k: string)
    requires names != [] && names[0] == k
    requires var m1 := Record(m, k, FullName(users, k), a);
      Lookup(RecordAll(m1, names[1..], a, users), k)
        == if Occurrences(names[1..], k) == 0 then Lookup(m1, k)
           else Some(Grown(Base(m1, k, FullName(users, k)), a, Occurrences(names[1..], k)))
    requires var m1 := Record(m, k, FullName(users, k), a);
      && Lookup(m1, k) == Some(Grown(Base(m, k, FullName(users, k)), a, 1))
      && Base(m1, k, FullName(users, k)) == Grown(Base(m, k, FullName(users, k)), a, 1)
    ensures Lookup(RecordAll(Record(m, k, FullName(users, k), a), names[1..], a, users), k)
              == Some(Grown(Base(m, k, FullName(users, k)), a, Occurrences(names, k)))
  {
    var n1 := Occurrences(names[1..], k);
    assert Occurrences(names, k) == n1 + 1;
    GrownTwice(Base(m, k, FullName(users, k)), a, n1);
  }

  lemma RecordOne(m: ContributorMap, who: string, full: string, a: Activity, k: string)
    ensures Lookup(Record(m, who, full, a), k)
         == if k == who then Some(Grown(Base(m, who, full), a, 1)) else Lookup(m, k)
    ensures k == who ==> Base(Record(m, who, full, a), k, full) == Grown(Base(m, who, full), a, 1)
    ensures k != who ==> Base(Record(m, who, full, a), k, full) == Base(m, k, full)
  {
    assert Repeat(a, 1) == [a] by { assert Repeat(a, 0) + [a] == [a]; }
  }

  lemma GrownTwice(b: Entry, a: Activity, n: nat)
    ensures Grown(Grown(b, a, 1), a, n) == Grown(b, a, n + 1)
  {
    assert Repeat(a, 1) == [a] by { assert Repeat(a, 0) + [a] == [a]; }
    RepeatCons(a, n);
    assert b.list + [a] + Repeat(a, n) == b.list + Repeat(a, n + 1);
  }

  lemma {:induction false} RepeatCons(a: Activity, n: nat)
    ensures [a] + Repeat(a, n) == Repeat(a, n + 1)
  {
    if n > 0 {
      RepeatCons(a, n - 1);
    }
  }

  lemma {:induction false} RecordAllWellFormed(m: ContributorMap, names: seq<string>, a: Activity,
                                               users: map<string, string>)
    requires WellFormedMap(m)
    ensures WellFormedMap(RecordAll(m, names, a, users))
    decreases |names|
  {
    if names != [] {
      RecordAllWellFormed(Record(m, names[0], FullName(users, names[0]), a), names[1..], a, users);
    }
  }

  /** Bucket choice (gather.py:468-469, 597-598): the first milestone strictly
      later than `t`, or none at all. */
  function FirstLater(t: int, ms: seq<int>): (r: Option<nat>)
    ensures r.Some? ==> r.value < |ms| && t < ms[r.value]
    ensures r.Some? ==> forall j :: 0 <= j < r.value ==> ms[j] <= t
    ensures r.None? <==> forall j :: 0 <= j < |ms| ==> ms[j] <= t
  {
    if ms == [] then None
    else if t < ms[0] then Some(0)
    else match FirstLater(t, ms[1..])
      case None => None
      case Some(i) => Some(i + 1)
  }

  /** Appends the record for every name to the bucket `FirstLater` picks. */
  function Place(bs: seq<Bucket>, ms: seq<int>, c: Category, t: int, names: seq<string>,
                 a: Activity, users: map<string, string>): seq<Bucket>
    requires |bs| == |ms|
  {
    match FirstLater(t, ms)
    case None => bs
    case Some(i) => bs[i := bs[i].Put(c, RecordAll(bs[i].Get(c), names, a, users))]
  }

  /** An item lands in exactly one bucket, the earliest milestone after it,
      and only in category `c` there; an item at or after every milestone
      changes nothing. Well-formedness is kept. */
  lemma PlaceEffect(bs: seq<Bucket>, ms: seq<int>, c: Category, t: int, names: seq<string>,
                    a: Activity, users: map<string, string>)
    requires |bs| == |ms|
    ensures var r := Place(bs, ms, c, t, names, a, users);
      && |r| == |bs|
      && ((forall j :: 0 <= j < |ms| ==> ms[j] <= t) ==> r == bs)
      && forall i :: 0 <= i < |bs| ==>
           if t < ms[i] && forall j :: 0 <= j < i ==> ms[j] <= t
           then r[i] == bs[i].Put(c, RecordAll(bs[i].Get(c), names, a, users))
           else r[i] == bs[i]
    ensures WellFormedSnapshot(bs) ==> WellFormedSnapshot(Place(bs, ms, c, t, names, a, users))
  {
    var r := Place(bs, ms, c, t, names, a, users);
    match FirstLater(t, ms)
    case None =>
    case Some(i) =>
      forall i' | 0 <= i' < |bs| && t < ms[i'] && forall j :: 0 <= j < i' ==> ms[j] <= t
        ensures i' == i
      {
      }
      if WellFormedSnapshot(bs) {
        RecordAllWellFormed(bs[i].Get(c), names, a, users);
      }
  }

  /** Where a placed item lands, contributor by contributor: in bucket `i`
      (the one `FirstLater` picks) contributor `k` of category `c` grows by
      one record per time it is named, the other categories and the other
      buckets are untouched. */
  lemma PlaceLands(bs: seq<Bucket>, ms: seq<int>, c: Category, t: int, names: seq<string>,
                   a: Activity, users: map<string, string>, i: nat, k: string)
    requires |bs| == |ms| && FirstLater(t, ms) == Some(i)
    ensures var r := Place(bs, ms, c, t, names, a, users);
      && |r| == |bs|
      && (forall j :: 0 <= j < |bs| && j != i ==> r[j] == bs[j])
      && (forall d :: d != c ==> r[i].Get(d) == bs[i].Get(d))
      && Lookup(r[i].Get(c), k)
         == if Occurrences(names, k) == 0 then Lookup(bs[i].Get(c), k)
            else Some(Grown(Base(bs[i].Get(c), k, FullName(users, k)), a, Occurrences(names, k)))
  {
    RecordAllEffect(bs[i].Get(c), names, a, users, k);
  }
}
