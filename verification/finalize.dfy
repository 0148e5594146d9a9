/** `finalize_repo_data` (gather.py:648-678): every activity list sorted by
    date (a stable sort) and every contributor map ordered by name. */
module Finalize {
  import opened Snapshot
  import opened StableSort
  import Text

  /** `key=lambda x: x['date']` */
  const ByDate: (Activity, Activity) -> bool := (a: Activity, b: Activity) => a.date <= b.date

  /** `sorted(d.items())`: dict keys are distinct, so items compare by key. */
  const ByName: ((string, Entry), (string, Entry)) -> bool :=
    (p: (string, Entry), q: (string, Entry)) => Text.StrLe(p.0, q.0)

  lemma ByDateTotal()
    ensures TotalPreorder(ByDate)
  {
  }

  lemma ByNameTotal()
    ensures TotalPreorder(ByName)
  {
    forall p: (string, Entry), q: (string, Entry) ensures ByName(p, q) || ByName(q, p) {
      Text.StrLeTotal(p.0, q.0);
    }
    forall p: (string, Entry), q: (string, Entry), r: (string, Entry)
      | ByName(p, q) && ByName(q, r) ensures ByName(p, r)
    {
      Text.StrLeTransitive(p.0, q.0, r.0);
    }
  }

  /** The entry with its list sorted by date. */
  function SortEntry(e: Entry): Entry {
    e.(list := Sort(e.list, ByDate))
  }

  function SortLists(m: ContributorMap): (r: ContributorMap)
    ensures |r| == |m|
    ensures forall i :: 0 <= i < |m| ==> r[i] == (m[i].0, SortEntry(m[i].1))
  {
    seq(|m|, i requires 0 <= i < |m| => (m[i].0, SortEntry(m[i].1)))
  }

  function FinalizeMap(m: ContributorMap): ContributorMap {
    Sort(SortLists(m), ByName)
  }

  function FinalizeBucket(b: Bucket): Bucket {
    Bucket(b.date, FinalizeMap(b.commits), FinalizeMap(b.issues), FinalizeMap(b.prs))
  }

  function FinalizeSnapshot(bs: seq<Bucket>): (r: seq<Bucket>)
    ensures |r| == |bs|
  {
    seq(|bs|, i requires 0 <= i < |bs| => FinalizeBucket(bs[i]))
  }

  /** The loop `for ms in ms_l:` finalising one bucket after the other. */
  method FinalizeEach(bs: seq<Bucket>) returns (r: seq<Bucket>)
    ensures r == FinalizeSnapshot(bs)
  {
    r := bs;
    var i := 0;
    while i < |r|
      invariant 0 <= i <= |r| == |bs|
      invariant forall j :: 0 <= j < i ==> r[j] == FinalizeBucket(bs[j])
      invariant forall j :: i <= j < |r| ==> r[j] == bs[j]
    {
      r := r[i := FinalizeBucket(r[i])];
      i := i + 1;
    }
  }

  /** The shape of a finalised map: names in order, every list in date order. */
  predicate FinalizedMap(m: ContributorMap) {
    Sorted(m, ByName) && forall i :: 0 <= i < |m| ==> Sorted(m[i].1.list, ByDate)
  }

  predicate FinalizedBucket(b: Bucket) {
    FinalizedMap(b.commits) && FinalizedMap(b.issues) && FinalizedMap(b.prs)
  }

  /** The same contributor with the same count, full name and records,
      whatever their order. */
  predicate SameEntry(p: (string, Entry), q: (string, Entry)) {
    && p.0 == q.0 && p.1.count == q.1.count && p.1.fullName == q.1.fullName
    && multiset(p.1.list) == multiset(q.1.list)
  }

  /** Some entry of `r` is the same as `x`. */
  predicate HasSameEntry(r: ContributorMap, x: (string, Entry)) {
    exists j :: 0 <= j < |r| && SameEntry(r[j], x)
  }

  /** Finalising a map orders it, and changes nothing else: each contributor
      keeps its count, its full name and the multiset of its records, and
      well-formedness is kept. */
  lemma FinalizeMapEffect(m: ContributorMap)
    ensures FinalizedMap(FinalizeMap(m))
    ensures |FinalizeMap(m)| == |m|
    ensures forall i :: 0 <= i < |m| ==> HasSameEntry(FinalizeMap(m), m[i])
    ensures forall j :: 0 <= j < |m| ==> HasSameEntry(m, FinalizeMap(m)[j])
    ensures WellFormedMap(m) ==> WellFormedMap(FinalizeMap(m))
  {
    FinalizeMapMembers(m);
    FinalizeMapOrdered(m);
    if WellFormedMap(m) {
      FinalizeMapWellFormed(m);
    }
  }

  lemma FinalizeMapMembers(m: ContributorMap)
    ensures |FinalizeMap(m)| == |m|
    ensures forall i :: 0 <= i < |m| ==> HasSameEntry(FinalizeMap(m), m[i])
    ensures forall j :: 0 <= j < |m| ==> HasSameEntry(m, FinalizeMap(m)[j])
  {
    SortListsEffect(m);
    PermutedEntries(m, SortLists(m), FinalizeMap(m));
  }

  lemma FinalizeMapOrdered(m: ContributorMap)
    ensures FinalizedMap(FinalizeMap(m))
  {
    ByNameTotal();
    SortSorted(SortLists(m), ByName);
    SortListsEffect(m);
    PermutedEntries(m, SortLists(m), FinalizeMap(m));
  }

  lemma FinalizeMapWellFormed(m: ContributorMap)
    requires WellFormedMap(m)
    ensures WellFormedMap(FinalizeMap(m))
  {
    SortListsEffect(m);
    PermutedEntries(m, SortLists(m), FinalizeMap(m));
  }

  /** `r` a permutation of `s`, whose entries match those of `m` one by one. */
  lemma PermutedEntries(m: ContributorMap, s: ContributorMap, r: ContributorMap)
    requires |s| == |m| && multiset(r) == multiset(s)
    requires forall i :: 0 <= i < |m| ==> SameEntry(s[i], m[i])
    ensures |r| == |m|
    ensures forall i :: 0 <= i < |m| ==> HasSameEntry(r, m[i])
    ensures forall j :: 0 <= j < |m| ==> HasSameEntry(m, r[j])
    ensures (forall i :: 0 <= i < |s| ==> Sorted(s[i].1.list, ByDate)) ==>
              forall j :: 0 <= j < |r| ==> Sorted(r[j].1.list, ByDate)
    ensures WellFormedMap(m) ==> WellFormedMap(r)
  {
    assert |r| == |multiset(r)| == |s|;
    PermutationMembers(s, r);
    PermutedSame(m, s, r);
    if forall i :: 0 <= i < |s| ==> Sorted(s[i].1.list, ByDate) {
      forall j | 0 <= j < |r| ensures Sorted(r[j].1.list, ByDate) {
        var i :| 0 <= i < |s| && r[j] == s[i];
      }
    }
    if WellFormedMap(m) {
      PermutedWellFormed(m, s, r);
    }
  }

  lemma PermutedSame(m: ContributorMap, s: ContributorMap, r: ContributorMap)
    requires |s| == |m| == |r|
    requires forall i :: 0 <= i < |m| ==> SameEntry(s[i], m[i])
    requires forall j :: 0 <= j < |r| ==> r[j] in s
    requires forall i :: 0 <= i < |s| ==> s[i] in r
    ensures forall i :: 0 <= i < |m| ==> HasSameEntry(r, m[i])
    ensures forall j :: 0 <= j < |m| ==> HasSameEntry(m, r[j])
  {
    forall i | 0 <= i < |m| ensures HasSameEntry(r, m[i]) {
      var j :| 0 <= j < |r| && r[j] == s[i];
      assert SameEntry(r[j], m[i]);
    }
    forall j | 0 <= j < |m| ensures HasSameEntry(m, r[j]) {
      var i :| 0 <= i < |s| && r[j] == s[i];
      assert SameEntry(m[i], r[j]);
    }
  }

  lemma PermutedWellFormed(m: ContributorMap, s: ContributorMap, r: ContributorMap)
    requires |s| == |m| == |r| && multiset(r) == multiset(s)
    requires forall i :: 0 <= i < |m| ==> SameEntry(s[i], m[i])
    requires forall j :: 0 <= j < |r| ==> r[j] in s
    requires WellFormedMap(m)
    ensures WellFormedMap(r)
  {
    assert DistinctKeys(s) by {
      forall a, b | 0 <= a < b < |s| ensures s[a].0 != s[b].0 {
        assert s[a].0 == m[a].0 && s[b].0 == m[b].0;
      }
    }
    forall j, k | 0 <= j < k < |r| ensures r[j].0 != r[k].0 {
      DistinctPositions(s, r, j, k);
      var i1 :| 0 <= i1 < |s| && r[j] == s[i1];
      var i2 :| 0 <= i2 < |s| && r[k] == s[i2];
    }
    forall j | 0 <= j < |r| ensures r[j].1.count == |r[j].1.list| {
      var i :| 0 <= i < |s| && r[j] == s[i];
      assert |s[i].1.list| == |multiset(s[i].1.list)| == |multiset(m[i].1.list)| == |m[i].1.list|;
    }
  }

  lemma SortListsEffect(m: ContributorMap)
    ensures forall i :: 0 <= i < |m| ==> SameEntry(SortLists(m)[i], m[i])
    ensures forall i :: 0 <= i < |m| ==> Sorted(SortLists(m)[i].1.list, ByDate)
  {
    ByDateTotal();
    forall i | 0 <= i < |m|
      ensures SameEntry(SortLists(m)[i], m[i]) && Sorted(SortLists(m)[i].1.list, ByDate)
    {
      SortSorted(m[i].1.list, ByDate);
    }
  }

  lemma PermutationMembers<T>(s: seq<T>, r: seq<T>)
    requires multiset(r) == multiset(s)
    ensures forall j :: 0 <= j < |r| ==> r[j] in s
    ensures forall i :: 0 <= i < |s| ==> s[i] in r
  {
    forall j | 0 <= j < |r| ensures r[j] in s {
      assert r[j] in multiset(s);
    }
    forall i | 0 <= i < |s| ensures s[i] in r {
      assert s[i] in multiset(r);
    }
  }

  lemma {:induction false} AtMostOnce(s: ContributorMap, x: (string, Entry))
    requires DistinctKeys(s)
    ensures multiset(s)[x] <= 1
  {
    if s != [] {
      assert s == [s[0]] + s[1..];
      AtMostOnce(s[1..], x);
      if x == s[0] {
        assert x !in s[1..];
      }
    }
  }

  lemma CountPair<T>(r: seq<T>, j: nat, k: nat)
    requires j < k < |r|
    ensures multiset(r)[r[j]] >= if r[j] == r[k] then 2 else 1
  {
    assert r == r[..k] + [r[k]] + r[k + 1..];
    assert r[j] in r[..k];
  }

  /** In a permutation of a sequence with distinct keys, two positions hold
      different elements. */
  lemma DistinctPositions(s: ContributorMap, r: ContributorMap, j: nat, k: nat)
    requires DistinctKeys(s) && multiset(r) == multiset(s)
    requires j < k < |r|
    ensures r[j] != r[k]
  {
    AtMostOnce(s, r[j]);
    CountPair(r, j, k);
  }

  /** A finalised map is its own finalisation. */
  lemma FinalizeFixpoint(m: ContributorMap)
    requires FinalizedMap(m)
    ensures FinalizeMap(m) == m
  {
    forall i | 0 <= i < |m| ensures SortEntry(m[i].1) == m[i].1 {
      SortOfSorted(m[i].1.list, ByDate);
    }
    assert SortLists(m) == m;
    SortOfSorted(m, ByName);
  }

  /** Finalising twice gives the same snapshot as finalising once. */
  lemma FinalizeIdempotent(bs: seq<Bucket>)
    ensures FinalizeSnapshot(FinalizeSnapshot(bs)) == FinalizeSnapshot(bs)
  {
    forall i | 0 <= i < |bs|
      ensures FinalizeBucket(FinalizeBucket(bs[i])) == FinalizeBucket(bs[i])
    {
      var b := bs[i];
      FinalizeMapEffect(b.commits);
      FinalizeMapEffect(b.issues);
      FinalizeMapEffect(b.prs);
      FinalizeFixpoint(FinalizeMap(b.commits));
      FinalizeFixpoint(FinalizeMap(b.issues));
      FinalizeFixpoint(FinalizeMap(b.prs));
    }
  }

  /** The finalised snapshot keeps the invariant count == len(list). */
  lemma FinalizeWellFormed(bs: seq<Bucket>)
    requires WellFormedSnapshot(bs)
    ensures WellFormedSnapshot(FinalizeSnapshot(bs))
    ensures forall i :: 0 <= i < |bs| ==> FinalizedBucket(FinalizeSnapshot(bs)[i])
  {
    forall i | 0 <= i < |bs|
      ensures WellFormedBucket(FinalizeBucket(bs[i])) && FinalizedBucket(FinalizeBucket(bs[i]))
    {
      FinalizeMapEffect(bs[i].commits);
      FinalizeMapEffect(bs[i].issues);
      FinalizeMapEffect(bs[i].prs);
    }
  }
}
