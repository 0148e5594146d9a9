/**
 * The per-contributor CSV rows that gather.py writes after a repository is
 * gathered (`write_per_user_csvs`, gather.py:680-762): `sanitize` turns a
 * contributor name into a file name, and `aggregate` groups the rows of one
 * category by contributor, across all milestones.
 */
module PerUser {
  import opened Wrappers
  import opened Snapshot
  import Text

  // ----- sanitize -----

  /** The characters `[A-Za-z0-9_.-]` a file name keeps. */
  predicate Allowed(c: char)
  {
    ('A' <= c <= 'Z') || ('a' <= c <= 'z') || ('0' <= c <= '9') || c == '_' || c == '.' || c == '-'
  }

  predicate AllAllowed(s: string)
  {
    forall i :: 0 <= i < |s| ==> Allowed(s[i])
  }

  /** Replaces each maximal run of characters outside the allowed set by one `_`;
      `inRun` says the previous character already started such a run. */
  function SanitizeFrom(s: string, inRun: bool): (r: string)
    ensures AllAllowed(r)
    ensures |r| <= |s|
    decreases |s|
  {
    if s == [] then []
    else if Allowed(s[0]) then [s[0]] + SanitizeFrom(s[1..], false)
    else if inRun then SanitizeFrom(s[1..], true)
    else ['_'] + SanitizeFrom(s[1..], true)
  }

  function Sanitize(name: string): (r: string)
  {
    SanitizeFrom(name, false)
  }

  /** A sanitized name holds only allowed characters, is no longer than the
      name, and is empty only for the empty name. */
  lemma SanitizeEffect(name: string)
    ensures AllAllowed(Sanitize(name))
    ensures |Sanitize(name)| <= |name|
    ensures Sanitize(name) == [] <==> name == []
  {
  }

  /** A name made of allowed characters only is its own file name. */
  lemma {:induction false} SanitizeKeepsAllowed(s: string, inRun: bool)
    requires AllAllowed(s)
    ensures SanitizeFrom(s, inRun) == s
    decreases |s|
  {
    if s != [] {
      SanitizeKeepsAllowed(s[1..], false);
    }
  }

  lemma SanitizeIdempotent(name: string)
    ensures Sanitize(Sanitize(name)) == Sanitize(name)
  {
    SanitizeKeepsAllowed(Sanitize(name), false);
  }

  /** Distinct contributors can share a file name: `a b` and `a  b` both become `a_b`. */
  lemma SanitizeMerges()
    ensures Sanitize("a b") == Sanitize("a  b") == "a_b"
  {
    assert "a b"[1..] == " b" && " b"[1..] == "b";
    assert "a  b"[1..] == "  b" && "  b"[1..] == " b";
  }

  // ----- aggregate -----

  /** The category-specific columns of a row. */
  datatype Extra =
    | CommitColumns(message: string, diffFiles: int, diffTotal: int)
    | IssueColumns(title: string, desc: string, labels: string, assignees: string,
                   assigneeFullNames: string, state: string, commentsCount: nat,
                   prDiff: Option<Diff>)

  datatype Row = Row(repository: string, author: string, authorFullName: string,
                     date: int, milestoneIndex: nat, milestoneDate: int, link: string,
                     extra: Extra)

  /** `{full_name, rows}` for one contributor. */
  datatype Rows = Rows(fullName: string, rows: seq<Row>)

  type Aggregate = seq<(string, Rows)>

  /** One `(author, data)` pair of one milestone, with the milestone's 1-based index and date. */
  datatype Contribution = Contribution(index: nat, msDate: int, author: string, entry: Entry)

  /** `item.get('diff', {})` with `files`/`total` defaulting to 0. */
  function DiffOf(a: Activity): Diff
  {
    match a
    case CommitActivity(_, _, _, d) => d
    case IssueActivity(_, _, _, _, _, _, _, _, _, pd) => pd.GetOr(Diff(0, 0))
  }

  function ExtraOf(c: Category, a: Activity): (e: Extra)
    ensures c == Commits <==> e.CommitColumns?
    ensures e.CommitColumns? ==> e.diffFiles == DiffOf(a).files && e.diffTotal == DiffOf(a).total
    ensures e.IssueColumns? ==> (e.prDiff.Some? <==> c == Prs)
    ensures e.IssueColumns? && a.IssueActivity? ==>
      e.labels == Text.Join(a.labels, ';') && e.commentsCount == |a.comments|
  {
    if c == Commits then
      CommitColumns(if a.CommitActivity? then a.message else "", DiffOf(a).files, DiffOf(a).total)
    else if a.IssueActivity? then
      IssueColumns(a.title, a.desc, Text.Join(a.labels, ';'), Text.Join(a.assignees, ';'),
                   Text.Join(a.assigneeFullNames, ';'), a.state, |a.comments|,
                   if c == Prs then Some(DiffOf(a)) else None)
    else
      IssueColumns("", "", "", "", "", "", 0, if c == Prs then Some(DiffOf(a)) else None)
  }

  function RowOf(repo: string, c: Category, ct: Contribution, a: Activity): (r: Row)
    ensures r.author == ct.author && r.authorFullName == ct.entry.fullName
    ensures r.milestoneIndex == ct.index && r.milestoneDate == ct.msDate
    ensures r.repository == repo && r.date == a.date && r.link == a.link
  {
    Row(repo, ct.author, ct.entry.fullName, a.date, ct.index, ct.msDate, a.link, ExtraOf(c, a))
  }

  /** The rows of the first `n` items of a contribution's list, in list order. */
  function ItemRows(repo: string, c: Category, ct: Contribution, n: nat): (r: seq<Row>)
    requires n <= |ct.entry.list|
    ensures |r| == n
  {
    if n == 0 then [] else ItemRows(repo, c, ct, n - 1) + [RowOf(repo, c, ct, ct.entry.list[n - 1])]
  }

  /** The pairs of one contributor map, in key order. */
  function MapContribs(m: ContributorMap, index: nat, msDate: int): (r: seq<Contribution>)
    ensures |r| == |m|
  {
    if m == [] then []
    else MapContribs(m[..|m| - 1], index, msDate) + [Contribution(index, msDate, m[|m| - 1].0, m[|m| - 1].1)]
  }

  /** Every `(author, data)` pair of the category, milestone by milestone. */
  function Contribs(bs: seq<Bucket>, c: Category): seq<Contribution>
  {
    if bs == [] then []
    else Contribs(bs[..|bs| - 1], c) + MapContribs(bs[|bs| - 1].Get(c), |bs|, bs[|bs| - 1].date)
  }

  function Keys(agg: Aggregate): (r: seq<string>)
    ensures |r| == |agg|
  {
    if agg == [] then [] else [agg[0].0] + Keys(agg[1..])
  }

  lemma {:induction false} KeysAppend(agg: Aggregate, p: (string, Rows))
    ensures Keys(agg + [p]) == Keys(agg) + [p.0]
    decreases |agg|
  {
    if agg == [] {
      assert [p][1..] == [];
    } else {
      assert (agg + [p])[1..] == agg[1..] + [p];
      KeysAppend(agg[1..], p);
    }
  }

  /** `if author not in agg: agg[author] = {full_name, rows: []}`. */
  function Register(agg: Aggregate, author: string, fullName: string): Aggregate
  {
    if author in Keys(agg) then agg else agg + [(author, Rows(fullName, []))]
  }

  /** `agg[author]['rows'] += rows`. */
  function Extend(agg: Aggregate, author: string, rows: seq<Row>): (r: Aggregate)
    ensures Keys(r) == Keys(agg)
  {
    if agg == [] then []
    else if agg[0].0 == author then [(author, Rows(agg[0].1.fullName, agg[0].1.rows + rows))] + agg[1..]
    else [agg[0]] + Extend(agg[1..], author, rows)
  }

  function AddContribution(repo: string, c: Category, agg: Aggregate, ct: Contribution): Aggregate
  {
    Extend(Register(agg, ct.author, ct.entry.fullName), ct.author,
           ItemRows(repo, c, ct, |ct.entry.list|))
  }

  function AggregateOf(repo: string, c: Category, cs: seq<Contribution>): Aggregate
  {
    if cs == [] then []
    else AddContribution(repo, c, AggregateOf(repo, c, cs[..|cs| - 1]), cs[|cs| - 1])
  }

  /** What `aggregate(category)` returns for the snapshot `bs` of repository `repo`. */
  function AggregateSpec(repo: string, c: Category, bs: seq<Bucket>): Aggregate
  {
    AggregateOf(repo, c, Contribs(bs, c))
  }

  // ----- the loops of the source -----

  lemma ExtendNothing(agg: Aggregate, author: string)
    ensures Extend(agg, author, []) == agg
  {
    if agg != [] {
      assert agg[0].1.rows + [] == agg[0].1.rows;
    }
  }

  lemma {:induction false} ExtendTwice(agg: Aggregate, author: string, r1: seq<Row>, r2: seq<Row>)
    ensures Extend(Extend(agg, author, r1), author, r2) == Extend(agg, author, r1 + r2)
    decreases |agg|
  {
    if agg == [] {
    } else if agg[0].0 == author {
      var rows := agg[0].1.rows;
      assert (rows + r1) + r2 == rows + (r1 + r2);
    } else {
      ExtendTwice(agg[1..], author, r1, r2);
      var once := Extend(agg, author, r1);
      assert once == [agg[0]] + Extend(agg[1..], author, r1);
      assert once[0] == agg[0] && once[1..] == Extend(agg[1..], author, r1);
    }
  }

  /** Appends the rows of one contributor's list, one item at a time. */
  method AppendRows(repo: string, c: Category, agg0: Aggregate, ct: Contribution) returns (agg: Aggregate)
    ensures agg == AddContribution(repo, c, agg0, ct)
  {
    var registered := Register(agg0, ct.author, ct.entry.fullName);
    agg := registered;
    ExtendNothing(registered, ct.author);
    var lst := ct.entry.list;
    for t := 0 to |lst|
      invariant agg == Extend(registered, ct.author, ItemRows(repo, c, ct, t))
    {
      var row := RowOf(repo, c, ct, lst[t]);
      ExtendTwice(registered, ct.author, ItemRows(repo, c, ct, t), [row]);
      agg := Extend(agg, ct.author, [row]);
    }
  }

  lemma ContribsStep(bs: seq<Bucket>, c: Category, idx: nat)
    requires idx < |bs|
    ensures Contribs(bs[..idx + 1], c) == Contribs(bs[..idx], c) + MapContribs(bs[idx].Get(c), idx + 1, bs[idx].date)
  {
    assert bs[..idx + 1][..idx] == bs[..idx];
  }

  lemma MapContribsStep(m: ContributorMap, index: nat, msDate: int, j: nat)
    requires j < |m|
    ensures MapContribs(m[..j + 1], index, msDate) == MapContribs(m[..j], index, msDate) + [Contribution(index, msDate, m[j].0, m[j].1)]
  {
    assert m[..j + 1][..j] == m[..j];
  }

  lemma AggregateStep(repo: string, c: Category, cs: seq<Contribution>, ct: Contribution)
    ensures AggregateOf(repo, c, cs + [ct]) == AddContribution(repo, c, AggregateOf(repo, c, cs), ct)
  {
    assert (cs + [ct])[..|cs|] == cs;
  }

  lemma MilestoneStep(repo: string, c: Category, done: seq<Contribution>, m: ContributorMap,
                      index: nat, msDate: int, j: nat)
    requires j < |m|
    ensures AggregateOf(repo, c, done + MapContribs(m[..j + 1], index, msDate)) ==
      AddContribution(repo, c, AggregateOf(repo, c, done + MapContribs(m[..j], index, msDate)),
                      Contribution(index, msDate, m[j].0, m[j].1))
  {
    var ct := Contribution(index, msDate, m[j].0, m[j].1);
    var sofar := done + MapContribs(m[..j], index, msDate);
    MapContribsStep(m, index, msDate, j);
    assert done + MapContribs(m[..j + 1], index, msDate) == sofar + [ct];
    AggregateStep(repo, c, sofar, ct);
  }

  /** The contributor loop of one milestone. */
  method AggregateMilestone(repo: string, c: Category, agg0: Aggregate, ghost done: seq<Contribution>,
                            m: ContributorMap, index: nat, msDate: int) returns (agg: Aggregate)
    requires agg0 == AggregateOf(repo, c, done)
    ensures agg == AggregateOf(repo, c, done + MapContribs(m, index, msDate))
  {
    agg := agg0;
    ghost var sofar := done;
    assert m[..0] == [] && done + [] == done;
    for j := 0 to |m|
      invariant sofar == done + MapContribs(m[..j], index, msDate)
      invariant agg == AggregateOf(repo, c, sofar)
    {
      var ct := Contribution(index, msDate, m[j].0, m[j].1);
      MilestoneStep(repo, c, done, m, index, msDate, j);
      agg := AppendRows(repo, c, agg, ct);
      sofar := done + MapContribs(m[..j + 1], index, msDate);
    }
    assert m[..|m|] == m;
  }

  /** The source's `aggregate`: milestones in order, then contributors in key order, then list items. */
  method AggregateRows(repo: string, c: Category, bs: seq<Bucket>) returns (agg: Aggregate)
    ensures agg == AggregateSpec(repo, c, bs)
  {
    agg := [];
    for idx := 0 to |bs|
      invariant agg == AggregateOf(repo, c, Contribs(bs[..idx], c))
    {
      agg := AggregateMilestone(repo, c, agg, Contribs(bs[..idx], c), bs[idx].Get(c), idx + 1, bs[idx].date);
      ContribsStep(bs, c, idx);
    }
    assert bs[..|bs|] == bs;
  }

  // ----- properties -----

  /** The authors of a sequence of contributions, in first-appearance order, without repeats. */
  function FirstAppearance(cs: seq<Contribution>): seq<string>
  {
    if cs == [] then []
    else
      var prior := FirstAppearance(cs[..|cs| - 1]);
      if cs[|cs| - 1].author in prior then prior else prior + [cs[|cs| - 1].author]
  }

  /** The rows of author `a` in contribution order, then list order. */
  function RowsFor(repo: string, c: Category, cs: seq<Contribution>, a: string): seq<Row>
  {
    if cs == [] then []
    else
      var ct := cs[|cs| - 1];
      RowsFor(repo, c, cs[..|cs| - 1], a) + (if ct.author == a then ItemRows(repo, c, ct, |ct.entry.list|) else [])
  }

  /** The full name recorded with the first contribution of `a`. */
  function FirstFullName(cs: seq<Contribution>, a: string): Option<string>
  {
    if cs == [] then None
    else
      var prior := FirstFullName(cs[..|cs| - 1], a);
      if prior.None? && cs[|cs| - 1].author == a then Some(cs[|cs| - 1].entry.fullName) else prior
  }

  function Find(agg: Aggregate, a: string): Option<Rows>
  {
    if agg == [] then None else if agg[0].0 == a then Some(agg[0].1) else Find(agg[1..], a)
  }

  lemma {:induction false} FindRegister(agg: Aggregate, author: string, full: string, a: string)
    ensures Find(Register(agg, author, full), a) ==
      if a == author && Find(agg, a).None? then Some(Rows(full, [])) else Find(agg, a)
    ensures author in Keys(agg) <==> Find(agg, author).Some?
    decreases |agg|
  {
    if agg != [] {
      FindRegister(agg[1..], author, full, a);
      assert Keys(agg) == [agg[0].0] + Keys(agg[1..]);
      if author !in Keys(agg) {
        assert (agg + [(author, Rows(full, []))])[1..] == agg[1..] + [(author, Rows(full, []))];
      }
    } else {
      assert [(author, Rows(full, []))][1..] == [];
    }
  }

  lemma {:induction false} FindExtend(agg: Aggregate, author: string, rows: seq<Row>, a: string)
    ensures Find(Extend(agg, author, rows), a) ==
      if a == author && Find(agg, a).Some? then Some(Rows(Find(agg, a).value.fullName, Find(agg, a).value.rows + rows))
      else Find(agg, a)
    decreases |agg|
  {
    if agg != [] && agg[0].0 != author {
      FindExtend(agg[1..], author, rows, a);
    }
  }

  /**
   * Each author's entry in the aggregate holds the full name of that
   * author's first contribution and all of that author's rows, milestone
   * by milestone and in list order; an author with no contribution has no
   * entry.
   */
  lemma {:induction false} AggregateFind(repo: string, c: Category, cs: seq<Contribution>, a: string)
    ensures var f := Find(AggregateOf(repo, c, cs), a);
      (f.Some? <==> FirstFullName(cs, a).Some?) &&
      (f.Some? ==> f.value == Rows(FirstFullName(cs, a).value, RowsFor(repo, c, cs, a))) &&
      (f.None? ==> RowsFor(repo, c, cs, a) == [])
    decreases |cs|
  {
    if cs != [] {
      var prior := cs[..|cs| - 1];
      var ct := cs[|cs| - 1];
      AggregateFind(repo, c, prior, a);
      var agg := AggregateOf(repo, c, prior);
      var reg := Register(agg, ct.author, ct.entry.fullName);
      FindRegister(agg, ct.author, ct.entry.fullName, a);
      FindExtend(reg, ct.author, ItemRows(repo, c, ct, |ct.entry.list|), a);
      if ct.author == a && Find(agg, a).None? {
        assert [] + ItemRows(repo, c, ct, |ct.entry.list|) == ItemRows(repo, c, ct, |ct.entry.list|);
      }
    }
  }

  /** The aggregate's keys are the authors in order of first appearance, each once. */
  lemma {:induction false} AggregateKeys(repo: string, c: Category, cs: seq<Contribution>)
    ensures Keys(AggregateOf(repo, c, cs)) == FirstAppearance(cs)
    decreases |cs|
  {
    if cs != [] {
      var prior := cs[..|cs| - 1];
      var ct := cs[|cs| - 1];
      AggregateKeys(repo, c, prior);
      var agg := AggregateOf(repo, c, prior);
      if ct.author !in Keys(agg) {
        KeysAppend(agg, (ct.author, Rows(ct.entry.fullName, [])));
      }
    }
  }

  lemma {:induction false} FirstAppearanceDistinct(cs: seq<Contribution>)
    ensures var k := FirstAppearance(cs);
      (forall i, j :: 0 <= i < j < |k| ==> k[i] != k[j]) &&
      (forall ct :: ct in cs ==> ct.author in k)
    decreases |cs|
  {
    if cs != [] {
      var prior := cs[..|cs| - 1];
      FirstAppearanceDistinct(prior);
      assert cs == prior + [cs[|cs| - 1]];
    }
  }

  /** Every row an author receives carries that author, a 1-based milestone index and that milestone's date. */
  lemma {:induction false} ContribsIndexed(bs: seq<Bucket>, c: Category)
    ensures forall ct :: ct in Contribs(bs, c) ==>
      1 <= ct.index <= |bs| && ct.msDate == bs[ct.index - 1].date
    decreases |bs|
  {
    if bs != [] {
      var n := |bs|;
      var front := bs[..n - 1];
      var earlier := Contribs(front, c);
      var last := MapContribs(bs[n - 1].Get(c), n, bs[n - 1].date);
      assert Contribs(bs, c) == earlier + last;
      ContribsIndexed(front, c);
      MapContribsIndexed(bs[n - 1].Get(c), n, bs[n - 1].date);
      forall ct: Contribution | ct in earlier + last
        ensures 1 <= ct.index <= n && ct.msDate == bs[ct.index - 1].date
      {
        if ct in earlier {
          assert front[ct.index - 1] == bs[ct.index - 1];
        } else {
          assert ct in last;
        }
      }
    }
  }

  lemma {:induction false} MapContribsIndexed(m: ContributorMap, index: nat, msDate: int)
    ensures forall ct :: ct in MapContribs(m, index, msDate) ==> ct.index == index && ct.msDate == msDate
    decreases |m|
  {
    if m != [] {
      MapContribsIndexed(m[..|m| - 1], index, msDate);
    }
  }

  /** Every contributor key of every milestone is an aggregate key, even one whose list is empty. */
  lemma EveryContributorListed(repo: string, c: Category, bs: seq<Bucket>, idx: nat, j: nat)
    requires idx < |bs| && j < |bs[idx].Get(c)|
    ensures bs[idx].Get(c)[j].0 in Keys(AggregateSpec(repo, c, bs))
  {
    var m := bs[idx].Get(c);
    var ct := Contribution(idx + 1, bs[idx].date, m[j].0, m[j].1);
    MapContribsMember(m, idx + 1, bs[idx].date, j);
    ContribsMember(bs, c, idx);
    AggregateKeys(repo, c, Contribs(bs, c));
    FirstAppearanceDistinct(Contribs(bs, c));
  }

  lemma {:induction false} MapContribsMember(m: ContributorMap, index: nat, msDate: int, j: nat)
    requires j < |m|
    ensures Contribution(index, msDate, m[j].0, m[j].1) in MapContribs(m, index, msDate)
    decreases |m|
  {
    if j < |m| - 1 {
      MapContribsMember(m[..|m| - 1], index, msDate, j);
    }
  }

  lemma {:induction false} ContribsMember(bs: seq<Bucket>, c: Category, idx: nat)
    requires idx < |bs|
    ensures forall ct :: ct in MapContribs(bs[idx].Get(c), idx + 1, bs[idx].date) ==> ct in Contribs(bs, c)
    decreases |bs|
  {
    if idx < |bs| - 1 {
      ContribsMember(bs[..|bs| - 1], c, idx);
      assert bs[..|bs| - 1][idx] == bs[idx];
    }
  }
}
