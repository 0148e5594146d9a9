/**
 * The JSON-to-table converter (json_to_csv_converter.py): the snapshot file
 * that gather.py writes is read back as loose JSON, in which any field may
 * be missing, and each category is flattened into one row per recorded
 * item; per-file and per-directory row counts are reported.
 */
module Flatten {
  import opened Wrappers
  import opened Snapshot

  /** `{files, total}` as read back; either key may be missing. */
  datatype JDiff = JDiff(files: Option<int>, total: Option<int>)

  /** One item of a `list`, as read back. `comments` is the length of its `comments` list. */
  datatype JItem = JItem(message: Option<string>, date: Option<string>, link: Option<string>,
                         title: Option<string>, desc: Option<string>, state: Option<string>,
                         labels: Option<seq<string>>, assignees: Option<seq<string>>,
                         assigneeFullNames: Option<seq<string>>, comments: Option<nat>,
                         diff: Option<JDiff>)

  /** `{count, list, full_name}` as read back (`count` is not read). */
  datatype JUser = JUser(fullName: Option<string>, list: Option<seq<JItem>>)

  type JMap = seq<(string, JUser)>

  /** One milestone entry of the file. */
  datatype JEntry = JEntry(date: Option<string>, commits: Option<JMap>, issues: Option<JMap>, prs: Option<JMap>)

  datatype Columns =
    | CommitColumns(message: string, filesChanged: int, totalChanges: int)
    | IssueColumns(title: string, description: string, state: string, labels: string,
                   assignees: string, assigneeFullNames: string, commentCount: nat)
    | PrColumns(title: string, description: string, state: string, labels: string,
                assignees: string, assigneeFullNames: string, filesChanged: int,
                totalChanges: int, commentCount: nat)

  datatype FlatRow = FlatRow(snapshotDate: string, username: string, authorFullName: string,
                             date: string, link: string, columns: Columns)

  /** `', '.join(parts)`. */
  function CommaJoin(parts: seq<string>): (r: string)
    ensures parts == [] ==> r == ""
    ensures |parts| == 1 ==> r == parts[0]
  {
    if parts == [] then "" else if |parts| == 1 then parts[0] else parts[0] + ", " + CommaJoin(parts[1..])
  }

  function CategoryMap(e: JEntry, c: Category): JMap
  {
    match c
    case Commits => e.commits.GetOr([])
    case Issues => e.issues.GetOr([])
    case Prs => e.prs.GetOr([])
  }

  function Files(it: JItem): int
  {
    if it.diff.Some? then it.diff.value.files.GetOr(0) else 0
  }

  function Total(it: JItem): int
  {
    if it.diff.Some? then it.diff.value.total.GetOr(0) else 0
  }

  /** The category's columns of one item, every missing text field read as `''` and every missing number as 0. */
  function ColumnsOf(c: Category, it: JItem): (r: Columns)
    ensures c == Commits <==> r.CommitColumns?
    ensures c == Prs <==> r.PrColumns?
    ensures r.CommitColumns? ==> r.message == it.message.GetOr("")
    ensures !r.CommitColumns? ==>
      (r.title == it.title.GetOr("") && r.description == it.desc.GetOr("") &&
       r.state == it.state.GetOr("") && r.commentCount == it.comments.GetOr(0))
    ensures !r.IssueColumns? ==> (it.diff.None? ==> r.filesChanged == 0 && r.totalChanges == 0)
  {
    match c
    case Commits => CommitColumns(it.message.GetOr(""), Files(it), Total(it))
    case Issues =>
      IssueColumns(it.title.GetOr(""), it.desc.GetOr(""), it.state.GetOr(""),
                   CommaJoin(it.labels.GetOr([])), CommaJoin(it.assignees.GetOr([])),
                   CommaJoin(it.assigneeFullNames.GetOr([])), it.comments.GetOr(0))
    case Prs =>
      PrColumns(it.title.GetOr(""), it.desc.GetOr(""), it.state.GetOr(""),
                CommaJoin(it.labels.GetOr([])), CommaJoin(it.assignees.GetOr([])),
                CommaJoin(it.assigneeFullNames.GetOr([])), Files(it), Total(it), it.comments.GetOr(0))
  }

  function RowOf(c: Category, snapshot: string, username: string, u: JUser, it: JItem): (r: FlatRow)
    ensures r.snapshotDate == snapshot && r.username == username
    ensures r.authorFullName == u.fullName.GetOr("")
    ensures r.date == it.date.GetOr("") && r.link == it.link.GetOr("")
  {
    FlatRow(snapshot, username, u.fullName.GetOr(""), it.date.GetOr(""), it.link.GetOr(""), ColumnsOf(c, it))
  }

  /** The rows of the first `n` items of one contributor's list. */
  function ItemsRows(c: Category, snapshot: string, username: string, u: JUser, n: nat): (r: seq<FlatRow>)
    requires n <= |u.list.GetOr([])|
    ensures |r| == n
  {
    if n == 0 then []
    else ItemsRows(c, snapshot, username, u, n - 1) + [RowOf(c, snapshot, username, u, u.list.GetOr([])[n - 1])]
  }

  function UserRows(c: Category, snapshot: string, username: string, u: JUser): seq<FlatRow>
  {
    ItemsRows(c, snapshot, username, u, |u.list.GetOr([])|)
  }

  function MapRows(c: Category, snapshot: string, m: JMap): seq<FlatRow>
  {
    if m == [] then []
    else MapRows(c, snapshot, m[..|m| - 1]) + UserRows(c, snapshot, m[|m| - 1].0, m[|m| - 1].1)
  }

  function EntryRows(c: Category, e: JEntry): seq<FlatRow>
  {
    MapRows(c, e.date.GetOr(""), CategoryMap(e, c))
  }

  /** What `flatten_commits`, `flatten_issues` and `flatten_prs` return. */
  function FlattenSpec(data: seq<JEntry>, c: Category): seq<FlatRow>
  {
    if data == [] then [] else FlattenSpec(data[..|data| - 1], c) + EntryRows(c, data[|data| - 1])
  }

  // ----- the loops of the source -----

  lemma ItemsStep(c: Category, snapshot: string, username: string, u: JUser, t: nat)
    requires t < |u.list.GetOr([])|
    ensures ItemsRows(c, snapshot, username, u, t + 1)
      == ItemsRows(c, snapshot, username, u, t) + [RowOf(c, snapshot, username, u, u.list.GetOr([])[t])]
  {
  }

  lemma MapStep(c: Category, snapshot: string, m: JMap, j: nat)
    requires j < |m|
    ensures MapRows(c, snapshot, m[..j + 1]) == MapRows(c, snapshot, m[..j]) + UserRows(c, snapshot, m[j].0, m[j].1)
  {
    assert m[..j + 1][..j] == m[..j];
  }

  lemma DataStep(data: seq<JEntry>, c: Category, k: nat)
    requires k < |data|
    ensures FlattenSpec(data[..k + 1], c) == FlattenSpec(data[..k], c) + EntryRows(c, data[k])
  {
    assert data[..k + 1][..k] == data[..k];
  }

  lemma Regroup(a: seq<FlatRow>, b: seq<FlatRow>, x: FlatRow)
    ensures (a + b) + [x] == a + (b + [x])
  {
  }

  lemma RegroupRows(a: seq<FlatRow>, b: seq<FlatRow>, x: seq<FlatRow>)
    ensures (a + b) + x == a + (b + x)
  {
  }

  /** The innermost loop: one row per item of one contributor's list. */
  method AppendUser(c: Category, snapshot: string, username: string, u: JUser, rows0: seq<FlatRow>)
    returns (rows: seq<FlatRow>)
    ensures rows == rows0 + UserRows(c, snapshot, username, u)
  {
    rows := rows0;
    var lst := u.list.GetOr([]);
    for t := 0 to |lst|
      invariant rows == rows0 + ItemsRows(c, snapshot, username, u, t)
    {
      var row := RowOf(c, snapshot, username, u, lst[t]);
      ItemsStep(c, snapshot, username, u, t);
      Regroup(rows0, ItemsRows(c, snapshot, username, u, t), row);
      rows := rows + [row];
    }
  }

  /** The contributor loop of one milestone entry. */
  method AppendEntry(c: Category, e: JEntry, rows0: seq<FlatRow>) returns (rows: seq<FlatRow>)
    ensures rows == rows0 + EntryRows(c, e)
  {
    rows := rows0;
    var snapshot := e.date.GetOr("");
    var m := CategoryMap(e, c);
    assert m[..0] == [] && rows0 + [] == rows0;
    for j := 0 to |m|
      invariant rows == rows0 + MapRows(c, snapshot, m[..j])
    {
      MapStep(c, snapshot, m, j);
      RegroupRows(rows0, MapRows(c, snapshot, m[..j]), UserRows(c, snapshot, m[j].0, m[j].1));
      rows := AppendUser(c, snapshot, m[j].0, m[j].1, rows);
    }
    assert m[..|m|] == m;
  }

  /** `flatten_commits` / `flatten_issues` / `flatten_prs`: entries in file order, contributors in key order, items in list order. */
  method FlattenRows(data: seq<JEntry>, c: Category) returns (rows: seq<FlatRow>)
    ensures rows == FlattenSpec(data, c)
  {
    rows := [];
    for k := 0 to |data|
      invariant rows == FlattenSpec(data[..k], c)
    {
      DataStep(data, c, k);
      rows := AppendEntry(c, data[k], rows);
    }
    assert data[..|data|] == data;
  }

  // ----- properties of the flattened rows -----

  /** The number of items of a contributor map, missing lists counting as empty. */
  function MapItems(m: JMap): nat
  {
    if m == [] then 0 else MapItems(m[..|m| - 1]) + |m[|m| - 1].1.list.GetOr([])|
  }

  function ItemCount(data: seq<JEntry>, c: Category): nat
  {
    if data == [] then 0 else ItemCount(data[..|data| - 1], c) + MapItems(CategoryMap(data[|data| - 1], c))
  }

  lemma {:induction false} MapRowsCount(c: Category, snapshot: string, m: JMap)
    ensures |MapRows(c, snapshot, m)| == MapItems(m)
    decreases |m|
  {
    if m != [] {
      MapRowsCount(c, snapshot, m[..|m| - 1]);
    }
  }

  /** Exactly one row per recorded item: the row count is the sum of the list lengths. */
  lemma {:induction false} FlattenCount(data: seq<JEntry>, c: Category)
    ensures |FlattenSpec(data, c)| == ItemCount(data, c)
    decreases |data|
  {
    if data != [] {
      FlattenCount(data[..|data| - 1], c);
      MapRowsCount(c, data[|data| - 1].date.GetOr(""), CategoryMap(data[|data| - 1], c));
    }
  }

  /** Flattening two files' worth of entries gives the two row tables one after the other. */
  lemma {:induction false} FlattenAppend(a: seq<JEntry>, b: seq<JEntry>, c: Category)
    ensures FlattenSpec(a + b, c) == FlattenSpec(a, c) + FlattenSpec(b, c)
    decreases |b|
  {
    if b == [] {
      assert a + b == a;
    } else {
      var last := b[|b| - 1];
      var front := b[..|b| - 1];
      assert (a + b)[..|a + b| - 1] == a + front;
      FlattenAppend(a, front, c);
      RegroupRows(FlattenSpec(a, c), FlattenSpec(front, c), EntryRows(c, last));
    }
  }

  lemma {:induction false} MapRowsOrigin(c: Category, snapshot: string, m: JMap)
    ensures forall r :: r in MapRows(c, snapshot, m) ==>
      r.snapshotDate == snapshot && exists j :: 0 <= j < |m| && m[j].0 == r.username
    decreases |m|
  {
    if m != [] {
      var front := m[..|m| - 1];
      var last := m[|m| - 1];
      MapRowsOrigin(c, snapshot, front);
      UserRowsOrigin(c, snapshot, last.0, last.1, |last.1.list.GetOr([])|);
      forall r | r in MapRows(c, snapshot, m)
        ensures r.snapshotDate == snapshot && exists j :: 0 <= j < |m| && m[j].0 == r.username
      {
        if r in MapRows(c, snapshot, front) {
          var j :| 0 <= j < |front| && front[j].0 == r.username;
          assert m[j] == front[j];
        } else {
          assert m[|m| - 1].0 == r.username;
        }
      }
    }
  }

  lemma {:induction false} UserRowsOrigin(c: Category, snapshot: string, username: string, u: JUser, n: nat)
    requires n <= |u.list.GetOr([])|
    ensures forall r :: r in ItemsRows(c, snapshot, username, u, n) ==> r.snapshotDate == snapshot && r.username == username
    decreases n
  {
    if n > 0 {
      UserRowsOrigin(c, snapshot, username, u, n - 1);
    }
  }

  /** Every row names its entry's date as `snapshot_date` and a contributor key of that entry. */
  lemma {:induction false} FlattenOrigin(data: seq<JEntry>, c: Category)
    ensures forall r :: r in FlattenSpec(data, c) ==>
      exists k :: (0 <= k < |data| &&
        r.snapshotDate == data[k].date.GetOr("") && r.username in Keys(CategoryMap(data[k], c)))
    decreases |data|
  {
    if data != [] {
      var front := data[..|data| - 1];
      var last := data[|data| - 1];
      FlattenOrigin(front, c);
      MapRowsOrigin(c, last.date.GetOr(""), CategoryMap(last, c));
      forall r | r in FlattenSpec(data, c)
        ensures exists k :: (0 <= k < |data| &&
          r.snapshotDate == data[k].date.GetOr("") && r.username in Keys(CategoryMap(data[k], c)))
      {
        if r in FlattenSpec(front, c) {
          var k :| 0 <= k < |front| &&
            r.snapshotDate == front[k].date.GetOr("") && r.username in Keys(CategoryMap(front[k], c));
          assert data[k] == front[k];
        } else {
          var m := CategoryMap(last, c);
          var j :| 0 <= j < |m| && m[j].0 == r.username;
          KeysHas(m, j);
          assert data[|data| - 1] == last;
        }
      }
    }
  }

  function Keys(m: JMap): seq<string>
  {
    if m == [] then [] else [m[0].0] + Keys(m[1..])
  }

  lemma {:induction false} KeysHas(m: JMap, j: nat)
    requires j < |m|
    ensures m[j].0 in Keys(m)
    decreases j
  {
    if j > 0 {
      KeysHas(m[1..], j - 1);
    }
  }

  // ----- the file gather.py writes, read back -----

  /** The JSON form of one recorded activity; `fmt` renders a date as the file's date string. */
  function DumpItem(a: Activity, fmt: int -> string): JItem
  {
    match a
    case CommitActivity(message, date, link, d) =>
      JItem(Some(message), Some(fmt(date)), Some(link), None, None, None, None, None, None, None,
            Some(JDiff(Some(d.files), Some(d.total))))
    case IssueActivity(title, desc, date, labels, assignees, assigneeFullNames, link, state, comments, pd) =>
      JItem(None, Some(fmt(date)), Some(link), Some(title), Some(desc), Some(state), Some(labels),
            Some(assignees), Some(assigneeFullNames), Some(|comments|),
            if pd.Some? then Some(JDiff(Some(pd.value.files), Some(pd.value.total))) else None)
  }

  function DumpList(l: seq<Activity>, fmt: int -> string): (r: seq<JItem>)
    ensures |r| == |l|
  {
    if l == [] then [] else DumpList(l[..|l| - 1], fmt) + [DumpItem(l[|l| - 1], fmt)]
  }

  function DumpMap(m: ContributorMap, fmt: int -> string): (r: JMap)
    ensures |r| == |m|
    ensures forall j :: 0 <= j < |m| ==> r[j].0 == m[j].0 && r[j].1.list == Some(DumpList(m[j].1.list, fmt))
  {
    if m == [] then []
    else DumpMap(m[..|m| - 1], fmt) + [(m[|m| - 1].0, JUser(Some(m[|m| - 1].1.fullName), Some(DumpList(m[|m| - 1].1.list, fmt))))]
  }

  /** The snapshot list `ms_l` as gather.py dumps it. */
  function Dump(bs: seq<Bucket>, fmt: int -> string): (r: seq<JEntry>)
    ensures |r| == |bs|
  {
    if bs == [] then []
    else
      var b := bs[|bs| - 1];
      Dump(bs[..|bs| - 1], fmt) + [JEntry(Some(fmt(b.date)), Some(DumpMap(b.commits, fmt)),
                                          Some(DumpMap(b.issues, fmt)), Some(DumpMap(b.prs, fmt)))]
  }

  /** The sum of the `count` fields of one category. */
  function CountSum(bs: seq<Bucket>, c: Category): int
  {
    if bs == [] then 0 else CountSum(bs[..|bs| - 1], c) + MapCount(bs[|bs| - 1].Get(c))
  }

  function MapCount(m: ContributorMap): int
  {
    if m == [] then 0 else MapCount(m[..|m| - 1]) + m[|m| - 1].1.count
  }

  lemma {:induction false} MapCountItems(m: ContributorMap, fmt: int -> string)
    requires forall i :: 0 <= i < |m| ==> m[i].1.count == |m[i].1.list|
    ensures MapItems(DumpMap(m, fmt)) == MapCount(m)
    decreases |m|
  {
    if m != [] {
      var front := m[..|m| - 1];
      MapCountItems(front, fmt);
      assert DumpMap(m, fmt)[..|m| - 1] == DumpMap(front, fmt);
    }
  }

  /**
   * For a snapshot that keeps its invariant, the converter emits exactly as
   * many rows per category as the `count` fields add up to.
   */
  lemma {:induction false} FlattenCountsRecords(bs: seq<Bucket>, c: Category, fmt: int -> string)
    requires WellFormedSnapshot(bs)
    ensures |FlattenSpec(Dump(bs, fmt), c)| == CountSum(bs, c)
    decreases |bs|
  {
    FlattenCount(Dump(bs, fmt), c);
    DumpItemCount(bs, c, fmt);
  }

  lemma {:induction false} DumpItemCount(bs: seq<Bucket>, c: Category, fmt: int -> string)
    requires WellFormedSnapshot(bs)
    ensures ItemCount(Dump(bs, fmt), c) == CountSum(bs, c)
    decreases |bs|
  {
    if bs != [] {
      var front := bs[..|bs| - 1];
      var b := bs[|bs| - 1];
      var d := Dump(bs, fmt);
      calc {
        ItemCount(d, c);
        ItemCount(d[..|d| - 1], c) + MapItems(CategoryMap(d[|d| - 1], c));
        { assert d[..|d| - 1] == Dump(front, fmt);
          assert WellFormedSnapshot(front);
          DumpItemCount(front, c, fmt); }
        CountSum(front, c) + MapItems(CategoryMap(d[|d| - 1], c));
        { assert CategoryMap(d[|d| - 1], c) == DumpMap(b.Get(c), fmt);
          assert WellFormedBucket(b);
          MapCountItems(b.Get(c), fmt); }
        CountSum(front, c) + MapCount(b.Get(c));
        CountSum(bs, c);
      }
    }
  }

  // ----- process_file and process_directory -----

  datatype Counts = Counts(commits: int, issues: int, prs: int)

  /**
   * `process_file`: `loaded` is the parsed file, None when reading or parsing
   * failed; `saved` says whether writing the tables succeeded. Any failure
   * reports no rows.
   */
  function ProcessFile(loaded: Option<seq<JEntry>>, saved: bool): (r: Counts)
    ensures loaded.None? || !saved ==> r == Counts(0, 0, 0)
    ensures loaded.Some? && saved ==> r == Counts(ItemCount(loaded.value, Commits),
      ItemCount(loaded.value, Issues), ItemCount(loaded.value, Prs))
  {
    if loaded.Some? && saved then
      FlattenCount(loaded.value, Commits);
      FlattenCount(loaded.value, Issues);
      FlattenCount(loaded.value, Prs);
      Counts(|FlattenSpec(loaded.value, Commits)|, |FlattenSpec(loaded.value, Issues)|,
             |FlattenSpec(loaded.value, Prs)|)
    else Counts(0, 0, 0)
  }

  datatype FileOutcome = FileOutcome(loaded: Option<seq<JEntry>>, saved: bool)

  function Add(a: Counts, b: Counts): Counts
  {
    Counts(a.commits + b.commits, a.issues + b.issues, a.prs + b.prs)
  }

  function TotalsSpec(files: seq<FileOutcome>): Counts
  {
    if files == [] then Counts(0, 0, 0)
    else Add(TotalsSpec(files[..|files| - 1]), ProcessFile(files[|files| - 1].loaded, files[|files| - 1].saved))
  }

  /** The files `process_directory` works on: None when the one file asked for does not exist. */
  method ProcessDirectory(files: Option<seq<FileOutcome>>) returns (totals: Option<Counts>)
    ensures files.None? <==> totals.None?
    ensures files.Some? ==> totals == Some(TotalsSpec(files.value))
  {
    if files.None? {
      return None;
    }
    var fs := files.value;
    var t := Counts(0, 0, 0);
    for k := 0 to |fs|
      invariant t == TotalsSpec(fs[..k])
    {
      assert fs[..k + 1][..k] == fs[..k];
      t := Add(t, ProcessFile(fs[k].loaded, fs[k].saved));
    }
    assert fs[..|fs|] == fs;
    return Some(t);
  }

  /** The totals add up per file: processing two batches of files gives the sums of their totals. */
  lemma {:induction false} TotalsAppend(a: seq<FileOutcome>, b: seq<FileOutcome>)
    ensures TotalsSpec(a + b) == Add(TotalsSpec(a), TotalsSpec(b))
    decreases |b|
  {
    if b == [] {
      assert a + b == a;
    } else {
      var front := b[..|b| - 1];
      var last := b[|b| - 1];
      assert (a + b)[..|a + b| - 1] == a + front;
      assert (a + b)[|a + b| - 1] == last;
      TotalsAppend(a, front);
      var p := ProcessFile(last.loaded, last.saved);
      assert TotalsSpec(a + b) == Add(TotalsSpec(a + front), p);
      assert TotalsSpec(b) == Add(TotalsSpec(front), p);
    }
  }

  /** The totals never go negative, and a batch in which every file fails reports no rows at all. */
  lemma {:induction false} TotalsCountItems(files: seq<FileOutcome>)
    ensures var t := TotalsSpec(files); t.commits >= 0 && t.issues >= 0 && t.prs >= 0
    ensures (forall k :: 0 <= k < |files| ==> files[k].loaded.None? || !files[k].saved) ==>
      TotalsSpec(files) == Counts(0, 0, 0)
    decreases |files|
  {
    if files != [] {
      TotalsCountItems(files[..|files| - 1]);
    }
  }
}
