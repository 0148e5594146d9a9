/**
 * The repository list of `repos.json` and its normalisation into
 * `owner/repo` entries (gather.py:823-875). The configuration is the JSON
 * value already loaded: a flat list, an object with organisation groups,
 * an object naming one repository, or any other shape.
 */
module RepoConfig {
  import opened Wrappers

  /** The string-valued keys of a dictionary entry; a missing key is None. */
  datatype RepoFields = RepoFields(repo: Option<string>, full: Option<string>,
                                   name: Option<string>, branch: Option<string>)

  /** One element of a repository list. */
  datatype RepoItem = RepoName(name: string) | RepoDict(fields: RepoFields) | RepoOther

  /** The value of one organisation: a list, or anything else. */
  datatype OrgGroup = GroupList(items: seq<RepoItem>) | GroupOther

  /** The value under `orgs` or `organizations`: a dictionary in key order, or anything else. */
  datatype OrgsValue = OrgDict(groups: seq<(string, OrgGroup)>) | OrgsOther

  datatype ReposConfig =
    | FlatList(items: seq<RepoItem>)
    | Object(orgs: Option<OrgsValue>, organizations: Option<OrgsValue>, single: RepoFields)
    | OtherShape

  datatype RepoEntry = RepoEntry(repo: string, branch: Option<string>)

  /** Python truthiness of an optional string. */
  predicate Truthy(o: Option<string>)
  {
    o.Some? && o.value != ""
  }

  /** Python's `a or b`: the first operand when it is truthy, otherwise the second. */
  function Or(a: Option<string>, b: Option<string>): (r: Option<string>)
    ensures Truthy(r) <==> Truthy(a) || Truthy(b)
    ensures Truthy(a) ==> r == a
    ensures !Truthy(a) ==> r == b
  {
    if Truthy(a) then a else b
  }

  predicate HasSlash(s: string)
  {
    '/' in s
  }

  /** The entry a flat-list element contributes (keys tried: repo, full, name). */
  function FlatEntry(item: RepoItem): seq<RepoEntry>
  {
    match item
    case RepoName(s) => [RepoEntry(s, None)]
    case RepoDict(f) =>
      var full := Or(f.repo, Or(f.full, f.name));
      if Truthy(full) && HasSlash(full.value) then [RepoEntry(full.value, f.branch)] else []
    case RepoOther => []
  }

  function FlatEntries(items: seq<RepoItem>): (r: seq<RepoEntry>)
    ensures |r| <= |items|
  {
    if |items| == 0 then [] else FlatEntry(items[0]) + FlatEntries(items[1..])
  }

  /** The entry an element of organisation `owner` contributes (keys tried: repo, name, full). */
  function OrgEntry(owner: string, item: RepoItem): seq<RepoEntry>
  {
    match item
    case RepoName(s) => [RepoEntry(owner + "/" + s, None)]
    case RepoDict(f) =>
      var raw := Or(f.repo, Or(f.name, f.full));
      if Truthy(raw) && HasSlash(raw.value) then [RepoEntry(raw.value, f.branch)]
      else if Truthy(raw) then [RepoEntry(owner + "/" + raw.value, f.branch)]
      else []
    case RepoOther => []
  }

  function OrgEntries(owner: string, items: seq<RepoItem>): (r: seq<RepoEntry>)
    ensures |r| <= |items|
  {
    if |items| == 0 then [] else OrgEntry(owner, items[0]) + OrgEntries(owner, items[1..])
  }

  /** The entries of one organisation; a value that is not a list gives none. */
  function GroupEntries(owner: string, g: OrgGroup): seq<RepoEntry>
  {
    match g
    case GroupList(items) => OrgEntries(owner, items)
    case GroupOther => []
  }

  function GroupsEntries(groups: seq<(string, OrgGroup)>): seq<RepoEntry>
  {
    if |groups| == 0 then [] else GroupEntries(groups[0].0, groups[0].1) + GroupsEntries(groups[1..])
  }

  /** The organisation dictionary in use: `orgs` when it is a dictionary, else `organizations` when it is one. */
  function ChosenOrgs(orgs: Option<OrgsValue>, organizations: Option<OrgsValue>): (r: Option<seq<(string, OrgGroup)>>)
    ensures r.Some? <==> (orgs.Some? && orgs.value.OrgDict?) || (organizations.Some? && organizations.value.OrgDict?)
    ensures orgs.Some? && orgs.value.OrgDict? ==> r == Some(orgs.value.groups)
  {
    if orgs.Some? && orgs.value.OrgDict? then Some(orgs.value.groups)
    else if organizations.Some? && organizations.value.OrgDict? then Some(organizations.value.groups)
    else None
  }

  /** The entry an object naming a single repository contributes. */
  function SingleEntry(f: RepoFields): seq<RepoEntry>
  {
    var full := Or(f.repo, Or(f.full, f.name));
    if Truthy(full) && HasSlash(full.value) then [RepoEntry(full.value, f.branch)] else []
  }

  /** What `normalize_repo_entries` returns for a configuration. */
  function Normalize(cfg: ReposConfig): seq<RepoEntry>
  {
    match cfg
    case FlatList(items) => FlatEntries(items)
    case Object(orgs, organizations, single) =>
      var chosen := ChosenOrgs(orgs, organizations);
      if chosen.Some? then GroupsEntries(chosen.value) else SingleEntry(single)
    case OtherShape => []
  }

  // ----- The loops of the source -----

  method NormalizeFlat(items: seq<RepoItem>) returns (entries: seq<RepoEntry>)
    ensures entries == FlatEntries(items)
  {
    entries := [];
    for k := 0 to |items|
      invariant entries + FlatEntries(items[k..]) == FlatEntries(items)
    {
      assert items[k..][1..] == items[k + 1..];
      var item := items[k];
      var add: seq<RepoEntry> := [];
      match item {
        case RepoName(s) =>
          add := [RepoEntry(s, None)];
        case RepoDict(f) =>
          var full := Or(f.repo, Or(f.full, f.name));
          if Truthy(full) && HasSlash(full.value) {
            add := [RepoEntry(full.value, f.branch)];
          }
        case RepoOther =>
      }
      assert add == FlatEntry(item);
      assert FlatEntries(items[k..]) == add + FlatEntries(items[k + 1..]);
      Regroup(entries, add, FlatEntries(items[k + 1..]));
      entries := entries + add;
    }
    assert items[|items|..] == [];
  }

  method NormalizeOrg(owner: string, items: seq<RepoItem>, entries0: seq<RepoEntry>) returns (entries: seq<RepoEntry>)
    ensures entries == entries0 + OrgEntries(owner, items)
  {
    entries := entries0;
    for k := 0 to |items|
      invariant entries + OrgEntries(owner, items[k..]) == entries0 + OrgEntries(owner, items)
    {
      assert items[k..][1..] == items[k + 1..];
      var item := items[k];
      var add: seq<RepoEntry> := [];
      match item {
        case RepoName(s) =>
          add := [RepoEntry(owner + "/" + s, None)];
        case RepoDict(f) =>
          var raw := Or(f.repo, Or(f.name, f.full));
          if Truthy(raw) && HasSlash(raw.value) {
            add := [RepoEntry(raw.value, f.branch)];
          } else if Truthy(raw) {
            add := [RepoEntry(owner + "/" + raw.value, f.branch)];
          }
        case RepoOther =>
      }
      assert add == OrgEntry(owner, item);
      assert OrgEntries(owner, items[k..]) == add + OrgEntries(owner, items[k + 1..]);
      Regroup(entries, add, OrgEntries(owner, items[k + 1..]));
      entries := entries + add;
    }
    assert items[|items|..] == [];
  }

  /** The organisation branch: each owner in key order, skipping values that are not lists. */
  method NormalizeGroups(groups: seq<(string, OrgGroup)>) returns (entries: seq<RepoEntry>)
    ensures entries == GroupsEntries(groups)
  {
    entries := [];
    for k := 0 to |groups|
      invariant entries + GroupsEntries(groups[k..]) == GroupsEntries(groups)
    {
      var owner := groups[k].0;
      var g := groups[k].1;
      GroupsStep(groups, k);
      ghost var before := entries;
      if g.GroupList? {
        entries := NormalizeOrg(owner, g.items, entries);
      } else {
        assert entries == before + [];
      }
      assert entries == before + GroupEntries(owner, g);
      Regroup(before, GroupEntries(owner, g), GroupsEntries(groups[k + 1..]));
    }
    assert groups[|groups|..] == [];
  }

  lemma GroupsStep(groups: seq<(string, OrgGroup)>, k: nat)
    requires k < |groups|
    ensures GroupsEntries(groups[k..]) == GroupEntries(groups[k].0, groups[k].1) + GroupsEntries(groups[k + 1..])
  {
    assert groups[k..][1..] == groups[k + 1..];
  }

  lemma Regroup(a: seq<RepoEntry>, b: seq<RepoEntry>, c: seq<RepoEntry>)
    ensures (a + b) + c == a + (b + c)
  {
  }

  /** The source's `normalize_repo_entries`, appending entry by entry. */
  method NormalizeRepoEntries(cfg: ReposConfig) returns (entries: seq<RepoEntry>)
    ensures entries == Normalize(cfg)
  {
    match cfg {
      case FlatList(items) =>
        entries := NormalizeFlat(items);
      case Object(orgsKey, organizations, single) =>
        var orgs := ChosenOrgs(orgsKey, organizations);
        if orgs.Some? {
          entries := NormalizeGroups(orgs.value);
        } else {
          var full := Or(single.repo, Or(single.full, single.name));
          if Truthy(full) && HasSlash(full.value) {
            entries := [RepoEntry(full.value, single.branch)];
          } else {
            entries := [];
          }
        }
      case OtherShape =>
        entries := [];
    }
  }

  // ----- Properties -----

  /** Normalising a flat list is compositional: the entries of a concatenation keep each part's order. */
  lemma {:induction false} FlatEntriesAppend(a: seq<RepoItem>, b: seq<RepoItem>)
    ensures FlatEntries(a + b) == FlatEntries(a) + FlatEntries(b)
    decreases |a|
  {
    if |a| == 0 {
      assert a + b == b;
    } else {
      assert (a + b)[1..] == a[1..] + b;
      FlatEntriesAppend(a[1..], b);
    }
  }

  lemma {:induction false} OrgEntriesAppend(owner: string, a: seq<RepoItem>, b: seq<RepoItem>)
    ensures OrgEntries(owner, a + b) == OrgEntries(owner, a) + OrgEntries(owner, b)
    decreases |a|
  {
    if |a| == 0 {
      assert a + b == b;
    } else {
      assert (a + b)[1..] == a[1..] + b;
      OrgEntriesAppend(owner, a[1..], b);
    }
  }

  lemma {:induction false} GroupsEntriesAppend(a: seq<(string, OrgGroup)>, b: seq<(string, OrgGroup)>)
    ensures GroupsEntries(a + b) == GroupsEntries(a) + GroupsEntries(b)
    decreases |a|
  {
    if |a| == 0 {
      assert a + b == b;
    } else {
      assert (a + b)[1..] == a[1..] + b;
      GroupsEntriesAppend(a[1..], b);
    }
  }

  /**
   * In a flat list every string is kept verbatim, with no branch, and at
   * the position of the entries before it.
   */
  lemma {:induction false} FlatKeepsNames(items: seq<RepoItem>, i: nat)
    requires i < |items| && items[i].RepoName?
    ensures var r := FlatEntries(items);
      var before := |FlatEntries(items[..i])|;
      before < |r| && r[before] == RepoEntry(items[i].name, None)
  {
    assert items == items[..i] + items[i..];
    FlatEntriesAppend(items[..i], items[i..]);
    assert items[i..][1..] == items[i + 1..];
  }

  /** A flat-list entry is either a string element or a name holding `/` taken from a dictionary element. */
  lemma {:induction false} FlatEntriesShape(items: seq<RepoItem>)
    ensures forall e :: e in FlatEntries(items) ==>
      (exists i :: 0 <= i < |items| && items[i] == RepoName(e.repo) && e.branch == None) ||
      (HasSlash(e.repo) && exists i :: 0 <= i < |items| && items[i].RepoDict? && items[i].fields.branch == e.branch)
    decreases |items|
  {
    if |items| > 0 {
      FlatEntriesShape(items[1..]);
      forall e | e in FlatEntries(items)
        ensures (exists i :: 0 <= i < |items| && items[i] == RepoName(e.repo) && e.branch == None) ||
          (HasSlash(e.repo) && exists i :: 0 <= i < |items| && items[i].RepoDict? && items[i].fields.branch == e.branch)
      {
        if e in FlatEntry(items[0]) {
        } else {
          assert e in FlatEntries(items[1..]);
          if exists i :: 0 <= i < |items[1..]| && items[1..][i] == RepoName(e.repo) && e.branch == None {
            var i :| 0 <= i < |items[1..]| && items[1..][i] == RepoName(e.repo) && e.branch == None;
            assert items[i + 1] == RepoName(e.repo);
          } else {
            var i :| 0 <= i < |items[1..]| && items[1..][i].RepoDict? && items[1..][i].fields.branch == e.branch;
            assert items[i + 1].RepoDict?;
          }
        }
      }
    }
  }

  /** Under an organisation every entry names an owner and a repository: it holds `/`. */
  lemma {:induction false} OrgEntriesHaveSlash(owner: string, items: seq<RepoItem>)
    ensures forall e :: e in OrgEntries(owner, items) ==> HasSlash(e.repo)
    decreases |items|
  {
    if |items| > 0 {
      OrgEntriesHaveSlash(owner, items[1..]);
      match items[0]
      case RepoName(s) =>
        assert (owner + "/" + s)[|owner|] == '/';
      case RepoDict(f) =>
        var raw := Or(f.repo, Or(f.name, f.full));
        if Truthy(raw) && !HasSlash(raw.value) {
          assert (owner + "/" + raw.value)[|owner|] == '/';
        }
      case RepoOther =>
    }
  }

  /**
   * A bare name under organisation `owner` becomes `owner/name`, in a string
   * or in a dictionary without `/`, while a dictionary name that already
   * holds `/` is kept as written.
   */
  lemma OrgPrefixes(owner: string, item: RepoItem)
    ensures item.RepoName? ==> OrgEntry(owner, item) == [RepoEntry(owner + "/" + item.name, None)]
    ensures item.RepoDict? && Truthy(item.fields.repo) ==>
      OrgEntry(owner, item) ==
        [RepoEntry(if HasSlash(item.fields.repo.value) then item.fields.repo.value
                   else owner + "/" + item.fields.repo.value, item.fields.branch)]
    ensures item.RepoDict? && !Truthy(item.fields.repo) && !Truthy(item.fields.name) && !Truthy(item.fields.full) ==>
      OrgEntry(owner, item) == []
  {
  }

  lemma {:induction false} GroupsEntriesHaveSlash(groups: seq<(string, OrgGroup)>)
    ensures forall e :: e in GroupsEntries(groups) ==> HasSlash(e.repo)
    decreases |groups|
  {
    if |groups| > 0 {
      GroupsEntriesHaveSlash(groups[1..]);
      if groups[0].1.GroupList? {
        OrgEntriesHaveSlash(groups[0].0, groups[0].1.items);
      }
    }
  }

  /** Every entry of an object configuration is of the form `owner/repo`. */
  lemma ObjectEntriesHaveSlash(cfg: ReposConfig)
    requires cfg.Object?
    ensures forall e :: e in Normalize(cfg) ==> HasSlash(e.repo)
  {
    var chosen := ChosenOrgs(cfg.orgs, cfg.organizations);
    if chosen.Some? {
      GroupsEntriesHaveSlash(chosen.value);
    }
  }

  /** An organisation whose value is not a list contributes nothing: removing it changes nothing. */
  lemma SkipsNonList(a: seq<(string, OrgGroup)>, owner: string, b: seq<(string, OrgGroup)>)
    ensures GroupsEntries(a + [(owner, GroupOther)] + b) == GroupsEntries(a + b)
  {
    var one := [(owner, GroupOther)];
    assert GroupsEntries(one) == [] by {
      assert one[1..] == [];
    }
    GroupsEntriesAppend(a + one, b);
    GroupsEntriesAppend(a, one);
    GroupsEntriesAppend(a, b);
    assert GroupsEntries(a + one) == GroupsEntries(a);
  }

  /**
   * Once an organisation dictionary is in use, `orgs` before `organizations`,
   * the single-repository keys of the object are ignored.
   */
  lemma OrgsOverrideSingle(cfg: ReposConfig, f: RepoFields)
    requires cfg.Object? && ChosenOrgs(cfg.orgs, cfg.organizations).Some?
    ensures Normalize(cfg.(single := f)) == Normalize(cfg)
    ensures cfg.orgs.Some? && cfg.orgs.value.OrgDict? ==>
      Normalize(cfg) == GroupsEntries(cfg.orgs.value.groups)
  {
  }

  /** Without an organisation dictionary an object yields at most its single `owner/repo`. */
  lemma SingleFallback(cfg: ReposConfig)
    requires cfg.Object? && ChosenOrgs(cfg.orgs, cfg.organizations).None?
    ensures |Normalize(cfg)| <= 1
    ensures forall e :: e in Normalize(cfg) ==> HasSlash(e.repo) && e.branch == cfg.single.branch
  {
  }
}
