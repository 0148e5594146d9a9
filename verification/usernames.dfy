/**
 * The username-map builder (csv_to_usernames_json.py): from a CSV export
 * with a GitHub-username column and first/last name columns, build the
 * `username -> full name` dict that gather.py reads as
 * `github-usernames.json`.
 */
module Usernames {
  import opened Wrappers
  import opened Text
  import opened Dicts

  /** `(name or "").strip().lower()`. */
  function NormalizeHeader(name: Option<string>): (r: string)
    ensures r == [] || (!IsSpace(r[0]) && !IsSpace(r[|r| - 1]))
    ensures |r| <= |name.GetOr("")|
    ensures name.None? || name == Some("") ==> r == ""
  {
    Lower(Strip(name.GetOr("")))
  }

  /** Normalising a normalised header changes nothing. */
  lemma NormalizeHeaderIdempotent(name: Option<string>)
    ensures NormalizeHeader(Some(NormalizeHeader(name))) == NormalizeHeader(name)
  {
    var s := Strip(name.GetOr(""));
    LowerKeepsTrimmed(s);
    LowerIdempotent(s);
  }

  /**
   * Two headers normalise alike exactly when they differ only in letter case
   * and surrounding whitespace, that is, when lower-casing and then stripping
   * makes them equal.
   */
  lemma NormalizeHeaderIgnoresCase(a: string, b: string)
    ensures NormalizeHeader(Some(a)) == NormalizeHeader(Some(b)) <==> Strip(Lower(a)) == Strip(Lower(b))
  {
    LowerStrip(a);
    LowerStrip(b);
  }

  /** `(normalize_header(h), h)` for every header, in header order. */
  function HeaderPairs(fieldnames: seq<string>): (r: seq<(string, string)>)
    ensures |r| == |fieldnames|
    ensures forall i :: 0 <= i < |r| ==> r[i] == (NormalizeHeader(Some(fieldnames[i])), fieldnames[i])
  {
    seq(|fieldnames|, i requires 0 <= i < |fieldnames| => (NormalizeHeader(Some(fieldnames[i])), fieldnames[i]))
  }

  /** The case-insensitive header map `{normalize_header(h): h for h in fieldnames}`. */
  function HeaderMap(fieldnames: seq<string>): seq<(string, string)>
  {
    DictOf(HeaderPairs(fieldnames))
  }

  /** The last header whose normalised form is `key`. */
  function LastHeader(fieldnames: seq<string>, key: string): (r: Option<string>)
    ensures r.Some? ==> r.value in fieldnames && NormalizeHeader(Some(r.value)) == key
  {
    if fieldnames == [] then None
    else if NormalizeHeader(Some(fieldnames[|fieldnames| - 1])) == key then Some(fieldnames[|fieldnames| - 1])
    else LastHeader(fieldnames[..|fieldnames| - 1], key)
  }

  lemma {:induction false} LastHeaderPairs(fieldnames: seq<string>, key: string)
    ensures LastValue(HeaderPairs(fieldnames), key) == LastHeader(fieldnames, key)
    decreases |fieldnames|
  {
    if fieldnames != [] {
      var front := fieldnames[..|fieldnames| - 1];
      LastHeaderPairs(front, key);
      assert HeaderPairs(fieldnames)[..|fieldnames| - 1] == HeaderPairs(front);
    }
  }

  /**
   * Looking a column name up ignores case and surrounding whitespace, and
   * when several headers normalise alike the later one wins.
   */
  lemma HeaderLookup(fieldnames: seq<string>, column: string)
    ensures Get(HeaderMap(fieldnames), NormalizeHeader(Some(column)))
      == LastHeader(fieldnames, NormalizeHeader(Some(column)))
  {
    GetDictOf(HeaderPairs(fieldnames), NormalizeHeader(Some(column)));
    LastHeaderPairs(fieldnames, NormalizeHeader(Some(column)));
  }

  const FirstNameVariants: seq<string> := ["firstname", "first name", "given name", "givenname"]
  const LastNameVariants: seq<string> := ["lastname", "last name", "surname", "family name", "familyname"]

  /** Python truthiness of an optional column name. */
  predicate Truthy(o: Option<string>)
  {
    o.Some? && o.value != ""
  }

  /** `normalize_header(h) in variants`. */
  predicate Matches(h: string, variants: seq<string>)
  {
    NormalizeHeader(Some(h)) in variants
  }

  /** The first header, in header order, that passes `p`. */
  function FirstWhere(fieldnames: seq<string>, p: string -> bool): (r: Option<string>)
  {
    if fieldnames == [] then None
    else
      var before := FirstWhere(fieldnames[..|fieldnames| - 1], p);
      var h := fieldnames[|fieldnames| - 1];
      if before.Some? then before else if p(h) then Some(h) else None
  }

  /** The first header, in header order, whose normalised form is one of `variants`. */
  function FirstMatch(fieldnames: seq<string>, variants: seq<string>): Option<string>
  {
    FirstWhere(fieldnames, h => Matches(h, variants))
  }

  /** A column key after the inference loop: kept when already set, else the first matching header, if any. */
  function Pick(key: Option<string>, inferred: Option<string>): Option<string>
  {
    if Truthy(key) then key else if inferred.Some? then inferred else key
  }

  /** The resolved columns of the CSV. */
  datatype Columns = Columns(username: string, first: string, last: string)

  datatype CsvError = NoHeaderRow | UsernameColumnMissing | NameColumnsMissing

  /**
   * How the three columns are resolved: each option is matched against the
   * headers ignoring case and surrounding whitespace (the last such header
   * wins); a name column that is not found falls back to the first header
   * that is a common variant.
   */
  function ResolveSpec(fieldnames: seq<string>, usernameColumn: string, firstColumn: string, lastColumn: string)
    : Result<Columns, CsvError>
  {
    if fieldnames == [] then Err(NoHeaderRow)
    else
      var uname := LastHeader(fieldnames, NormalizeHeader(Some(usernameColumn)));
      var first0 := LastHeader(fieldnames, NormalizeHeader(Some(firstColumn)));
      var last0 := LastHeader(fieldnames, NormalizeHeader(Some(lastColumn)));
      if !Truthy(uname) then Err(UsernameColumnMissing)
      else
        var first := Pick(first0, FirstMatch(fieldnames, FirstNameVariants));
        var last := Pick(last0, FirstMatch(fieldnames, LastNameVariants));
        if !Truthy(first) || !Truthy(last) then Err(NameColumnsMissing)
        else Ok(Columns(uname.value, first.value, last.value))
  }

  /** The inference loop: runs over every header, filling each column that is still unset at its first matching variant. */
  method InferColumns(fieldnames: seq<string>, first0: Option<string>, last0: Option<string>)
    returns (first: Option<string>, last: Option<string>)
    ensures first == Pick(first0, FirstMatch(fieldnames, FirstNameVariants))
    ensures last == Pick(last0, FirstMatch(fieldnames, LastNameVariants))
  {
    first, last := first0, last0;
    for k := 0 to |fieldnames|
      invariant first == Pick(first0, FirstMatch(fieldnames[..k], FirstNameVariants))
      invariant last == Pick(last0, FirstMatch(fieldnames[..k], LastNameVariants))
    {
      var h := fieldnames[k];
      PickStep(fieldnames, k, FirstNameVariants, first0);
      PickStep(fieldnames, k, LastNameVariants, last0);
      if !Truthy(first) && Matches(h, FirstNameVariants) {
        first := Some(h);
      }
      if !Truthy(last) && Matches(h, LastNameVariants) {
        last := Some(h);
      }
    }
    assert fieldnames[..|fieldnames|] == fieldnames;
  }

  /** A header that matches a variant is not empty, since no variant is. */
  lemma MatchNonEmpty(h: string, variants: seq<string>)
    requires forall v :: v in variants ==> v != ""
    requires Matches(h, variants)
    ensures h != ""
  {
  }

  /** One header of the inference loop. */
  lemma PickStep(fieldnames: seq<string>, k: nat, variants: seq<string>, key0: Option<string>)
    requires k < |fieldnames|
    requires forall v :: v in variants ==> v != ""
    ensures var key := Pick(key0, FirstMatch(fieldnames[..k], variants));
      Pick(key0, FirstMatch(fieldnames[..k + 1], variants)) ==
        if !Truthy(key) && Matches(fieldnames[k], variants) then Some(fieldnames[k]) else key
  {
    assert fieldnames[..k + 1][..k] == fieldnames[..k];
    MatchTruthy(fieldnames[..k], variants);
    if Matches(fieldnames[k], variants) {
      MatchNonEmpty(fieldnames[k], variants);
    }
  }

  /** A match is a non-empty header. */
  lemma {:induction false} MatchTruthy(fieldnames: seq<string>, variants: seq<string>)
    requires forall v :: v in variants ==> v != ""
    ensures FirstMatch(fieldnames, variants).Some? ==> Truthy(FirstMatch(fieldnames, variants))
    decreases |fieldnames|
  {
    if fieldnames != [] {
      MatchTruthy(fieldnames[..|fieldnames| - 1], variants);
      var h := fieldnames[|fieldnames| - 1];
      if Matches(h, variants) {
        MatchNonEmpty(h, variants);
      }
    }
  }

  /** There is no inferred column exactly when no header passes the variant test. */
  lemma {:induction false} FirstWhereNone(fieldnames: seq<string>, p: string -> bool)
    ensures FirstWhere(fieldnames, p).None? <==> forall l :: 0 <= l < |fieldnames| ==> !p(fieldnames[l])
    decreases |fieldnames|
  {
    if fieldnames != [] {
      var n := |fieldnames| - 1;
      var front := fieldnames[..n];
      FirstWhereNone(front, p);
      if FirstWhere(front, p).Some? {
        var l :| 0 <= l < n && p(front[l]);
        assert fieldnames[l] == front[l];
      } else if !p(fieldnames[n]) {
        forall l | 0 <= l < |fieldnames|
          ensures !p(fieldnames[l])
        {
          if l < n {
            assert fieldnames[l] == front[l];
          }
        }
      }
    }
  }

  /** The inferred column is the first header that passes the variant test. */
  lemma {:induction false} FirstWhereIsFirst(fieldnames: seq<string>, p: string -> bool)
    ensures FirstWhere(fieldnames, p).Some? ==>
      exists j :: (0 <= j < |fieldnames| && FirstWhere(fieldnames, p) == Some(fieldnames[j]) &&
        p(fieldnames[j]) && forall l :: 0 <= l < j ==> !p(fieldnames[l]))
    decreases |fieldnames|
  {
    if fieldnames != [] {
      var n := |fieldnames| - 1;
      var front := fieldnames[..n];
      FirstWhereIsFirst(front, p);
      if FirstWhere(front, p).Some? {
        var j :| 0 <= j < |front| && FirstWhere(front, p) == Some(front[j]) &&
          p(front[j]) && forall l :: 0 <= l < j ==> !p(front[l]);
        assert fieldnames[j] == front[j];
        forall l | 0 <= l < j
          ensures !p(fieldnames[l])
        {
          assert fieldnames[l] == front[l];
        }
      } else if p(fieldnames[n]) {
        FirstWhereNone(front, p);
        forall l | 0 <= l < n
          ensures !p(fieldnames[l])
        {
          assert fieldnames[l] == front[l];
        }
      }
    }
  }

  /** The source's column resolution, through the case-insensitive header map. */
  method Resolve(fieldnames: seq<string>, usernameColumn: string, firstColumn: string, lastColumn: string)
    returns (r: Result<Columns, CsvError>)
    ensures r == ResolveSpec(fieldnames, usernameColumn, firstColumn, lastColumn)
  {
    if fieldnames == [] {
      return Err(NoHeaderRow);
    }
    var hm := HeaderMap(fieldnames);
    var uname := Get(hm, NormalizeHeader(Some(usernameColumn)));
    var first := Get(hm, NormalizeHeader(Some(firstColumn)));
    var last := Get(hm, NormalizeHeader(Some(lastColumn)));
    HeaderLookup(fieldnames, usernameColumn);
    HeaderLookup(fieldnames, firstColumn);
    HeaderLookup(fieldnames, lastColumn);
    if !Truthy(uname) {
      return Err(UsernameColumnMissing);
    }
    if !Truthy(first) || !Truthy(last) {
      first, last := InferColumns(fieldnames, first, last);
      if !Truthy(first) || !Truthy(last) {
        return Err(NameColumnsMissing);
      }
    }
    return Ok(Columns(uname.value, first.value, last.value));
  }

  /** Resolution succeeds only with three non-empty column names, and a missing username column is always an error. */
  lemma ResolveEffect(fieldnames: seq<string>, usernameColumn: string, firstColumn: string, lastColumn: string)
    requires fieldnames != []
    ensures var r := ResolveSpec(fieldnames, usernameColumn, firstColumn, lastColumn);
      (r == Err(UsernameColumnMissing) <==> !Truthy(LastHeader(fieldnames, NormalizeHeader(Some(usernameColumn))))) &&
      (r.Ok? ==> r.value.username != "" && r.value.first != "" && r.value.last != "")
  {
  }

  /** With the username column found, the conversion fails exactly when a name column is neither found nor inferable. */
  lemma ResolveNamesMissing(fieldnames: seq<string>, usernameColumn: string, firstColumn: string, lastColumn: string)
    requires fieldnames != []
    requires Truthy(LastHeader(fieldnames, NormalizeHeader(Some(usernameColumn))))
    ensures var r := ResolveSpec(fieldnames, usernameColumn, firstColumn, lastColumn);
      r == Err(NameColumnsMissing) <==>
        (!Truthy(LastHeader(fieldnames, NormalizeHeader(Some(firstColumn)))) && FirstMatch(fieldnames, FirstNameVariants).None?) ||
        (!Truthy(LastHeader(fieldnames, NormalizeHeader(Some(lastColumn)))) && FirstMatch(fieldnames, LastNameVariants).None?)
  {
    MatchTruthy(fieldnames, FirstNameVariants);
    MatchTruthy(fieldnames, LastNameVariants);
  }

  // ----- rows -----

  /** A data row: the cells present, keyed by header. */
  type CsvRow = map<string, string>

  /** `(row.get(key) or "")`. */
  function Cell(row: CsvRow, key: string): string
  {
    if key in row then row[key] else ""
  }

  /** Strips one leading `@`. */
  function CleanUsername(u: string): (r: string)
    ensures |u| > 0 && u[0] == '@' ==> r == u[1..]
    ensures (|u| == 0 || u[0] != '@') ==> r == u
  {
    if |u| > 0 && u[0] == '@' then u[1..] else u
  }

  /** The `(username, full name)` a row contributes, None for a row without a username. */
  function RowPair(cols: Columns, row: CsvRow): (r: Option<(string, string)>)
    ensures r.None? <==> Strip(Cell(row, cols.username)) == ""
    ensures r.Some? ==> r.value.0 == CleanUsername(Strip(Cell(row, cols.username)))
    ensures r.Some? && r.value.0 != "" ==> r.value.1 != ""
  {
    var uname0 := Strip(Cell(row, cols.username));
    if uname0 == "" then None
    else
      var uname := CleanUsername(uname0);
      var first := Strip(Cell(row, cols.first));
      var last := Strip(Cell(row, cols.last));
      var full := Strip(first + " " + last);
      Some((uname, if full == "" then uname else full))
  }

  /** The pairs `f` keeps from `rows`, in row order. */
  function Collect(rows: seq<CsvRow>, f: CsvRow -> Option<(string, string)>): seq<(string, string)>
  {
    if rows == [] then []
    else
      var p := f(rows[|rows| - 1]);
      Collect(rows[..|rows| - 1], f) + (if p.Some? then [p.value] else [])
  }

  /** The `(username, full name)` pairs of the rows that have a username, in row order. */
  function KeptPairs(cols: Columns, rows: seq<CsvRow>): seq<(string, string)>
  {
    Collect(rows, row => RowPair(cols, row))
  }

  /** The mapping written to the output file. */
  function MappingSpec(cols: Columns, rows: seq<CsvRow>): seq<(string, string)>
  {
    DictOf(KeptPairs(cols, rows))
  }

  /** The body of the row loop: the cleaned username and full name of one row, None when it is skipped. */
  method ReadRow(cols: Columns, row: CsvRow) returns (p: Option<(string, string)>)
    ensures p == RowPair(cols, row)
  {
    var uname := Strip(Cell(row, cols.username));
    if uname == "" {
      return None;
    }
    if |uname| > 0 && uname[0] == '@' {
      uname := uname[1..];
    }
    var first := Strip(Cell(row, cols.first));
    var last := Strip(Cell(row, cols.last));
    var full := Strip(first + " " + last);
    if full == "" {
      full := uname;
    }
    return Some((uname, full));
  }

  /** The row loop, assigning `mapping[uname] = full` row by row. */
  method BuildMapping(cols: Columns, rows: seq<CsvRow>) returns (mapping: seq<(string, string)>)
    ensures mapping == MappingSpec(cols, rows)
  {
    mapping := [];
    for k := 0 to |rows|
      invariant mapping == DictOf(KeptPairs(cols, rows[..k]))
    {
      var p := ReadRow(cols, rows[k]);
      if p.None? {
        CollectSkip(rows, row => RowPair(cols, row), k);
        continue;
      }
      CollectAdd(rows, row => RowPair(cols, row), k, p.value);
      DictOfStep(KeptPairs(cols, rows[..k]), p.value);
      mapping := DictPut(mapping, p.value.0, p.value.1);
    }
    assert rows[..|rows|] == rows;
  }

  lemma CollectSkip(rows: seq<CsvRow>, f: CsvRow -> Option<(string, string)>, k: nat)
    requires k < |rows| && f(rows[k]).None?
    ensures Collect(rows[..k + 1], f) == Collect(rows[..k], f)
  {
    assert rows[..k + 1][..k] == rows[..k];
  }

  lemma CollectAdd(rows: seq<CsvRow>, f: CsvRow -> Option<(string, string)>, k: nat, p: (string, string))
    requires k < |rows| && f(rows[k]) == Some(p)
    ensures Collect(rows[..k + 1], f) == Collect(rows[..k], f) + [p]
  {
    assert rows[..k + 1][..k] == rows[..k];
  }

  lemma {:induction false} CollectFrom(rows: seq<CsvRow>, f: CsvRow -> Option<(string, string)>)
    ensures forall p :: p in Collect(rows, f) ==> exists i :: 0 <= i < |rows| && f(rows[i]) == Some(p)
    decreases |rows|
  {
    if rows != [] {
      var front := rows[..|rows| - 1];
      CollectFrom(front, f);
      forall p | p in Collect(rows, f)
        ensures exists i :: 0 <= i < |rows| && f(rows[i]) == Some(p)
      {
        if p in Collect(front, f) {
          var i :| 0 <= i < |front| && f(front[i]) == Some(p);
          assert rows[i] == front[i];
        } else {
          assert f(rows[|rows| - 1]) == Some(p);
        }
      }
    }
  }

  lemma DictOfStep(pairs: seq<(string, string)>, p: (string, string))
    ensures DictOf(pairs + [p]) == DictPut(DictOf(pairs), p.0, p.1)
  {
    assert (pairs + [p])[..|pairs|] == pairs;
  }

  /** The whole conversion: resolve the columns, then build the mapping. */
  method CsvToUsernames(fieldnames: seq<string>, rows: seq<CsvRow>,
                        usernameColumn: string, firstColumn: string, lastColumn: string)
    returns (r: Result<seq<(string, string)>, CsvError>)
    ensures var cols := ResolveSpec(fieldnames, usernameColumn, firstColumn, lastColumn);
      (cols.Err? ==> r == Err(cols.error)) && (cols.Ok? ==> r == Ok(MappingSpec(cols.value, rows)))
  {
    var cols := Resolve(fieldnames, usernameColumn, firstColumn, lastColumn);
    if cols.Err? {
      return Err(cols.error);
    }
    var mapping := BuildMapping(cols.value, rows);
    return Ok(mapping);
  }

  /** A later row for the same username wins; every username with a row is mapped. */
  lemma MappingLastWins(cols: Columns, rows: seq<CsvRow>, u: string)
    ensures Get(MappingSpec(cols, rows), u) == LastValue(KeptPairs(cols, rows), u)
  {
    GetDictOf(KeptPairs(cols, rows), u);
  }

  lemma KeptPairsNames(cols: Columns, rows: seq<CsvRow>)
    ensures forall p :: p in KeptPairs(cols, rows) && p.0 != "" ==> p.1 != ""
  {
    CollectFrom(rows, row => RowPair(cols, row));
    forall p | p in KeptPairs(cols, rows) && p.0 != ""
      ensures p.1 != ""
    {
      var i :| 0 <= i < |rows| && RowPair(cols, rows[i]) == Some(p);
    }
  }

  /** Every non-empty username maps to a non-empty full name (the username itself when both name cells are blank). */
  lemma MappingNamesNonEmpty(cols: Columns, rows: seq<CsvRow>)
    ensures forall i :: 0 <= i < |MappingSpec(cols, rows)| && MappingSpec(cols, rows)[i].0 != "" ==>
      MappingSpec(cols, rows)[i].1 != ""
  {
    var pairs := KeptPairs(cols, rows);
    KeptPairsNames(cols, rows);
    DictOfEntries(pairs);
    var d := DictOf(pairs);
    forall i | 0 <= i < |d| && d[i].0 != ""
      ensures d[i].1 != ""
    {
      LastValueIn(pairs, d[i].0);
    }
  }

  lemma {:induction false} LastValueIn(pairs: seq<(string, string)>, k: string)
    ensures LastValue(pairs, k).Some? ==> (k, LastValue(pairs, k).value) in pairs
    decreases |pairs|
  {
    if pairs != [] && pairs[|pairs| - 1].0 != k {
      LastValueIn(pairs[..|pairs| - 1], k);
    }
  }
}
