/** Insertion-ordered string dicts (Python `dict` keeps the position of a
    key's first insertion; assigning an existing key replaces its value in
    place), held as lists of pairs. */
module Dicts {
  import opened Wrappers

  /** No key occurs twice. */
  predicate Distinct(d: seq<(string, string)>) {
    forall i, j :: 0 <= i < j < |d| ==> d[i].0 != d[j].0
  }

  /** `d[k] = v` on an insertion-ordered dict held as a list of pairs. */
  function DictPut(d: seq<(string, string)>, k: string, v: string): (r: seq<(string, string)>)
    requires Distinct(d)
    ensures Distinct(r)
    ensures forall i :: 0 <= i < |r| ==> r[i].0 == k || exists j :: 0 <= j < |d| && d[j] == r[i]
    ensures exists i :: 0 <= i < |r| && r[i] == (k, v)
    ensures forall j :: 0 <= j < |d| && d[j].0 != k ==> d[j] in r
    ensures |r| == |d| || |r| == |d| + 1
    ensures forall j :: 0 <= j < |d| ==> r[j].0 == d[j].0
  {
    if exists i :: 0 <= i < |d| && d[i].0 == k then
      var i :| 0 <= i < |d| && d[i].0 == k;
      var r := d[i := (k, v)];
      assert r[i] == (k, v);
      forall j | 0 <= j < |d| && d[j].0 != k ensures d[j] in r {
        assert r[j] == d[j];
      }
      r
    else
      var r := d + [(k, v)];
      assert r[|d|] == (k, v);
      r
  }

  /** A dict built by assigning `pairs` in order, as the comprehension
      `{commit['sha']: commit['url'] for commit in commits}` (gather.py:578) does. */
  function DictOf(pairs: seq<(string, string)>): (d: seq<(string, string)>)
    ensures Distinct(d)
  {
    if pairs == [] then []
    else DictPut(DictOf(pairs[..|pairs| - 1]), pairs[|pairs| - 1].0, pairs[|pairs| - 1].1)
  }

  /** The value the dict keeps for `k`: the one of its last occurrence. */
  function LastValue(pairs: seq<(string, string)>, k: string): Option<string> {
    if pairs == [] then None
    else if pairs[|pairs| - 1].0 == k then Some(pairs[|pairs| - 1].1)
    else LastValue(pairs[..|pairs| - 1], k)
  }

  /** The dict has one entry per key that occurs, and that entry holds the
      value of the key's last occurrence: duplicates are collapsed. */
  lemma {:induction false} DictOfEntries(pairs: seq<(string, string)>)
    ensures forall i :: 0 <= i < |DictOf(pairs)| ==> LastValue(pairs, DictOf(pairs)[i].0) == Some(DictOf(pairs)[i].1)
    ensures forall sha :: LastValue(pairs, sha).Some? <==> exists i :: 0 <= i < |DictOf(pairs)| && DictOf(pairs)[i].0 == sha
  {
    if pairs != [] {
      var init, last := pairs[..|pairs| - 1], pairs[|pairs| - 1];
      DictOfEntries(init);
      var d0 := DictOf(init);
      var d := DictOf(pairs);
      forall i | 0 <= i < |d| ensures LastValue(pairs, d[i].0) == Some(d[i].1) {
        if d[i].0 != last.0 {
          var j :| 0 <= j < |d0| && d0[j] == d[i];
        } else {
          var i' :| 0 <= i' < |d| && d[i'] == last;
        }
      }
      forall sha ensures LastValue(pairs, sha).Some? <==> exists i :: 0 <= i < |d| && d[i].0 == sha {
        if sha != last.0 && LastValue(pairs, sha).Some? {
          assert LastValue(pairs, sha) == LastValue(init, sha);
          var j :| 0 <= j < |d0| && d0[j].0 == sha;
          assert d0[j] in d;
        }
        if sha == last.0 {
          var i' :| 0 <= i' < |d| && d[i'] == last;
        }
      }
    }
  }

  /** `d.get(k)`. */
  function Get(d: seq<(string, string)>, k: string): Option<string>
  {
    if d == [] then None else if d[0].0 == k then Some(d[0].1) else Get(d[1..], k)
  }

  lemma {:induction false} GetPresent(d: seq<(string, string)>, i: nat)
    requires Distinct(d) && i < |d|
    ensures Get(d, d[i].0) == Some(d[i].1)
    decreases i
  {
    if i > 0 {
      assert d[0].0 != d[i].0;
      GetPresent(d[1..], i - 1);
    }
  }

  lemma {:induction false} GetAbsent(d: seq<(string, string)>, k: string)
    requires forall i :: 0 <= i < |d| ==> d[i].0 != k
    ensures Get(d, k) == None
    decreases |d|
  {
    if d != [] {
      GetAbsent(d[1..], k);
    }
  }

  /** Looking a key up in a dict built from `pairs` gives the value of its last occurrence. */
  lemma GetDictOf(pairs: seq<(string, string)>, k: string)
    ensures Get(DictOf(pairs), k) == LastValue(pairs, k)
  {
    DictOfEntries(pairs);
    var d := DictOf(pairs);
    if i :| 0 <= i < |d| && d[i].0 == k {
      GetPresent(d, i);
    } else {
      GetAbsent(d, k);
    }
  }
}
