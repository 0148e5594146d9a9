/** The stable sort behind Python's `sorted(..., key=...)`, over any total
    preorder `le` ("key of a <= key of b"). It is used twice when a snapshot
    is finalised: activity lists by date, contributor maps by name. */
module StableSort {

  ghost predicate TotalPreorder<T(!new)>(le: (T, T) -> bool) {
    && (forall a, b :: le(a, b) || le(b, a))
    && (forall a, b, c :: le(a, b) && le(b, c) ==> le(a, c))
  }

  predicate Sorted<T>(s: seq<T>, le: (T, T) -> bool) {
    forall i, j :: 0 <= i < j < |s| ==> le(s[i], s[j])
  }

  /** Puts `x` after every element of `s` that is not strictly greater. */
  function Insert<T>(x: T, s: seq<T>, le: (T, T) -> bool): (r: seq<T>)
    ensures |r| == |s| + 1
    ensures multiset(r) == multiset(s) + multiset{x}
  {
    if s == [] || !le(s[0], x) then [x] + s
    else
      assert s == [s[0]] + s[1..];
      [s[0]] + Insert(x, s[1..], le)
  }

  /** Insertion sort, taking the elements in their original order. */
  function Sort<T>(s: seq<T>, le: (T, T) -> bool): (r: seq<T>)
    ensures multiset(r) == multiset(s)
    ensures |r| == |s|
  {
    if s == [] then []
    else
      assert s == s[..|s| - 1] + [s[|s| - 1]];
      Insert(s[|s| - 1], Sort(s[..|s| - 1], le), le)
  }

  lemma {:induction false} InsertSorted<T(!new)>(x: T, s: seq<T>, le: (T, T) -> bool)
    requires TotalPreorder(le) && Sorted(s, le)
    ensures Sorted(Insert(x, s, le), le)
  {
    if s != [] && le(s[0], x) {
      InsertSorted(x, s[1..], le);
      var r := Insert(x, s[1..], le);
      assert forall k :: 0 <= k < |r| ==> r[k] in multiset(s[1..]) + multiset{x};
      forall k | 0 <= k < |r| ensures le(s[0], r[k]) {
        assert r[k] in multiset(s[1..]) + multiset{x};
        if r[k] != x {
          assert r[k] in s[1..];
        }
      }
    }
  }

  /** The result of `Sort` is ordered and a permutation of the input. */
  lemma {:induction false} SortSorted<T(!new)>(s: seq<T>, le: (T, T) -> bool)
    requires TotalPreorder(le)
    ensures Sorted(Sort(s, le), le)
    ensures multiset(Sort(s, le)) == multiset(s)
  {
    if s != [] {
      SortSorted(s[..|s| - 1], le);
      InsertSorted(s[|s| - 1], Sort(s[..|s| - 1], le), le);
    }
  }

  /** An element no smaller than everything in `s` goes to the end. */
  lemma {:induction false} InsertLast<T>(x: T, s: seq<T>, le: (T, T) -> bool)
    requires forall k :: 0 <= k < |s| ==> le(s[k], x)
    ensures Insert(x, s, le) == s + [x]
  {
    if s != [] {
      InsertLast(x, s[1..], le);
      assert s == [s[0]] + s[1..];
    }
  }

  /** Sorting an ordered sequence leaves it as it is. */
  lemma {:induction false} SortOfSorted<T>(s: seq<T>, le: (T, T) -> bool)
    requires Sorted(s, le)
    ensures Sort(s, le) == s
  {
    if s != [] {
      var init := s[..|s| - 1];
      assert Sorted(init, le);
      SortOfSorted(init, le);
      InsertLast(s[|s| - 1], init, le);
      assert init + [s[|s| - 1]] == s;
    }
  }

  /** Sorting twice is sorting once. */
  lemma SortIdempotent<T(!new)>(s: seq<T>, le: (T, T) -> bool)
    requires TotalPreorder(le)
    ensures Sort(Sort(s, le), le) == Sort(s, le)
  {
    SortSorted(s, le);
    SortOfSorted(Sort(s, le), le);
  }

  /** The elements of `s` that tie with `y`, in their order in `s`. */
  function Ties<T>(s: seq<T>, y: T, le: (T, T) -> bool): (r: seq<T>)
    ensures |r| <= |s|
  {
    if s == [] then []
    else (if le(s[0], y) && le(y, s[0]) then [s[0]] else []) + Ties(s[1..], y, le)
  }

  lemma {:induction false} TiesAppend<T>(a: seq<T>, b: seq<T>, y: T, le: (T, T) -> bool)
    ensures Ties(a + b, y, le) == Ties(a, y, le) + Ties(b, y, le)
  {
    if a == [] {
      assert a + b == b;
    } else {
      var head := if le(a[0], y) && le(y, a[0]) then [a[0]] else [];
      assert (a + b)[0] == a[0];
      assert (a + b)[1..] == a[1..] + b;
      TiesAppend(a[1..], b, y, le);
      assert Ties(a + b, y, le) == head + Ties(a[1..] + b, y, le);
      assert Ties(a, y, le) == head + Ties(a[1..], y, le);
    }
  }

  lemma {:induction false} InsertTies<T(!new)>(x: T, s: seq<T>, y: T, le: (T, T) -> bool)
    requires TotalPreorder(le) && Sorted(s, le)
    ensures Ties(Insert(x, s, le), y, le)
         == Ties(s, y, le) + (if le(x, y) && le(y, x) then [x] else [])
  {
    var tail := if le(x, y) && le(y, x) then [x] else [];
    if s == [] {
    } else if !le(s[0], x) {
      calc {
        Ties(Insert(x, s, le), y, le);
        Ties([x] + s, y, le);
        { TiesAppend([x], s, y, le); }
        tail + Ties(s, y, le);
        { if tail != [] { NoTiesAbove(x, s, y, le); } }
        Ties(s, y, le) + tail;
      }
    } else {
      var head := if le(s[0], y) && le(y, s[0]) then [s[0]] else [];
      calc {
        Ties(Insert(x, s, le), y, le);
        Ties([s[0]] + Insert(x, s[1..], le), y, le);
        head + Ties(Insert(x, s[1..], le), y, le);
        { assert Sorted(s[1..], le); InsertTies(x, s[1..], y, le); }
        head + (Ties(s[1..], y, le) + tail);
        Ties(s, y, le) + tail;
      }
    }
  }

  lemma {:induction false} NoTies<T>(s: seq<T>, y: T, le: (T, T) -> bool)
    requires forall k :: 0 <= k < |s| ==> !(le(s[k], y) && le(y, s[k]))
    ensures Ties(s, y, le) == []
  {
    if s != [] {
      NoTies(s[1..], y, le);
    }
  }

  /** Nothing in `s` ties with `y` when `s` starts above `x` and `x` ties with `y`. */
  lemma NoTiesAbove<T(!new)>(x: T, s: seq<T>, y: T, le: (T, T) -> bool)
    requires TotalPreorder(le) && Sorted(s, le)
    requires s != [] && !le(s[0], x) && le(x, y) && le(y, x)
    ensures Ties(s, y, le) == []
  {
    forall k | 0 <= k < |s| ensures !le(s[k], y) {
      assert k == 0 || le(s[0], s[k]);
    }
    NoTies(s, y, le);
  }

  /** Stability: for every key, the elements with that key keep their
      original relative order. */
  lemma {:induction false} SortStable<T(!new)>(s: seq<T>, y: T, le: (T, T) -> bool)
    requires TotalPreorder(le)
    ensures Ties(Sort(s, le), y, le) == Ties(s, y, le)
  {
    if s != [] {
      var init, last := s[..|s| - 1], s[|s| - 1];
      var sorted := Sort(init, le);
      var tail := if le(last, y) && le(y, last) then [last] else [];
      calc {
        Ties(Sort(s, le), y, le);
        Ties(Insert(last, sorted, le), y, le);
        { SortSorted(init, le); InsertTies(last, sorted, y, le); }
        Ties(sorted, y, le) + tail;
        { SortStable(init, y, le); }
        Ties(init, y, le) + tail;
        { TiesAppend(init, [last], y, le); }
        Ties(init + [last], y, le);
        { assert s == init + [last]; }
        Ties(s, y, le);
      }
    }
  }
}
