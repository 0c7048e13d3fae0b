/** Stable sorting by an integer key, and first-match search in the sorted list. */
module StableSort {
  import opened Common

  function Insert<T(!new)>(x: T, t: seq<T>, key: T -> int): seq<T> {
    if t == [] || key(x) <= key(t[0]) then [x] + t else [t[0]] + Insert(x, t[1..], key)
  }

  /** The stable sort of `s`: what `sort_by_key` leaves. */
  function Sort<T(!new)>(s: seq<T>, key: T -> int): seq<T> {
    if s == [] then [] else Insert(s[0], Sort(s[1..], key), key)
  }

  ghost predicate Sorted<T(!new)>(s: seq<T>, key: T -> int) {
    forall i, j :: 0 <= i < j < |s| ==> key(s[i]) <= key(s[j])
  }

  /** The elements with one key, in their order. */
  function WithKey<T(!new)>(s: seq<T>, key: T -> int, k: int): seq<T> {
    if s == [] then [] else (if key(s[0]) == k then [s[0]] else []) + WithKey(s[1..], key, k)
  }

  lemma {:induction false} InsertMembers<T(!new)>(x: T, t: seq<T>, key: T -> int)
    ensures forall y :: y in Insert(x, t, key) <==> y == x || y in t
  {
    if t != [] && key(x) > key(t[0]) {
      InsertMembers(x, t[1..], key);
      assert t == [t[0]] + t[1..];
    }
  }

  lemma {:induction false} InsertKeeps<T(!new)>(x: T, t: seq<T>, key: T -> int)
    requires Sorted(t, key)
    ensures Sorted(Insert(x, t, key), key)
  {
    if t != [] && key(x) > key(t[0]) {
      InsertKeeps(x, t[1..], key);
      InsertMembers(x, t[1..], key);
      var r := Insert(x, t[1..], key);
      forall j | 0 <= j < |r|
        ensures key(t[0]) <= key(r[j])
      {
        assert r[j] in r;
        if r[j] != x {
          var i :| 0 <= i < |t[1..]| && t[1..][i] == r[j];
          assert t[i + 1] == r[j];
        }
      }
    }
  }

  lemma {:induction false} SortSorts<T(!new)>(s: seq<T>, key: T -> int)
    ensures Sorted(Sort(s, key), key)
    ensures forall y :: y in Sort(s, key) <==> y in s
  {
    if s != [] {
      SortSorts(s[1..], key);
      InsertKeeps(s[0], Sort(s[1..], key), key);
      InsertMembers(s[0], Sort(s[1..], key), key);
      assert s == [s[0]] + s[1..];
    }
  }

  lemma {:induction false} InsertClass<T(!new)>(x: T, t: seq<T>, key: T -> int, k: int)
    ensures WithKey(Insert(x, t, key), key, k) == (if key(x) == k then [x] else []) + WithKey(t, key, k)
  {
    if t == [] || key(x) <= key(t[0]) {
      assert ([x] + t)[1..] == t;
    } else {
      InsertClass(x, t[1..], key, k);
      assert ([t[0]] + Insert(x, t[1..], key))[1..] == Insert(x, t[1..], key);
      var g := if key(x) == k then [x] else [];
      var h := if key(t[0]) == k then [t[0]] else [];
      var w := WithKey(t[1..], key, k);
      assert g == [] || h == [];
      assert h + (g + w) == g + (h + w);
    }
  }

  /** Sorting keeps the elements of each key in their order. */
  lemma {:induction false} SortIsStable<T(!new)>(s: seq<T>, key: T -> int, k: int)
    ensures WithKey(Sort(s, key), key, k) == WithKey(s, key, k)
  {
    if s != [] {
      SortIsStable(s[1..], key, k);
      InsertClass(s[0], Sort(s[1..], key), key, k);
    }
  }

  lemma {:induction false} ClassMembers<T(!new)>(s: seq<T>, key: T -> int, k: int)
    ensures WithKey(s, key, k) != [] <==> exists i :: 0 <= i < |s| && key(s[i]) == k
  {
    if s != [] {
      ClassMembers(s[1..], key, k);
      if exists i :: 0 <= i < |s| && key(s[i]) == k {
        var i :| 0 <= i < |s| && key(s[i]) == k;
        assert i == 0 || s[1..][i - 1] == s[i];
      }
      if WithKey(s[1..], key, k) != [] {
        var i :| 0 <= i < |s[1..]| && key(s[1..][i]) == k;
        assert s[i + 1] == s[1..][i];
      }
    }
  }

  ghost predicate SameClass<T(!new)>(t: seq<T>, u: seq<T>, key: T -> int, k: int) {
    WithKey(t, key, k) == WithKey(u, key, k)
  }

  ghost predicate SameClasses<T(!new)>(t: seq<T>, u: seq<T>, key: T -> int) {
    forall k :: SameClass(t, u, key, k)
  }

  /** A class that has a member in one list has one in the other. */
  lemma SharedClass<T(!new)>(t: seq<T>, u: seq<T>, key: T -> int, i: nat) returns (j: nat)
    requires SameClasses(t, u, key) && i < |t|
    ensures j < |u| && key(u[j]) == key(t[i])
  {
    var k := key(t[i]);
    assert SameClass(t, u, key, k);
    ClassMembers(t, key, k);
    ClassMembers(u, key, k);
    j :| 0 <= j < |u| && key(u[j]) == k;
  }

  lemma HeadsAgree<T(!new)>(t: seq<T>, u: seq<T>, key: T -> int)
    requires Sorted(t, key) && Sorted(u, key) && SameClasses(t, u, key)
    requires t != []
    ensures u != [] && t[0] == u[0]
  {
    var i := SharedClass(t, u, key, 0);
    assert SameClasses(u, t, key) by {
      forall k
        ensures SameClass(u, t, key, k)
      {
        assert SameClass(t, u, key, k);
      }
    }
    var j := SharedClass(u, t, key, 0);
    assert key(t[0]) <= key(t[j]) && key(u[0]) <= key(u[i]);
    var k := key(t[0]);
    assert SameClass(t, u, key, k);
    assert WithKey(t, key, k)[0] == t[0] && WithKey(u, key, k)[0] == u[0];
  }

  lemma TailsAgree<T(!new)>(t: seq<T>, u: seq<T>, key: T -> int)
    requires SameClasses(t, u, key) && t != [] && u != [] && t[0] == u[0]
    ensures SameClasses(t[1..], u[1..], key)
  {
    forall k
      ensures SameClass(t[1..], u[1..], key, k)
    {
      assert SameClass(t, u, key, k);
      var h := if key(t[0]) == k then [t[0]] else [];
      var a, b := WithKey(t[1..], key, k), WithKey(u[1..], key, k);
      assert h + a == h + b;
      assert (h + a)[|h|..] == a && (h + b)[|h|..] == b;
    }
  }

  /** Whatever algorithm is used: a sorted list with the same elements of each key in the same order is this one. */
  lemma {:induction false} StableSortIsUnique<T(!new)>(t: seq<T>, u: seq<T>, key: T -> int)
    requires Sorted(t, key) && Sorted(u, key) && SameClasses(t, u, key)
    ensures t == u
    decreases |t|
  {
    assert u != [] ==> SameClass(t, u, key, key(u[0]));
    if t != [] {
      HeadsAgree(t, u, key);
      TailsAgree(t, u, key);
      StableSortIsUnique(t[1..], u[1..], key);
    }
  }

  // ----- the first match

  function First<T(!new)>(s: seq<T>, p: T -> bool): Option<T> {
    if s == [] then None else if p(s[0]) then Some(s[0]) else First(s[1..], p)
  }

  /** The match with the least key, ties to the earliest, in a list of any order. */
  function Best<T(!new)>(s: seq<T>, p: T -> bool, key: T -> int): (r: Option<T>)
    ensures r.Some? ==> r.value in s && p(r.value)
  {
    if s == [] then None
    else
      var b := Best(s[1..], p, key);
      if p(s[0]) && (b.None? || key(s[0]) <= key(b.value)) then Some(s[0]) else b
  }

  lemma {:induction false} FirstOfInsert<T(!new)>(x: T, t: seq<T>, p: T -> bool, key: T -> int)
    requires Sorted(t, key)
    ensures First(Insert(x, t, key), p) ==
            var f := First(t, p); if p(x) && (f.None? || key(x) <= key(f.value)) then Some(x) else f
  {
    FirstIsMember(t, p);
    if t == [] || key(x) <= key(t[0]) {
      assert ([x] + t)[1..] == t;
    } else {
      FirstOfInsert(x, t[1..], p, key);
      assert ([t[0]] + Insert(x, t[1..], key))[1..] == Insert(x, t[1..], key);
    }
  }

  lemma {:induction false} FirstIsMember<T(!new)>(s: seq<T>, p: T -> bool)
    ensures First(s, p).Some? ==> First(s, p).value in s && p(First(s, p).value)
    ensures First(s, p).None? ==> forall x :: x in s ==> !p(x)
  {
    if s != [] {
      FirstIsMember(s[1..], p);
      assert s == [s[0]] + s[1..];
    }
  }

  /** The first match of the sorted list is the best match of the list. */
  lemma {:induction false} FirstOfSorted<T(!new)>(s: seq<T>, p: T -> bool, key: T -> int)
    ensures First(Sort(s, key), p) == Best(s, p, key)
  {
    if s != [] {
      FirstOfSorted(s[1..], p, key);
      SortSorts(s[1..], key);
      FirstOfInsert(s[0], Sort(s[1..], key), p, key);
    }
  }

  /** Position `i` holds a match, and no match has a lesser key or the same key and an earlier position. */
  ghost predicate Wins<T(!new)>(s: seq<T>, p: T -> bool, key: T -> int, i: nat)
    requires i < |s|
  {
    p(s[i]) && forall j :: 0 <= j < |s| && p(s[j]) ==> key(s[i]) < key(s[j]) || (key(s[i]) == key(s[j]) && i <= j)
  }

  lemma {:induction false} BestWins<T(!new)>(s: seq<T>, p: T -> bool, key: T -> int)
    ensures Best(s, p, key).None? <==> forall i :: 0 <= i < |s| ==> !p(s[i])
    ensures Best(s, p, key).Some? ==> exists i :: 0 <= i < |s| && Wins(s, p, key, i) && Best(s, p, key) == Some(s[i])
  {
    if s != [] {
      var tail := s[1..];
      BestWins(tail, p, key);
      var b := Best(tail, p, key);
      assert forall i :: 0 <= i < |tail| ==> tail[i] == s[i + 1];
      if p(s[0]) && (b.None? || key(s[0]) <= key(b.value)) {
        if b.Some? {
          var i :| 0 <= i < |tail| && Wins(tail, p, key, i) && b == Some(tail[i]);
        }
        forall j | 0 <= j < |s| && p(s[j])
          ensures key(s[0]) <= key(s[j])
        {
          assert j == 0 || s[j] == tail[j - 1];
        }
        assert Wins(s, p, key, 0);
      } else if b.Some? {
        var i :| 0 <= i < |tail| && Wins(tail, p, key, i) && b == Some(tail[i]);
        forall j | 0 <= j < |s| && p(s[j])
          ensures key(s[i + 1]) < key(s[j]) || (key(s[i + 1]) == key(s[j]) && i + 1 <= j)
        {
          assert j == 0 || s[j] == tail[j - 1];
        }
        assert Wins(s, p, key, i + 1);
      } else {
        forall j | 0 <= j < |s|
          ensures !p(s[j])
        {
          assert j == 0 || s[j] == tail[j - 1];
        }
      }
    }
  }

  lemma WinnerIsUnique<T(!new)>(s: seq<T>, p: T -> bool, key: T -> int, i: nat, j: nat)
    requires i < |s| && j < |s| && Wins(s, p, key, i) && Wins(s, p, key, j)
    ensures i == j
  {
  }

  /** The first match of the sorted list sits at the winning position of the original one. */
  lemma FirstOfSortedWins<T(!new)>(s: seq<T>, p: T -> bool, key: T -> int, i: nat)
    requires i < |s| && Wins(s, p, key, i)
    ensures First(Sort(s, key), p) == Some(s[i])
  {
    FirstOfSorted(s, p, key);
    BestWins(s, p, key);
    var j :| 0 <= j < |s| && Wins(s, p, key, j) && Best(s, p, key) == Some(s[j]);
    WinnerIsUnique(s, p, key, i, j);
  }
}
