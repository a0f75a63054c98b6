/** The two library algorithms that the producer code calls on vectors. */
module Sorting {

  ghost predicate StrictlySortedBy<T(!new)>(s: seq<T>, key: T -> int) {
    forall i, j :: 0 <= i < j < |s| ==> key(s[i]) < key(s[j])
  }

  function Insert<T>(x: T, s: seq<T>, key: T -> int): seq<T> {
    if s == [] || key(x) <= key(s[0]) then [x] + s
    else [s[0]] + Insert(x, s[1..], key)
  }

  function Sort<T>(s: seq<T>, key: T -> int): seq<T> {
    if s == [] then [] else Insert(s[0], Sort(s[1..], key), key)
  }

  ghost predicate DistinctBy<T(!new)>(s: seq<T>, key: T -> int) {
    forall i, j :: 0 <= i < j < |s| ==> key(s[i]) != key(s[j])
  }

  lemma {:induction false} InsertIsStrict<T(!new)>(x: T, s: seq<T>, key: T -> int)
    requires StrictlySortedBy(s, key) && forall y :: y in s ==> key(y) != key(x)
    ensures StrictlySortedBy(Insert(x, s, key), key)
    ensures forall y :: y in Insert(x, s, key) <==> y == x || y in s
    ensures |Insert(x, s, key)| == |s| + 1
  {
    if s == [] || key(x) <= key(s[0]) {
    } else {
      var rest := Insert(x, s[1..], key);
      assert s == [s[0]] + s[1..];
      InsertIsStrict(x, s[1..], key);
      forall j | 0 <= j < |rest| ensures key(s[0]) < key(rest[j]) {
        assert rest[j] in rest;
        if rest[j] != x {
          var m :| 0 <= m < |s[1..]| && s[1..][m] == rest[j];
          assert s[m + 1] == rest[j];
        }
      }
    }
  }

  /** Elements with distinct keys come out in strictly increasing key order, none lost and none added. */
  lemma {:induction false} SortIsStrict<T(!new)>(s: seq<T>, key: T -> int)
    requires DistinctBy(s, key)
    ensures StrictlySortedBy(Sort(s, key), key)
    ensures forall y :: y in Sort(s, key) <==> y in s
    ensures |Sort(s, key)| == |s|
  {
    if s != [] {
      SortIsStrict(s[1..], key);
      assert s == [s[0]] + s[1..];
      forall y | y in s[1..] ensures key(y) != key(s[0]) {
        var m :| 0 <= m < |s[1..]| && s[1..][m] == y;
        assert s[m + 1] == y;
      }
      InsertIsStrict(s[0], Sort(s[1..], key), key);
    }
  }

  lemma FirstIsIn<T>(s: seq<T>)
    ensures s != [] ==> s[0] in s
  {
  }

  lemma FirstIsLeast<T(!new)>(s: seq<T>, key: T -> int, i: nat)
    requires StrictlySortedBy(s, key) && i < |s|
    ensures key(s[0]) <= key(s[i]) && (key(s[0]) == key(s[i]) ==> i == 0)
  {
  }

  lemma SameFirst<T(!new)>(a: seq<T>, b: seq<T>, key: T -> int)
    requires StrictlySortedBy(a, key) && StrictlySortedBy(b, key) && a != [] && b != []
    requires a[0] in b && b[0] in a
    ensures a[0] == b[0]
  {
    var i :| 0 <= i < |b| && b[i] == a[0];
    var j :| 0 <= j < |a| && a[j] == b[0];
    FirstIsLeast(b, key, i);
    FirstIsLeast(a, key, j);
  }

  lemma TailMember<T(!new)>(a: seq<T>, b: seq<T>, key: T -> int, x: T)
    requires StrictlySortedBy(a, key) && a != [] && b != [] && a[0] == b[0] && x in a[1..] && x in b
    ensures x in b[1..]
  {
    var k :| 1 <= k < |a| && a[k] == x;
    assert key(a[0]) < key(a[k]);
    var m :| 0 <= m < |b| && b[m] == x;
    assert m != 0;
    assert b[1..][m - 1] == x;
  }

  /** Lists in strictly increasing key order that hold the same elements are the same list. */
  lemma {:induction false} StrictlySortedUnique<T(!new)>(a: seq<T>, b: seq<T>, key: T -> int)
    requires StrictlySortedBy(a, key) && StrictlySortedBy(b, key)
    requires forall x :: x in a <==> x in b
    ensures a == b
    decreases |a|
  {
    FirstIsIn(a);
    FirstIsIn(b);
    if a == [] {
      assert b == [];
    } else {
      SameFirst(a, b, key);
      forall x ensures x in a[1..] <==> x in b[1..] {
        if x in a[1..] { TailMember(a, b, key, x); }
        if x in b[1..] { TailMember(b, a, key, x); }
      }
      StrictlySortedUnique(a[1..], b[1..], key);
      assert a == [a[0]] + a[1..] && b == [b[0]] + b[1..];
    }
  }

  /** Binary search for the first element whose key is not below the bound, as std::lower_bound does. */
  method LowerBound<T>(s: seq<T>, key: T -> int, bound: int) returns (at: nat)
    requires forall i, j :: 0 <= i < j < |s| ==> key(s[i]) <= key(s[j])
    ensures at <= |s|
    ensures forall i :: 0 <= i < at ==> key(s[i]) < bound
    ensures forall i :: at <= i < |s| ==> bound <= key(s[i])
  {
    at := 0;
    var count := |s|;
    while count > 0
      invariant 0 <= at && 0 <= count && at + count <= |s|
      invariant forall i :: 0 <= i < at ==> key(s[i]) < bound
      invariant forall i :: at + count <= i < |s| ==> bound <= key(s[i])
    {
      var half := count / 2;
      if key(s[at + half]) < bound {
        at, count := at + half + 1, count - half - 1;
      } else {
        count := half;
      }
    }
  }
}
