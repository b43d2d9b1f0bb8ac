/** Query results of the document store: a set of matching ids put in a
    deterministic order by a sort key, and Mongo's `limit`. */
module Listing {
  import opened Common

  /** `a` comes no later than `b` when sorting ascending by `key`; equal keys
      keep insertion order, that is ascending id. */
  predicate Precedes(key: Id -> int, a: Id, b: Id)
  {
    key(a) < key(b) || (key(a) == key(b) && a <= b)
  }

  /** Every non-empty set of ids has a first element in the sort order. */
  lemma {:induction false} FirstExists(ids: set<Id>, key: Id -> int)
    requires ids != {}
    ensures exists m :: m in ids && forall x :: x in ids ==> Precedes(key, m, x)
    decreases |ids|
  {
    var y :| y in ids;
    var rest := ids - {y};
    if rest == {} {
      assert ids == {y};
      assert Precedes(key, y, y);
    } else {
      FirstExists(rest, key);
      var m :| m in rest && forall x :: x in rest ==> Precedes(key, m, x);
      assert forall x :: x in ids ==> x == y || x in rest;
      if Precedes(key, m, y) {
        assert m in ids && forall x :: x in ids ==> Precedes(key, m, x);
      } else {
        assert y in ids && forall x :: x in ids ==> Precedes(key, y, x);
      }
    }
  }

  /** The ids of `ids` sorted ascending by `key`, ties broken by id: the
      listing `find(...).sort("+field")` returns. A descending sort is the
      ascending sort on the negated key. */
  function SortedBy(ids: set<Id>, key: Id -> int): (r: seq<Id>)
    ensures |r| == |ids|
    ensures forall x :: x in r <==> x in ids
    ensures forall i, j :: 0 <= i < j < |r| ==> Precedes(key, r[i], r[j]) && r[i] != r[j]
    decreases |ids|
  {
    if ids == {} then []
    else
      FirstExists(ids, key);
      var m :| m in ids && forall x :: x in ids ==> Precedes(key, m, x);
      var rest := SortedBy(ids - {m}, key);
      PrependFirst(ids, key, m, rest);
      [m] + rest
  }

  /** Putting the first element in front of the sorted remainder sorts the
      whole set. */
  lemma PrependFirst(ids: set<Id>, key: Id -> int, m: Id, rest: seq<Id>)
    requires m in ids && forall x :: x in ids ==> Precedes(key, m, x)
    requires |rest| == |ids - {m}| && forall x :: x in rest <==> x in ids - {m}
    requires forall i, j :: 0 <= i < j < |rest| ==> Precedes(key, rest[i], rest[j]) && rest[i] != rest[j]
    ensures |[m] + rest| == |ids|
    ensures forall x :: x in [m] + rest <==> x in ids
    ensures forall i, j :: 0 <= i < j < |[m] + rest| ==>
      Precedes(key, ([m] + rest)[i], ([m] + rest)[j]) && ([m] + rest)[i] != ([m] + rest)[j]
  {
    var r := [m] + rest;
    forall i, j | 0 <= i < j < |r|
      ensures Precedes(key, r[i], r[j]) && r[i] != r[j]
    {
      assert r[j] == rest[j - 1];
      if i > 0 {
        assert r[i] == rest[i - 1];
      } else {
        assert rest[j - 1] in rest;
      }
    }
  }

  function NoKey(id: Id): int
  {
    0
  }

  /** The order of an unsorted `find(...)`: insertion order. */
  function NaturalOrder(ids: set<Id>): (r: seq<Id>)
    ensures |r| == |ids|
    ensures forall x :: x in r <==> x in ids
    ensures forall i, j :: 0 <= i < j < |r| ==> r[i] < r[j]
  {
    SortedBy(ids, NoKey)
  }

  /** Mongo's `.limit(n)`: at most `n` results, where a limit of 0 means no
      limit at all. */
  function Limit<T>(s: seq<T>, n: nat): (r: seq<T>)
    ensures n == 0 || |s| <= n ==> r == s
    ensures 0 < n < |s| ==> |r| == n && r == s[..n]
    ensures |r| <= |s| && r == s[..|r|]
  {
    if n == 0 || |s| <= n then s else s[..n]
  }

  /** A limited sorted listing is sorted, and everything it leaves out
      comes after everything it keeps. */
  lemma LimitOfSorted(ids: set<Id>, key: Id -> int, n: nat)
    ensures var r := Limit(SortedBy(ids, key), n);
      && |r| == (if n == 0 || |ids| <= n then |ids| else n)
      && (forall i :: 0 <= i < |r| ==> r[i] in ids)
      && (forall i, j :: 0 <= i < j < |r| ==> Precedes(key, r[i], r[j]) && r[i] != r[j])
      && (forall x, i :: x in ids && x !in r && 0 <= i < |r| ==> Precedes(key, r[i], x))
  {
    var all := SortedBy(ids, key);
    var r := Limit(all, n);
    forall i | 0 <= i < |r|
      ensures r[i] == all[i] && r[i] in ids
    {
      assert all[i] in all;
    }
    forall x, i | x in ids && x !in r && 0 <= i < |r|
      ensures Precedes(key, r[i], x)
    {
      assert x in all;
      var p :| 0 <= p < |all| && all[p] == x;
      assert i < p;
    }
  }

  /** Sort key of `sort("+<stamp>")` over the records of `m`. */
  function OldestKey<T>(m: map<Id, T>, stamp: T -> Time): Id -> int
  {
    id => if id in m then stamp(m[id]) else 0
  }

  /** Sort key of `sort("-<stamp>")` over the records of `m`. */
  function NewestKey<T>(m: map<Id, T>, stamp: T -> Time): Id -> int
  {
    id => if id in m then -stamp(m[id]) else 0
  }

  /** The records `ids` of `m`, oldest first; records with the same stamp
      keep insertion (id) order. */
  function OldestFirstOf<T>(m: map<Id, T>, ids: set<Id>, stamp: T -> Time): (r: seq<Id>)
    requires ids <= m.Keys
    ensures |r| == |ids|
    ensures forall id :: id in r <==> id in ids
    ensures forall i, j :: 0 <= i < j < |r| ==> (r[i] != r[j] &&
      (stamp(m[r[i]]) < stamp(m[r[j]]) || (stamp(m[r[i]]) == stamp(m[r[j]]) && r[i] < r[j])))
  {
    var r := SortedBy(ids, OldestKey(m, stamp));
    Ascending(m, ids, stamp, r);
    r
  }

  lemma Ascending<T>(m: map<Id, T>, ids: set<Id>, stamp: T -> Time, r: seq<Id>)
    requires ids <= m.Keys
    requires forall id :: id in r <==> id in ids
    requires forall i, j :: 0 <= i < j < |r| ==> Precedes(OldestKey(m, stamp), r[i], r[j]) && r[i] != r[j]
    ensures forall i, j :: 0 <= i < j < |r| ==> (r[i] != r[j] &&
      (stamp(m[r[i]]) < stamp(m[r[j]]) || (stamp(m[r[i]]) == stamp(m[r[j]]) && r[i] < r[j])))
  {
    forall i, j | 0 <= i < j < |r|
      ensures stamp(m[r[i]]) < stamp(m[r[j]]) || (stamp(m[r[i]]) == stamp(m[r[j]]) && r[i] < r[j])
    {
      assert r[i] in ids && r[j] in ids;
      assert Precedes(OldestKey(m, stamp), r[i], r[j]) && r[i] != r[j];
    }
  }

  /** The records `ids` of `m`, newest first; records with the same stamp
      keep insertion (id) order. */
  function NewestFirstOf<T>(m: map<Id, T>, ids: set<Id>, stamp: T -> Time): (r: seq<Id>)
    requires ids <= m.Keys
    ensures |r| == |ids|
    ensures forall id :: id in r <==> id in ids
    ensures forall i, j :: 0 <= i < j < |r| ==> (r[i] != r[j] &&
      (stamp(m[r[i]]) > stamp(m[r[j]]) || (stamp(m[r[i]]) == stamp(m[r[j]]) && r[i] < r[j])))
  {
    var r := SortedBy(ids, NewestKey(m, stamp));
    Descending(m, ids, stamp, r);
    r
  }

  lemma Descending<T>(m: map<Id, T>, ids: set<Id>, stamp: T -> Time, r: seq<Id>)
    requires ids <= m.Keys
    requires forall id :: id in r <==> id in ids
    requires forall i, j :: 0 <= i < j < |r| ==> Precedes(NewestKey(m, stamp), r[i], r[j]) && r[i] != r[j]
    ensures forall i, j :: 0 <= i < j < |r| ==> (r[i] != r[j] &&
      (stamp(m[r[i]]) > stamp(m[r[j]]) || (stamp(m[r[i]]) == stamp(m[r[j]]) && r[i] < r[j])))
  {
    forall i, j | 0 <= i < j < |r|
      ensures stamp(m[r[i]]) > stamp(m[r[j]]) || (stamp(m[r[i]]) == stamp(m[r[j]]) && r[i] < r[j])
    {
      assert r[i] in ids && r[j] in ids;
      assert Precedes(NewestKey(m, stamp), r[i], r[j]) && r[i] != r[j];
    }
  }
}
