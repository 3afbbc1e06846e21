/**
 Python's sort: stable, by a key. The characterisation below fixes it completely:
 an ascending arrangement that keeps, for every key value, the elements with that
 key in their old order is the sorted sequence. A descending sort with
 reverse=True is the sort by the negated key.
*/
module Sorting {

  function Insert<T>(x: T, s: seq<T>, key: T -> real): seq<T> {
    if s == [] || key(x) <= key(s[0]) then [x] + s else [s[0]] + Insert(x, s[1..], key)
  }

  function SortBy<T>(s: seq<T>, key: T -> real): seq<T> {
    if s == [] then [] else Insert(s[0], SortBy(s[1..], key), key)
  }

  ghost predicate Ascending<T>(s: seq<T>, key: T -> real) {
    forall i, j :: 0 <= i < j < |s| ==> key(s[i]) <= key(s[j])
  }

  function KeyUnit<T>(x: T, key: T -> real, v: real): seq<T> { if key(x) == v then [x] else [] }

  function WithKey<T>(s: seq<T>, key: T -> real, v: real): seq<T> {
    if s == [] then [] else KeyUnit(s[0], key, v) + WithKey(s[1..], key, v)
  }

  lemma {:induction false} InsertPermutes<T>(x: T, s: seq<T>, key: T -> real)
    ensures multiset(Insert(x, s, key)) == multiset{x} + multiset(s)
    ensures |Insert(x, s, key)| == |s| + 1
  {
    if s == [] || key(x) <= key(s[0]) {
    } else {
      InsertPermutes(x, s[1..], key);
      assert s == [s[0]] + s[1..];
    }
  }

  lemma {:induction false} InsertAscending<T>(x: T, s: seq<T>, key: T -> real)
    requires Ascending(s, key)
    ensures Ascending(Insert(x, s, key), key)
  {
    if s == [] || key(x) <= key(s[0]) {
    } else {
      var r := Insert(x, s[1..], key);
      InsertAscending(x, s[1..], key);
      InsertPermutes(x, s[1..], key);
      forall k | 0 <= k < |r| ensures key(s[0]) <= key(r[k]) {
        assert r[k] in multiset(r);
        if r[k] != x {
          assert r[k] in s[1..];
        }
      }
    }
  }

  lemma WithKeyCons<T>(x: T, s: seq<T>, key: T -> real, v: real)
    ensures WithKey([x] + s, key, v) == KeyUnit(x, key, v) + WithKey(s, key, v)
  {
    assert ([x] + s)[1..] == s;
  }

  lemma {:induction false} InsertStable<T>(x: T, s: seq<T>, key: T -> real, v: real)
    requires Ascending(s, key)
    ensures WithKey(Insert(x, s, key), key, v) == KeyUnit(x, key, v) + WithKey(s, key, v)
  {
    if s == [] || key(x) <= key(s[0]) {
      WithKeyCons(x, s, key, v);
    } else {
      var t := s[1..];
      InsertStable(x, t, key, v);
      WithKeyCons(s[0], Insert(x, t, key), key, v);
      WithKeyCons(s[0], t, key, v);
      assert s == [s[0]] + t;
      assert KeyUnit(x, key, v) == [] || KeyUnit(s[0], key, v) == [];
    }
  }

  /** The elements under each key are the same, in the same order. */
  ghost predicate SameByKey<T>(a: seq<T>, b: seq<T>, key: T -> real) {
    forall v :: WithKey(a, key, v) == WithKey(b, key, v)
  }

  lemma {:induction false} SortPermutes<T>(s: seq<T>, key: T -> real)
    ensures multiset(SortBy(s, key)) == multiset(s)
    ensures |SortBy(s, key)| == |s|
  {
    if s != [] {
      SortPermutes(s[1..], key);
      InsertPermutes(s[0], SortBy(s[1..], key), key);
      assert s == [s[0]] + s[1..];
    }
  }

  lemma {:induction false} SortAscending<T>(s: seq<T>, key: T -> real)
    ensures Ascending(SortBy(s, key), key)
  {
    if s != [] {
      SortAscending(s[1..], key);
      InsertAscending(s[0], SortBy(s[1..], key), key);
    }
  }

  lemma {:induction false} SortStableAt<T>(s: seq<T>, key: T -> real, v: real)
    ensures WithKey(SortBy(s, key), key, v) == WithKey(s, key, v)
  {
    if s != [] {
      SortStableAt(s[1..], key, v);
      SortAscending(s[1..], key);
      InsertStable(s[0], SortBy(s[1..], key), key, v);
    }
  }

  lemma SortStable<T>(s: seq<T>, key: T -> real)
    ensures SameByKey(SortBy(s, key), s, key)
  {
    forall v ensures WithKey(SortBy(s, key), key, v) == WithKey(s, key, v) {
      SortStableAt(s, key, v);
    }
  }

  lemma {:induction false} WithKeyEmpty<T>(s: seq<T>, key: T -> real, v: real)
    ensures WithKey(s, key, v) == [] <==> forall i :: 0 <= i < |s| ==> key(s[i]) != v
  {
    if s != [] {
      WithKeyEmpty(s[1..], key, v);
      if key(s[0]) != v && forall i :: 0 <= i < |s[1..]| ==> key(s[1..][i]) != v {
        forall i | 0 <= i < |s| ensures key(s[i]) != v {
          if i > 0 { assert s[1..][i - 1] == s[i]; }
        }
      }
    }
  }

  /** Two ascending sequences with the same elements under every key are equal. */
  lemma {:induction false} AscendingUnique<T>(a: seq<T>, b: seq<T>, key: T -> real)
    requires Ascending(a, key) && Ascending(b, key)
    requires SameByKey(a, b, key)
    ensures a == b
    decreases |a|
  {
    if a == [] || b == [] {
      if a != [] { WithKeyEmpty(a, key, key(a[0])); WithKeyEmpty(b, key, key(a[0])); }
      if b != [] { WithKeyEmpty(a, key, key(b[0])); WithKeyEmpty(b, key, key(b[0])); }
    } else {
      WithKeyEmpty(a, key, key(b[0]));
      WithKeyEmpty(b, key, key(a[0]));
      WithKeyEmpty(a, key, key(a[0]));
      WithKeyEmpty(b, key, key(b[0]));
      assert key(a[0]) == key(b[0]);
      assert WithKey(a, key, key(a[0]))[0] == WithKey(b, key, key(a[0]))[0];
      forall v ensures WithKey(a[1..], key, v) == WithKey(b[1..], key, v) {
        var h := KeyUnit(a[0], key, v);
        assert h + WithKey(a[1..], key, v) == WithKey(a, key, v) == WithKey(b, key, v) == h + WithKey(b[1..], key, v);
        assert (h + WithKey(a[1..], key, v))[|h|..] == WithKey(a[1..], key, v);
        assert (h + WithKey(b[1..], key, v))[|h|..] == WithKey(b[1..], key, v);
      }
      AscendingUnique(a[1..], b[1..], key);
      assert a == [a[0]] + a[1..] && b == [b[0]] + b[1..];
    }
  }

  /** The defining property of the sort: it is the only stable ascending rearrangement. */
  lemma SortIsTheStableArrangement<T>(s: seq<T>, r: seq<T>, key: T -> real)
    ensures r == SortBy(s, key) <==> Ascending(r, key) && SameByKey(r, s, key)
  {
    SortAscending(s, key);
    SortStable(s, key);
    if Ascending(r, key) && SameByKey(r, s, key) {
      assert SameByKey(r, SortBy(s, key), key);
      AscendingUnique(r, SortBy(s, key), key);
    }
  }

  ghost predicate Precedes<T>(r: seq<T>, x: T, y: T) {
    exists p, q :: 0 <= p < q < |r| && r[p] == x && r[q] == y
  }

  lemma {:induction false} InsertBeforeLarger<T>(x: T, s: seq<T>, key: T -> real, y: T)
    requires Ascending(s, key) && y in s && key(x) <= key(y)
    ensures Precedes(Insert(x, s, key), x, y)
  {
    var r := Insert(x, s, key);
    if key(x) <= key(s[0]) {
      var q :| 0 <= q < |s| && s[q] == y;
      assert r[0] == x && r[q + 1] == y;
    } else {
      InsertBeforeLarger(x, s[1..], key, y);
      var p, q :| 0 <= p < q < |Insert(x, s[1..], key)| &&
        Insert(x, s[1..], key)[p] == x && Insert(x, s[1..], key)[q] == y;
      assert r[p + 1] == x && r[q + 1] == y;
    }
  }

  lemma {:induction false} InsertKeepsPrecedes<T>(z: T, s: seq<T>, key: T -> real, p: nat, q: nat)
    requires p < q < |s|
    ensures Precedes(Insert(z, s, key), s[p], s[q])
  {
    var r := Insert(z, s, key);
    if key(z) <= key(s[0]) {
      assert r[p + 1] == s[p] && r[q + 1] == s[q];
    } else if p == 0 {
      InsertPermutes(z, s[1..], key);
      assert s[1..][q - 1] == s[q] && s[q] in multiset(s[1..]);
      assert s[q] in multiset(Insert(z, s[1..], key));
      var k :| 0 <= k < |Insert(z, s[1..], key)| && Insert(z, s[1..], key)[k] == s[q];
      assert r[0] == s[0] && r[k + 1] == s[q];
    } else {
      InsertKeepsPrecedes(z, s[1..], key, p - 1, q - 1);
      var t := Insert(z, s[1..], key);
      var a, b :| 0 <= a < b < |t| && t[a] == s[1..][p - 1] && t[b] == s[1..][q - 1];
      assert r[a + 1] == s[p] && r[b + 1] == s[q];
    }
  }

  lemma {:induction false} SortKeepsTies<T>(s: seq<T>, i: nat, j: nat, key: T -> real)
    requires i < j < |s| && key(s[i]) <= key(s[j])
    ensures Precedes(SortBy(s, key), s[i], s[j])
  {
    var t := SortBy(s[1..], key);
    if i == 0 {
      SortPermutes(s[1..], key);
      SortAscending(s[1..], key);
      assert s[1..][j - 1] == s[j] && s[j] in multiset(s[1..]);
      assert s[j] in multiset(t);
      InsertBeforeLarger(s[0], t, key, s[j]);
    } else {
      SortKeepsTies(s[1..], i - 1, j - 1, key);
      var p, q :| 0 <= p < q < |t| && t[p] == s[1..][i - 1] && t[q] == s[1..][j - 1];
      InsertKeepsPrecedes(s[0], t, key, p, q);
    }
  }

  /** Sorted order: by key, and by old position among equal keys. */
  lemma SortPrecedes<T>(s: seq<T>, i: nat, j: nat, key: T -> real)
    requires i < |s| && j < |s|
    requires key(s[i]) < key(s[j]) || (key(s[i]) == key(s[j]) && i < j)
    ensures Precedes(SortBy(s, key), s[i], s[j])
  {
    hide SortBy;
    if i < j {
      SortKeepsTies(s, i, j, key);
    } else {
      SortPermutes(s, key);
      SortAscending(s, key);
      assert s[i] in multiset(s) && s[j] in multiset(s);
      AscendingPrecedes(SortBy(s, key), s[i], s[j], key);
    }
  }

  lemma AscendingPrecedes<T>(r: seq<T>, x: T, y: T, key: T -> real)
    requires Ascending(r, key) && x in multiset(r) && y in multiset(r) && key(x) < key(y)
    ensures Precedes(r, x, y)
  {
    var p :| 0 <= p < |r| && r[p] == x;
    var q :| 0 <= q < |r| && r[q] == y;
  }

  ghost predicate DistinctKeys<T>(s: seq<T>, key: T -> real) {
    forall i, j :: 0 <= i < j < |s| ==> key(s[i]) != key(s[j])
  }

  lemma {:induction false} WithKeySingle<T>(s: seq<T>, key: T -> real, i: nat)
    requires i < |s| && DistinctKeys(s, key)
    ensures WithKey(s, key, key(s[i])) == [s[i]]
  {
    if i == 0 {
      WithKeyEmpty(s[1..], key, key(s[0]));
    } else {
      assert key(s[0]) != key(s[i]);
      WithKeySingle(s[1..], key, i - 1);
    }
  }

  /** With pairwise distinct keys the sorted sequence does not depend on the order of the input. */
  lemma DistinctSortUnique<T>(a: seq<T>, b: seq<T>, key: T -> real)
    requires multiset(a) == multiset(b) && DistinctKeys(a, key) && DistinctKeys(b, key)
    ensures SortBy(a, key) == SortBy(b, key)
  {
    forall v ensures WithKey(a, key, v) == WithKey(b, key, v) {
      WithKeyEmpty(a, key, v);
      WithKeyEmpty(b, key, v);
      if i :| 0 <= i < |a| && key(a[i]) == v {
        assert a[i] in multiset(a);
        var j :| 0 <= j < |b| && b[j] == a[i];
        WithKeySingle(a, key, i);
        WithKeySingle(b, key, j);
      } else {
        forall j | 0 <= j < |b| ensures key(b[j]) != v {
          assert b[j] in multiset(b);
          var i :| 0 <= i < |a| && a[i] == b[j];
        }
      }
    }
    SortAscending(a, key);
    SortStable(a, key);
    assert SameByKey(SortBy(a, key), b, key);
    SortIsTheStableArrangement(b, SortBy(a, key), key);
  }
}
