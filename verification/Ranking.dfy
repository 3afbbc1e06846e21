/** Where an element lands when a duplicate-free sequence is sorted. */
module Ranking {
  import opened Sorting
  import opened Counting

  ghost predicate NoDuplicates<T>(s: seq<T>) { forall i, j :: 0 <= i < j < |s| ==> s[i] != s[j] }

  lemma NoDuplicatesPermutes<T>(a: seq<T>, b: seq<T>)
    requires NoDuplicates(a) && multiset(a) == multiset(b)
    ensures NoDuplicates(b)
  {
    forall i, j | 0 <= i < j < |b| ensures b[i] != b[j] {
      if b[i] == b[j] {
        TwiceMeansTwo(b, i, j);
        assert b[i] in multiset(a);
        var k :| 0 <= k < |a| && a[k] == b[i];
        OnceMeansOne(a, k);
      }
    }
  }

  /** Element j comes before element i in sorted order. */
  ghost predicate Ahead<T>(s: seq<T>, key: T -> real, j: int, i: int) {
    0 <= j < |s| && 0 <= i < |s| && j != i && (key(s[j]) < key(s[i]) || (key(s[j]) == key(s[i]) && j < i))
  }

  ghost function AllAhead<T>(s: seq<T>, key: T -> real, i: int): set<int> {
    set j | 0 <= j < |s| && Ahead(s, key, j, i)
  }

  function Upto(n: nat): (r: set<int>)
    ensures forall k :: k in r <==> 0 <= k < n
  {
    if n == 0 then {} else Upto(n - 1) + {n - 1}
  }

  lemma {:induction false} UptoSize(n: nat)
    ensures |Upto(n)| == n
  {
    if n > 0 { UptoSize(n - 1); }
  }

  /** An element stands before position p of the sorted sequence exactly when it is ahead. */
  lemma BeforeMeansAhead<T>(s: seq<T>, key: T -> real, i: int, p: int, j: int, q: int)
    requires NoDuplicates(s) && 0 <= i < |s| && 0 <= j < |s|
    requires NoDuplicates(SortBy(s, key))
    requires 0 <= p < |SortBy(s, key)| && SortBy(s, key)[p] == s[i]
    requires 0 <= q < |SortBy(s, key)| && SortBy(s, key)[q] == s[j]
    ensures q < p <==> Ahead(s, key, j, i)
  {
    hide SortBy;
    var r := SortBy(s, key);
    if i != j {
      if Ahead(s, key, j, i) {
        SortPrecedes(s, j, i, key);
        var a, b :| 0 <= a < b < |r| && r[a] == s[j] && r[b] == s[i];
        assert a == q && b == p;
      } else {
        SortPrecedes(s, i, j, key);
        var a, b :| 0 <= a < b < |r| && r[a] == s[i] && r[b] == s[j];
        assert a == p && b == q;
      }
    }
  }

  /** The sorted position of an element is the number of elements ahead of it. */
  lemma RankExact<T>(s: seq<T>, key: T -> real, i: int) returns (p: int)
    requires NoDuplicates(s) && 0 <= i < |s|
    ensures 0 <= p < |SortBy(s, key)| && SortBy(s, key)[p] == s[i]
    ensures p == |AllAhead(s, key, i)|
  {
    hide SortBy;
    var r := SortBy(s, key);
    SortPermutes(s, key);
    NoDuplicatesPermutes(s, r);
    assert s[i] in multiset(s) && s[i] in multiset(r);
    p :| 0 <= p < |r| && r[p] == s[i];
    var value := (j: int) => if 0 <= j < |s| then [s[j]] else [];
    var at := (q: int) => if 0 <= q < |r| then [r[q]] else [];
    var before, ahead := Image(Upto(p), at), Image(AllAhead(s, key, i), value);
    forall v | v in before ensures v in ahead {
      var q :| q in Upto(p) && at(q) == v;
      assert r[q] in multiset(r) && r[q] in multiset(s);
      var j :| 0 <= j < |s| && s[j] == r[q];
      BeforeMeansAhead(s, key, i, p, j, q);
      assert j in AllAhead(s, key, i) && value(j) == v;
    }
    forall v | v in ahead ensures v in before {
      var j :| j in AllAhead(s, key, i) && value(j) == v;
      assert s[j] in multiset(s) && s[j] in multiset(r);
      var q :| 0 <= q < |r| && r[q] == s[j];
      BeforeMeansAhead(s, key, i, p, j, q);
      assert q in Upto(p) && at(q) == v;
    }
    assert before == ahead;
    InjectiveImage(Upto(p), at);
    InjectiveImage(AllAhead(s, key, i), value);
    UptoSize(p);
  }
}
