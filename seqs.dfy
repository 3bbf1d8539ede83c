/** Sequence facts used by the catalog: the duplicate-free, first-seen
    ordering that an `includes`-guarded `push` loop produces. */
module Seqs {

  predicate NoDup<T(==)>(s: seq<T>) {
    forall i, j :: 0 <= i < j < |s| ==> s[i] != s[j]
  }

  /** In a duplicate-free sequence equal elements sit at equal positions. */
  lemma NoDupIndex<T>(s: seq<T>, i: nat, j: nat)
    requires NoDup(s) && i < |s| && j < |s| && s[i] == s[j]
    ensures i == j
  {
  }

  /** Position of the first occurrence of `x` in `s`. */
  function FirstIndex<T(==)>(s: seq<T>, x: T): (k: nat)
    requires x in s
    ensures k < |s| && s[k] == x && x !in s[..k]
  {
    if s[0] == x then 0 else 1 + FirstIndex(s[1..], x)
  }

  /** Keeps the first occurrence of every element, dropping later repeats:
      appending `x` to the collected list only when it is not already there. */
  function Distinct<T(==)>(s: seq<T>): (r: seq<T>)
    ensures forall i :: 0 <= i < |r| ==> r[i] in s
    ensures |r| <= |s|
  {
    if s == [] then []
    else
      var p := Distinct(s[..|s| - 1]);
      if s[|s| - 1] in p then p else p + [s[|s| - 1]]
  }

  /** Distinct leaves no duplicates. */
  lemma {:induction false} DistinctNoDup<T>(s: seq<T>)
    ensures NoDup(Distinct(s))
  {
    if s != [] {
      DistinctNoDup(s[..|s| - 1]);
    }
  }

  /** Distinct keeps every element and adds none. */
  lemma {:induction false} DistinctMembers<T>(s: seq<T>, x: T)
    ensures x in Distinct(s) <==> x in s
  {
    if s != [] {
      var n := |s| - 1;
      DistinctMembers(s[..n], x);
      assert s == s[..n] + [s[n]];
      assert x in s <==> x in s[..n] || x == s[n];
    }
  }

  lemma FirstIndexUnique<T>(s: seq<T>, x: T, k: nat)
    requires k < |s| && s[k] == x && x !in s[..k]
    ensures FirstIndex(s, x) == k
  {
  }

  /** In a duplicate-free sequence every element's first occurrence is its
      only one. */
  lemma FirstIndexAt<T>(s: seq<T>, k: nat)
    requires NoDup(s) && k < |s|
    ensures FirstIndex(s, s[k]) == k
  {
    FirstIndexUnique(s, s[k], k);
  }

  /** The first occurrence of an element of a prefix lies in that prefix. */
  lemma FirstIndexInPrefix<T>(s: seq<T>, n: nat, x: T)
    requires n <= |s| && x in s[..n]
    ensures FirstIndex(s, x) == FirstIndex(s[..n], x)
  {
    var k := FirstIndex(s[..n], x);
    assert s[..n][..k] == s[..k];
    FirstIndexUnique(s, x, k);
  }

  /** Distinct lists the elements in the order of their first occurrence. */
  lemma {:induction false} DistinctFirstSeen<T>(s: seq<T>)
    ensures forall i, j :: 0 <= i < j < |Distinct(s)| ==>
      FirstIndex(s, Distinct(s)[i]) < FirstIndex(s, Distinct(s)[j])
  {
    if s != [] {
      var n := |s| - 1;
      var p := Distinct(s[..n]);
      DistinctFirstSeen(s[..n]);
      forall x | x in p ensures FirstIndex(s, x) == FirstIndex(s[..n], x) < n {
        FirstIndexInPrefix(s, n, x);
      }
      if s[n] !in p {
        DistinctMembers(s[..n], s[n]);
        FirstIndexUnique(s, s[n], n);
      }
    }
  }

  /** Appending an element that is already present does not change Distinct;
      appending a new one puts it last. */
  lemma DistinctSnoc<T>(s: seq<T>, x: T)
    ensures Distinct(s + [x]) == if x in s then Distinct(s) else Distinct(s) + [x]
  {
    assert (s + [x])[..|s|] == s;
    DistinctMembers(s, x);
  }

  /** A list that is already duplicate-free is its own Distinct. */
  lemma {:induction false} DistinctOfNoDup<T>(s: seq<T>)
    requires NoDup(s)
    ensures Distinct(s) == s
  {
    if s != [] {
      var n := |s| - 1;
      assert NoDup(s[..n]);
      DistinctOfNoDup(s[..n]);
      assert s[n] !in s[..n];
      DistinctMembers(s[..n], s[n]);
      assert s[..n] + [s[n]] == s;
    }
  }

  /** A subset is no larger than its superset. */
  lemma SubsetCard<T>(x: set<T>, y: set<T>)
    requires x <= y
    ensures |x| <= |y|
  {
    assert y == x + (y - x);
  }
}
