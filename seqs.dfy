/** Sequences without repeated values, the form a JavaScript `Set` or a table
    of distinct entries takes when it is enumerated. */
module Seqs {
  predicate Distinct<T(==)>(s: seq<T>) {
    forall i, j :: 0 <= i < j < |s| ==> s[i] != s[j]
  }

  /** In a distinct sequence every value occurs at most once. */
  lemma {:induction false} DistinctMultiplicity<T>(s: seq<T>, v: T)
    requires Distinct(s)
    ensures multiset(s)[v] == if v in s then 1 else 0
    decreases |s|
  {
    if s != [] {
      assert s == [s[0]] + s[1..];
      assert Distinct(s[1..]);
      DistinctMultiplicity(s[1..], v);
    }
  }

  /** Two distinct sequences with the same elements are permutations of each
      other. */
  lemma DistinctSameElements<T>(a: seq<T>, b: seq<T>)
    requires Distinct(a) && Distinct(b)
    requires forall v :: v in a <==> v in b
    ensures multiset(a) == multiset(b)
  {
    forall v ensures multiset(a)[v] == multiset(b)[v] {
      DistinctMultiplicity(a, v);
      DistinctMultiplicity(b, v);
    }
  }

  /** A listing along which some numbering strictly increases has no
      repeated element. */
  lemma IncreasingDistinct<T>(s: seq<T>, code: T -> int)
    requires forall i :: 0 <= i < |s| - 1 ==> code(s[i]) < code(s[i + 1])
    ensures Distinct(s)
  {
    forall i, j | 0 <= i < j < |s| ensures s[i] != s[j] {
      CodesIncrease(s, code, i, j);
    }
  }

  lemma {:induction false} CodesIncrease<T>(s: seq<T>, code: T -> int, i: int, j: int)
    requires forall k :: 0 <= k < |s| - 1 ==> code(s[k]) < code(s[k + 1])
    requires 0 <= i < j < |s|
    ensures code(s[i]) < code(s[j])
    decreases j - i
  {
    if i + 1 < j {
      CodesIncrease(s, code, i + 1, j);
    }
  }
}
