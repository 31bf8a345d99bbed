/** Order and uniqueness of integer sequences, shared by the table model and the object model. */
module Sequences {

  /** Strictly increasing: every element is smaller than every later one. */
  predicate Increasing(s: seq<int>) {
    forall i, j :: 0 <= i < j < |s| ==> s[i] < s[j]
  }

  /** No element occurs twice. */
  predicate Distinct<T(==)>(s: seq<T>) {
    forall i, j :: 0 <= i < j < |s| ==> s[i] != s[j]
  }

  /** At most one element, no larger than `bound`, in front of increasing elements above `bound`. */
  lemma IncreasingAfter(head: seq<int>, rest: seq<int>, bound: int)
    requires |head| <= 1 && (forall x :: x in head ==> x <= bound)
    requires Increasing(rest) && forall x :: x in rest ==> bound < x
    ensures Increasing(head + rest)
  {
    var all := head + rest;
    forall i, j | 0 <= i < j < |all| ensures all[i] < all[j] {
      assert all[j] == rest[j - |head|] && all[j] in rest;
      if i >= |head| {
        assert all[i] == rest[i - |head|];
      } else {
        assert all[i] == head[i] && all[i] in head;
      }
    }
  }

  /** The first element of an increasing sequence lies below all the others, and the rest is increasing. */
  lemma IncreasingFirst(s: seq<int>)
    requires Increasing(s) && s != []
    ensures s == [s[0]] + s[1..] && Increasing(s[1..])
    ensures forall y :: y in s[1..] ==> s[0] < y
  {
  }

  /** Putting an element in front of the first part puts it in front of the whole. */
  lemma ConsConcat<T>(x: T, a: seq<T>, b: seq<T>, whole: seq<T>)
    requires a + b == whole
    ensures ([x] + a) + b == [x] + whole
  {
  }

  /** Two sequences without repeats and without a common element concatenate to one without repeats. */
  lemma DistinctConcat<T>(a: seq<T>, b: seq<T>)
    requires Distinct(a) && Distinct(b) && forall x :: x in a ==> x !in b
    ensures Distinct(a + b)
  {
    var all := a + b;
    forall i, j | 0 <= i < j < |all| ensures all[i] != all[j] {
      if j < |a| {
        assert all[i] == a[i] && all[j] == a[j];
      } else if i < |a| {
        assert all[i] == a[i] && all[j] == b[j - |a|];
        assert all[i] in a && all[j] in b;
      } else {
        assert all[i] == b[i - |a|] && all[j] == b[j - |a|];
      }
    }
  }

  /** A sequence with a first element has no repeats exactly when its tail has none and lacks that element. */
  lemma DistinctCons<T>(x: T, s: seq<T>)
    ensures Distinct([x] + s) <==> x !in s && Distinct(s)
  {
    var all := [x] + s;
    if x !in s && Distinct(s) {
      forall i, j | 0 <= i < j < |all| ensures all[i] != all[j] {
        assert all[j] == s[j - 1] && all[j] in s;
        if i > 0 {
          assert all[i] == s[i - 1];
        }
      }
    }
    if Distinct(all) {
      forall k | 0 <= k < |s| ensures s[k] != x {
        assert all[0] == x && all[k + 1] == s[k];
      }
      forall i, j | 0 <= i < j < |s| ensures s[i] != s[j] {
        assert all[i + 1] == s[i] && all[j + 1] == s[j];
      }
    }
  }

  /** In a sequence without repeats every element occurs exactly once. */
  lemma {:induction false} DistinctCount<T>(s: seq<T>, x: T)
    requires Distinct(s)
    ensures multiset(s)[x] == if x in s then 1 else 0
  {
    if s != [] {
      DistinctCons(s[0], s[1..]);
      assert s == [s[0]] + s[1..];
      DistinctCount(s[1..], x);
    }
  }

  lemma IncreasingIsDistinct(s: seq<int>)
    requires Increasing(s)
    ensures Distinct(s)
  {
  }
}
