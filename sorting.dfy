/** Array.prototype.sort with a numeric comparator `(a, b) => key(a) - key(b)`:
    a stable ascending sort, written as an insertion sort in which each
    element goes after every element whose key is not larger. */
module Sorting {

  predicate SortedBy<T>(s: seq<T>, key: T -> real) {
    forall i, j :: 0 <= i < j < |s| ==> key(s[i]) <= key(s[j])
  }

  /** `s` with `x` placed after every element whose key is at most `key(x)`. */
  function InsertBy<T>(s: seq<T>, x: T, key: T -> real): (r: seq<T>)
    requires SortedBy(s, key)
    ensures SortedBy(r, key)
    ensures multiset(r) == multiset(s) + multiset{x}
    ensures |r| == |s| + 1
  {
    if s == [] then [x]
    else if key(s[|s| - 1]) <= key(x) then s + [x]
    else
      var front, last := s[..|s| - 1], s[|s| - 1];
      assert s == front + [last];
      var ins := InsertBy(front, x, key);
      BoundedByLast(front, x, last, ins, key);
      ins + [last]
  }

  /** Every element of `ins`, a rearrangement of `front` and `x`, has a key at
      most that of `last`. */
  lemma BoundedByLast<T>(front: seq<T>, x: T, last: T, ins: seq<T>, key: T -> real)
    requires SortedBy(front + [last], key)
    requires key(x) < key(last)
    requires multiset(ins) == multiset(front) + multiset{x}
    ensures forall i :: 0 <= i < |ins| ==> key(ins[i]) <= key(last)
  {
    forall i | 0 <= i < |ins|
      ensures key(ins[i]) <= key(last)
    {
      assert ins[i] in multiset(ins);
      if ins[i] != x {
        assert ins[i] in multiset(front);
        var j :| 0 <= j < |front| && front[j] == ins[i];
        assert (front + [last])[j] == front[j];
        assert (front + [last])[|front|] == last;
      }
    }
  }

  /** The elements of `s`, stably sorted by `key`. */
  function SortBy<T>(s: seq<T>, key: T -> real): (r: seq<T>)
    ensures SortedBy(r, key)
    ensures multiset(r) == multiset(s)
    ensures |r| == |s|
  {
    if s == [] then []
    else
      assert s == s[..|s| - 1] + [s[|s| - 1]];
      InsertBy(SortBy(s[..|s| - 1], key), s[|s| - 1], key)
  }

  /** Sorting already sorted data changes nothing. */
  lemma {:induction false} SortSorted<T>(s: seq<T>, key: T -> real)
    requires SortedBy(s, key)
    ensures SortBy(s, key) == s
  {
    if s != [] {
      var front, last := s[..|s| - 1], s[|s| - 1];
      assert s == front + [last];
      assert SortedBy(front, key);
      SortSorted(front, key);
      assert front != [] ==> key(front[|front| - 1]) <= key(last);
      assert SortBy(s, key) == InsertBy(front, last, key);
    }
  }
}
