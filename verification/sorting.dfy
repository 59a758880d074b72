/** Ascending sort of a row of distances. The source sorts each row with the
    platform's array sort; only that sort's postcondition matters here, so it
    is realised as an insertion sort whose contract is exactly "a sorted
    permutation of the input". */
module Sorting {
  import opened Counting

  /** Insert `x` into the sorted row `s`, keeping it sorted. */
  function Insert(x: real, s: seq<real>): (r: seq<real>)
    requires Sorted(s)
    ensures Sorted(r)
    ensures multiset(r) == multiset(s) + multiset{x}
  {
    if |s| == 0 then [x]
    else if x <= s[0] then [x] + s
    else
      var tail := Insert(x, s[1..]);
      assert s == [s[0]] + s[1..];
      BoundKept(s[1..], x, tail, s[0]);
      [s[0]] + tail
  }

  /** A lower bound of every entry of `s` and of `x` bounds every entry of
      a row made of exactly those values. */
  lemma BoundKept(s: seq<real>, x: real, t: seq<real>, lo: real)
    requires forall i :: 0 <= i < |s| ==> lo <= s[i]
    requires lo <= x
    requires multiset(t) == multiset(s) + multiset{x}
    ensures forall i :: 0 <= i < |t| ==> lo <= t[i]
  {
    forall i | 0 <= i < |t|
      ensures lo <= t[i]
    {
      assert t[i] in multiset(t);
      if t[i] != x {
        assert t[i] in multiset(s);
      }
    }
  }

  /** Some ascending permutation of the row. */
  function SortAscending(s: seq<real>): (r: seq<real>)
    ensures Sorted(r)
    ensures multiset(r) == multiset(s)
  {
    if |s| == 0 then []
    else
      assert s == [s[0]] + s[1..];
      Insert(s[0], SortAscending(s[1..]))
  }
}
