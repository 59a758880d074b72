/** Counting facts about rows of distances: how many entries of a row lie
    within a radius, and what that count looks like once the row is sorted.
    These are the facts behind reading a sorted row at a fixed position. */
module Counting {

  /** The row is in ascending order. */
  predicate Sorted(s: seq<real>) {
    forall i, j :: 0 <= i < j < |s| ==> s[i] <= s[j]
  }

  /** Number of entries of `s` that are at most `r`. */
  function CountWithin(s: seq<real>, r: real): (c: nat)
    ensures c <= |s|
  {
    if |s| == 0 then 0
    else (if s[0] <= r then 1 else 0) + CountWithin(s[1..], r)
  }

  lemma {:induction false} CountConcat(a: seq<real>, b: seq<real>, r: real)
    ensures CountWithin(a + b, r) == CountWithin(a, r) + CountWithin(b, r)
  {
    if |a| == 0 {
      assert a + b == b;
    } else {
      assert (a + b)[1..] == a[1..] + b;
      CountConcat(a[1..], b, r);
    }
  }

  /** A row whose every entry is within `r` is counted in full. */
  lemma {:induction false} CountAllWithin(s: seq<real>, r: real)
    requires forall i :: 0 <= i < |s| ==> s[i] <= r
    ensures CountWithin(s, r) == |s|
  {
    if |s| > 0 {
      CountAllWithin(s[1..], r);
    }
  }

  /** A row whose every entry exceeds `r` contributes nothing. */
  lemma {:induction false} CountNoneWithin(s: seq<real>, r: real)
    requires forall i :: 0 <= i < |s| ==> r < s[i]
    ensures CountWithin(s, r) == 0
  {
    if |s| > 0 {
      CountNoneWithin(s[1..], r);
    }
  }

  /** Removing the entry at position k lowers the count by one exactly when
      that entry is within `r`. */
  lemma CountRemove(t: seq<real>, k: int, r: real)
    requires 0 <= k < |t|
    ensures CountWithin(t, r)
            == CountWithin(t[..k] + t[k + 1..], r) + (if t[k] <= r then 1 else 0)
  {
    assert t == t[..k] + ([t[k]] + t[k + 1..]);
    CountConcat(t[..k], [t[k]] + t[k + 1..], r);
    CountConcat([t[k]], t[k + 1..], r);
    CountConcat(t[..k], t[k + 1..], r);
  }

  /** Removing the entry at position k removes one copy of it from the
      row's multiset. */
  lemma MultisetRemove(t: seq<real>, k: int)
    requires 0 <= k < |t|
    ensures multiset(t[..k] + t[k + 1..]) == multiset(t) - multiset{t[k]}
  {
    assert t == t[..k] + [t[k]] + t[k + 1..];
  }

  /** A position at which a value of the row's multiset occurs. */
  lemma IndexOf(t: seq<real>, x: real) returns (k: int)
    requires x in multiset(t)
    ensures 0 <= k < |t| && t[k] == x
  {
    assert x in t;
    k :| 0 <= k < |t| && t[k] == x;
  }

  /** The count depends only on the multiset of entries, so reordering a
      row (sorting it, in particular) never changes it. */
  lemma {:induction false} CountPermutation(s: seq<real>, t: seq<real>, r: real)
    requires multiset(s) == multiset(t)
    ensures CountWithin(s, r) == CountWithin(t, r)
  {
    if |s| == 0 {
      assert |t| == |multiset(t)|;
    } else {
      var k := IndexOf(t, s[0]);
      var rest := t[..k] + t[k + 1..];
      RemoveMatching(s, t, k);
      CountPermutation(s[1..], rest, r);
      CountRemove(t, k, r);
    }
  }

  /** Taking the first entry off `s` and a matching entry off a permutation
      `t` of it leaves two rows that are still permutations of each other. */
  lemma RemoveMatching(s: seq<real>, t: seq<real>, k: int)
    requires multiset(s) == multiset(t)
    requires 0 < |s| && 0 <= k < |t| && t[k] == s[0]
    ensures multiset(s[1..]) == multiset(t[..k] + t[k + 1..])
  {
    MultisetRemove(t, k);
    assert s == [s[0]] + s[1..];
  }

  /** In a sorted row the entry at position k has at least k+1 entries
      (itself and everything before it) within it. */
  lemma SortedCountAtLeast(s: seq<real>, k: int)
    requires Sorted(s) && 0 <= k < |s|
    ensures CountWithin(s, s[k]) >= k + 1
  {
    assert s == s[..k + 1] + s[k + 1..];
    CountConcat(s[..k + 1], s[k + 1..], s[k]);
    CountAllWithin(s[..k + 1], s[k]);
  }

  /** In a sorted row any radius strictly below the entry at position k
      holds at most k entries: only those before position k can be in. */
  lemma SortedCountBelow(s: seq<real>, k: int, r: real)
    requires Sorted(s) && 0 <= k < |s| && r < s[k]
    ensures CountWithin(s, r) <= k
  {
    assert s == s[..k] + s[k..];
    CountConcat(s[..k], s[k..], r);
    CountNoneWithin(s[k..], r);
  }

  /** Reading position k of any ascending permutation of a row gives a
      radius that at least k+1 entries of the original row are within. */
  lemma OrderStatisticCovers(dists: seq<real>, row: seq<real>, k: int)
    requires Sorted(row) && multiset(row) == multiset(dists)
    requires 0 <= k < |dists|
    ensures |row| == |dists|
    ensures CountWithin(dists, row[k]) >= k + 1
  {
    assert |row| == |multiset(row)| == |dists|;
    SortedCountAtLeast(row, k);
    CountPermutation(row, dists, row[k]);
  }

  /** Any radius strictly below position k of an ascending permutation of a
      row is within reach of at most k entries of the original row. */
  lemma OrderStatisticMinimal(dists: seq<real>, row: seq<real>, k: int, r: real)
    requires Sorted(row) && multiset(row) == multiset(dists)
    requires 0 <= k < |row| && r < row[k]
    ensures CountWithin(dists, r) <= k
  {
    SortedCountBelow(row, k, r);
    CountPermutation(row, dists, r);
  }

  /** Two sorted rows with the same entries are the same row: whichever
      sorting algorithm is used, the sorted row is determined. */
  lemma {:induction false} SortedUnique(a: seq<real>, b: seq<real>)
    requires Sorted(a) && Sorted(b) && multiset(a) == multiset(b)
    ensures a == b
  {
    assert |a| == |multiset(a)| == |multiset(b)| == |b|;
    if |a| > 0 {
      SortedHeadsEqual(a, b);
      RemoveHeads(a, b);
      SortedTail(a);
      SortedTail(b);
      SortedUnique(a[1..], b[1..]);
      assert a == [a[0]] + a[1..];
      assert b == [b[0]] + b[1..];
    }
  }

  /** Taking equal first entries off two permutations of each other leaves
      permutations of each other. */
  lemma RemoveHeads(a: seq<real>, b: seq<real>)
    requires multiset(a) == multiset(b)
    requires 0 < |a| && 0 < |b| && a[0] == b[0]
    ensures multiset(a[1..]) == multiset(b[1..])
  {
    assert a == [a[0]] + a[1..];
    assert b == [b[0]] + b[1..];
    assert multiset(a[1..]) == multiset(a) - multiset{a[0]};
    assert multiset(b[1..]) == multiset(b) - multiset{b[0]};
  }

  lemma SortedTail(a: seq<real>)
    requires Sorted(a) && 0 < |a|
    ensures Sorted(a[1..])
  {
  }

  /** Two sorted rows with the same entries start with the same entry, the
      smallest one. */
  lemma SortedHeadsEqual(a: seq<real>, b: seq<real>)
    requires Sorted(a) && Sorted(b) && multiset(a) == multiset(b)
    requires 0 < |a|
    ensures 0 < |b| && a[0] == b[0]
  {
    assert a[0] in multiset(a);
    var j := IndexOf(b, a[0]);
    assert b[0] in multiset(b);
    var i := IndexOf(a, b[0]);
  }
}
