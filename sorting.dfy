/** Ordering of the base offsets bootstrap collects (`sort.Slice` with `<`). */
module Sorting {
  import opened Bytes

  predicate Ascending(s: seq<u64>)
  {
    forall i, j :: 0 <= i < j < |s| ==> s[i] <= s[j]
  }

  /** `x` placed into `s` before the first element larger than it. */
  function Insert(x: u64, s: seq<u64>): (r: seq<u64>)
    ensures |r| == |s| + 1
  {
    if |s| == 0 then [x]
    else if x <= s[0] then [x] + s
    else [s[0]] + Insert(x, s[1..])
  }

  /** Inserting adds exactly `x` to the elements. */
  lemma {:induction false} InsertPermutes(x: u64, s: seq<u64>)
    ensures multiset(Insert(x, s)) == multiset(s) + multiset{x}
  {
    if |s| > 0 && x > s[0] {
      InsertPermutes(x, s[1..]);
      assert s == [s[0]] + s[1..];
    }
  }

  /** Inserting into an ascending sequence keeps it ascending. */
  lemma {:induction false} InsertAscending(x: u64, s: seq<u64>)
    requires Ascending(s)
    ensures Ascending(Insert(x, s))
  {
    if |s| > 0 && x > s[0] {
      assert Ascending(s[1..]);
      InsertAscending(x, s[1..]);
      var t := Insert(x, s[1..]);
      InsertPermutes(x, s[1..]);
      assert s == [s[0]] + s[1..];
      forall k | 0 <= k < |t|
        ensures s[0] <= t[k]
      {
        assert t[k] in multiset(t);
        assert t[k] in multiset(s[1..]) || t[k] == x;
      }
    }
  }

  /** `sort.Slice(baseOffsets, less)`: the offsets in ascending order. */
  function SortAscending(s: seq<u64>): (r: seq<u64>)
    ensures |r| == |s|
  {
    if |s| == 0 then [] else Insert(s[|s| - 1], SortAscending(s[..|s| - 1]))
  }

  /** Sorting rearranges the elements and neither adds nor drops any. */
  lemma {:induction false} SortAscendingPermutes(s: seq<u64>)
    ensures multiset(SortAscending(s)) == multiset(s)
  {
    if |s| > 0 {
      SortAscendingPermutes(s[..|s| - 1]);
      InsertPermutes(s[|s| - 1], SortAscending(s[..|s| - 1]));
      assert s == s[..|s| - 1] + [s[|s| - 1]];
    }
  }

  /** The result of sorting is ascending. */
  lemma {:induction false} SortAscendingSorted(s: seq<u64>)
    ensures Ascending(SortAscending(s))
  {
    if |s| > 0 {
      SortAscendingSorted(s[..|s| - 1]);
      InsertAscending(s[|s| - 1], SortAscending(s[..|s| - 1]));
    }
  }

  /** An ascending sequence is determined by its elements, so the unstable
      `sort.Slice` has exactly one possible outcome on integers. */
  lemma {:induction false} AscendingUnique(a: seq<u64>, b: seq<u64>)
    requires Ascending(a) && Ascending(b) && multiset(a) == multiset(b)
    ensures a == b
    decreases |a|
  {
    if |a| > 0 {
      assert |b| == |a| by {
        assert |multiset(a)| == |a| && |multiset(b)| == |b|;
      }
      assert a[0] == b[0] by {
        assert a[0] in multiset(b) && b[0] in multiset(a);
        MinimumOf(a, b[0]);
        MinimumOf(b, a[0]);
      }
      assert a == [a[0]] + a[1..] && b == [b[0]] + b[1..];
      assert multiset{a[0]} + multiset(a[1..]) == multiset{a[0]} + multiset(b[1..]);
      MultisetCancel(multiset{a[0]}, multiset(a[1..]), multiset(b[1..]));
      AscendingUnique(a[1..], b[1..]);
    }
  }

  lemma MultisetCancel(m: multiset<u64>, x: multiset<u64>, y: multiset<u64>)
    requires m + x == m + y
    ensures x == y
  {
    assert forall e :: x[e] == (m + x)[e] - m[e];
  }

  /** The first element of an ascending sequence is its least. */
  lemma MinimumOf(a: seq<u64>, x: u64)
    requires Ascending(a) && x in multiset(a)
    ensures |a| > 0 && a[0] <= x
  {
    assert x in a;
  }

  /** Sorting offsets that are already ascending leaves them as they are. */
  lemma SortAscendingIdentity(s: seq<u64>)
    requires Ascending(s)
    ensures SortAscending(s) == s
  {
    SortAscendingSorted(s);
    SortAscendingPermutes(s);
    AscendingUnique(SortAscending(s), s);
  }
}
