/** The log's segments seen as values: each covers the offsets
    `[base, next)` and holds one record per offset. The lemmas here are the
    arithmetic behind the log's routing of reads, its rotation and its
    truncation. */
module Spans {
  import opened Bytes

  /** One segment as the log sees it. */
  datatype Span = Span(base: nat, next: nat, records: seq<seq<byte>>)

  /** The segment holds `next - base` records. */
  predicate Sized(s: Span)
  {
    s.next == s.base + |s.records|
  }

  /** The segment's range `[base, next)` contains `off`. */
  predicate Covers(s: Span, off: int)
  {
    s.base <= off < s.next
  }

  /** The shape the log keeps its segments in: at least one segment; each
      holds `next - base` records, at most 2^32 of them (the relative offsets
      are 32-bit); each ends where the following one begins; and each but the
      last holds at least one record (a segment is only rotated away after an
      append to it). */
  predicate Chain(ss: seq<Span>)
  {
    && |ss| > 0
    && (forall i :: 0 <= i < |ss| ==> Sized(ss[i]) && |ss[i].records| <= TWO_32)
    && (forall i :: 0 <= i < |ss| - 1 ==> Linked(ss, i))
    && (forall i :: 0 <= i < |ss| - 1 ==> |ss[i].records| > 0)
  }

  /** Segment `i` ends where segment `i + 1` begins. */
  predicate Linked(ss: seq<Span>, i: nat)
    requires i + 1 < |ss|
  {
    ss[i].next == ss[i + 1].base
  }

  function Lowest(ss: seq<Span>): nat
    requires |ss| > 0
  {
    ss[0].base
  }

  function Highest(ss: seq<Span>): nat
    requires |ss| > 0
  {
    ss[|ss| - 1].next
  }

  /** The records of all segments, in order. */
  function Flatten(ss: seq<Span>): seq<seq<byte>>
  {
    if |ss| == 0 then [] else Flatten(ss[..|ss| - 1]) + ss[|ss| - 1].records
  }

  /** A prefix of a chain is a chain. */
  lemma ChainPrefix(ss: seq<Span>, n: nat)
    requires Chain(ss) && 0 < n <= |ss|
    ensures Chain(ss[..n])
  {
    forall i | 0 <= i < n - 1
      ensures Linked(ss[..n], i)
    {
      assert Linked(ss, i);
    }
  }

  /** Along a chain, ranges follow each other: a later segment starts at or
      after the end of an earlier one, and strictly after the start of an
      earlier one. */
  lemma {:induction false} ChainOrdered(ss: seq<Span>, i: nat, j: nat)
    requires Chain(ss) && i < j < |ss|
    ensures ss[i].next <= ss[j].base
    ensures ss[i].base < ss[j].base
    decreases j - i
  {
    assert Linked(ss, i);
    if j > i + 1 {
      ChainOrdered(ss, i + 1, j);
    }
  }

  /** Every segment of a chain lies within `[Lowest, Highest]`. */
  lemma ChainWithin(ss: seq<Span>, i: nat)
    requires Chain(ss) && i < |ss|
    ensures Lowest(ss) <= ss[i].base <= ss[i].next <= Highest(ss)
  {
    if i > 0 {
      ChainOrdered(ss, 0, i);
    }
    if i < |ss| - 1 {
      ChainOrdered(ss, i, |ss| - 1);
    }
  }

  /** The records before segment `i` number exactly `base_i - Lowest`, and
      all records number `Highest - Lowest`. */
  lemma {:induction false} FlattenLength(ss: seq<Span>)
    requires Chain(ss)
    ensures |Flatten(ss)| == Highest(ss) - Lowest(ss)
    decreases |ss|
  {
    var n := |ss|;
    if n > 1 {
      ChainPrefix(ss, n - 1);
      FlattenLength(ss[..n - 1]);
      assert Linked(ss, n - 2);
      assert Highest(ss[..n - 1]) == ss[n - 2].next == ss[n - 1].base;
    }
  }

  /** Record `off - Lowest` of the whole log is record `off - base_i` of the
      segment `i` that covers `off`. */
  lemma {:induction false} FlattenAt(ss: seq<Span>, i: nat, off: int)
    requires Chain(ss) && i < |ss| && Covers(ss[i], off)
    ensures Lowest(ss) <= off < Highest(ss) && off - Lowest(ss) < |Flatten(ss)|
    ensures Flatten(ss)[off - Lowest(ss)] == ss[i].records[off - ss[i].base]
    decreases |ss|
  {
    var n := |ss|;
    ChainWithin(ss, i);
    FlattenLength(ss);
    if n > 1 {
      ChainPrefix(ss, n - 1);
      FlattenLength(ss[..n - 1]);
      assert Linked(ss, n - 2);
      assert Highest(ss[..n - 1]) == ss[n - 1].base;
      if i < n - 1 {
        FlattenAt(ss[..n - 1], i, off);
      }
    }
  }

  /** Some segment of a chain covers `off` exactly when `off` lies in
      `[Lowest, Highest)`. */
  lemma {:induction false} CoverIff(ss: seq<Span>, off: int)
    requires Chain(ss)
    ensures (exists i :: 0 <= i < |ss| && Covers(ss[i], off)) <==> Lowest(ss) <= off < Highest(ss)
    decreases |ss|
  {
    var n := |ss|;
    if exists i :: 0 <= i < |ss| && Covers(ss[i], off) {
      var i :| 0 <= i < |ss| && Covers(ss[i], off);
      ChainWithin(ss, i);
    }
    if Lowest(ss) <= off < Highest(ss) {
      if off >= ss[n - 1].base {
        assert Covers(ss[n - 1], off);
      } else {
        ChainPrefix(ss, n - 1);
        assert Linked(ss, n - 2);
        CoverIff(ss[..n - 1], off);
        var i :| 0 <= i < n - 1 && Covers(ss[..n - 1][i], off);
        assert Covers(ss[i], off);
      }
    }
  }

  /** At most one segment of a chain covers a given offset. */
  lemma CoverUnique(ss: seq<Span>, i: nat, j: nat, off: int)
    requires Chain(ss) && i < |ss| && j < |ss| && Covers(ss[i], off) && Covers(ss[j], off)
    ensures i == j
  {
    if i < j {
      ChainOrdered(ss, i, j);
    } else if j < i {
      ChainOrdered(ss, j, i);
    }
  }

  /** The last segment after appending `data` to it. */
  function AppendLast(ss: seq<Span>, data: seq<byte>): (r: seq<Span>)
    requires |ss| > 0
    ensures |r| == |ss|
  {
    var last := ss[|ss| - 1];
    ss[..|ss| - 1] + [Span(last.base, last.next + 1, last.records + [data])]
  }

  /** Appending to the last segment of a chain with room for one more
      relative offset keeps a chain, adds `data` at the end of the log and
      moves `Highest` up by one. */
  lemma ChainAppend(ss: seq<Span>, data: seq<byte>)
    requires Chain(ss) && |ss[|ss| - 1].records| < TWO_32
    ensures Chain(AppendLast(ss, data))
    ensures Flatten(AppendLast(ss, data)) == Flatten(ss) + [data]
    ensures Lowest(AppendLast(ss, data)) == Lowest(ss)
    ensures Highest(AppendLast(ss, data)) == Highest(ss) + 1
  {
    var r := AppendLast(ss, data);
    assert r[..|r| - 1] == ss[..|ss| - 1];
    forall i | 0 <= i < |r| - 1
      ensures Linked(r, i)
    {
      assert Linked(ss, i);
    }
  }

  /** The chain with its last segment replaced by that segment after an append. */
  lemma AppendLastOf(ss: seq<Span>, data: seq<byte>, last: Span)
    requires |ss| > 0
    requires last == Span(ss[|ss| - 1].base, ss[|ss| - 1].next + 1, ss[|ss| - 1].records + [data])
    ensures AppendLast(ss, data) == ss[..|ss| - 1] + [last]
  {
  }

  lemma KeepLastSplit(ss: seq<Span>)
    requires |ss| > 0
    ensures ss == ss[..|ss| - 1] + [ss[|ss| - 1]]
  {
  }

  /** Rotation: a new, empty segment starting where a non-empty last one ends
      keeps a chain, with the same records and the same range. */
  lemma ChainRotate(ss: seq<Span>)
    requires Chain(ss) && |ss[|ss| - 1].records| > 0
    ensures Chain(ss + [Span(Highest(ss), Highest(ss), [])])
    ensures Flatten(ss + [Span(Highest(ss), Highest(ss), [])]) == Flatten(ss)
    ensures Lowest(ss + [Span(Highest(ss), Highest(ss), [])]) == Lowest(ss)
    ensures Highest(ss + [Span(Highest(ss), Highest(ss), [])]) == Highest(ss)
  {
    var r := ss + [Span(Highest(ss), Highest(ss), [])];
    assert r[..|r| - 1] == ss;
    forall i | 0 <= i < |r| - 1
      ensures Linked(r, i)
    {
      if i < |ss| - 1 {
        assert Linked(ss, i);
      }
    }
  }

  /** The log's view after an append of `data`: the last segment grows by
      the record and, when `rotate`, a new, empty segment follows it at the
      next offset. */
  function Appended(ss: seq<Span>, data: seq<byte>, rotate: bool): (r: seq<Span>)
    requires |ss| > 0
  {
    var grown := AppendLast(ss, data);
    if rotate then grown + [Span(Highest(grown), Highest(grown), [])] else grown
  }

  /** An append, with or without rotation, keeps a chain, adds `data` at the
      end of the log, keeps `Lowest` and moves `Highest` up by one; rotation
      adds exactly one segment, which is empty. */
  lemma ChainAppended(ss: seq<Span>, data: seq<byte>, rotate: bool)
    requires Chain(ss) && |ss[|ss| - 1].records| < TWO_32
    ensures var r := Appended(ss, data, rotate);
            && Chain(r) && Flatten(r) == Flatten(ss) + [data]
            && Lowest(r) == Lowest(ss) && Highest(r) == Highest(ss) + 1
            && |r| == |ss| + (if rotate then 1 else 0)
            && r[|r| - 1].records == (if rotate then [] else ss[|ss| - 1].records + [data])
  {
    ChainAppend(ss, data);
    if rotate {
      ChainRotate(AppendLast(ss, data));
    }
  }

  /** The segments `Truncate(offset)` keeps, for threshold `t = offset + 1`:
      those whose next offset exceeds `t`, in order. */
  function Kept(ss: seq<Span>, t: int): (r: seq<Span>)
    ensures |r| <= |ss|
  {
    if |ss| == 0 then []
    else Kept(ss[..|ss| - 1], t) + (if ss[|ss| - 1].next > t then [ss[|ss| - 1]] else [])
  }

  /** How many leading segments `Truncate` removes: all of them when the
      last one ends at or below `t`, otherwise those of the prefix. */
  function DropCount(ss: seq<Span>, t: int): (n: nat)
    ensures n <= |ss|
  {
    if |ss| == 0 then 0
    else if ss[|ss| - 1].next <= t then |ss|
    else DropCount(ss[..|ss| - 1], t)
  }

  /** Along a chain the kept segments are a suffix: truncation removes a
      prefix of whole segments and never one in the middle. */
  lemma {:induction false} KeptSuffix(ss: seq<Span>, t: int)
    requires Chain(ss)
    ensures Kept(ss, t) == ss[DropCount(ss, t)..]
    decreases |ss|
  {
    var n := |ss|;
    if ss[n - 1].next <= t {
      KeptNone(ss, t);
    } else if n > 1 {
      ChainPrefix(ss, n - 1);
      KeptSuffix(ss[..n - 1], t);
      var j := DropCount(ss[..n - 1], t);
      assert ss[..n - 1][j..] + [ss[n - 1]] == ss[j..];
    }
  }

  /** If the last segment of a chain ends at or below `t`, so does every segment. */
  lemma KeptNone(ss: seq<Span>, t: int)
    requires Chain(ss) && ss[|ss| - 1].next <= t
    ensures Kept(ss, t) == []
  {
    KeptNoneUpTo(ss, t, |ss|);
    assert ss[..|ss|] == ss;
  }

  lemma {:induction false} KeptNoneUpTo(ss: seq<Span>, t: int, n: nat)
    requires Chain(ss) && n <= |ss| && ss[|ss| - 1].next <= t
    ensures Kept(ss[..n], t) == []
    decreases n
  {
    if n > 0 {
      assert ss[..n][..n - 1] == ss[..n - 1];
      KeptNoneUpTo(ss, t, n - 1);
      ChainWithin(ss, n - 1);
    }
  }

  /** The records of a sequence of segments split where the sequence does. */
  lemma {:induction false} FlattenSplit(ss: seq<Span>, j: nat)
    requires j <= |ss|
    ensures Flatten(ss) == Flatten(ss[..j]) + Flatten(ss[j..])
    decreases |ss|
  {
    var n := |ss|;
    if j == n {
      assert ss[..j] == ss && ss[j..] == [];
    } else {
      FlattenSplit(ss[..n - 1], j);
      assert ss[..n - 1][..j] == ss[..j];
      assert ss[..n - 1][j..] == ss[j..][..|ss[j..]| - 1];
    }
  }

  /** In a chain the segments ending at or below `t` come first: exactly
      the first `DropCount(ss, t)` of them end at or below `t`. */
  lemma {:induction false} DropCountSplit(ss: seq<Span>, t: int)
    requires Chain(ss)
    ensures forall j :: 0 <= j < |ss| ==> (ss[j].next <= t <==> j < DropCount(ss, t))
    decreases |ss|
  {
    var n := |ss|;
    if ss[n - 1].next <= t {
      forall j | 0 <= j < n - 1
        ensures ss[j].next <= t
      {
        ChainOrdered(ss, j, n - 1);
      }
    } else if n > 1 {
      ChainPrefix(ss, n - 1);
      DropCountSplit(ss[..n - 1], t);
      assert DropCount(ss, t) == DropCount(ss[..n - 1], t);
      forall j | 0 <= j < n - 1
        ensures ss[j].next <= t <==> j < DropCount(ss, t)
      {
        assert ss[..n - 1][j] == ss[j];
      }
    }
  }

  /** A non-empty suffix of a chain is a chain. */
  lemma ChainDrop(ss: seq<Span>, j: nat)
    requires Chain(ss) && j < |ss|
    ensures Chain(ss[j..])
  {
    var r := ss[j..];
    forall i | 0 <= i < |r| - 1
      ensures Linked(r, i)
    {
      assert Linked(ss, j + i);
    }
  }

  /** A non-empty suffix of a chain is a chain holding the tail of the records. */
  lemma ChainSuffix(ss: seq<Span>, j: nat)
    requires Chain(ss) && j < |ss|
    ensures Chain(ss[j..])
    ensures Lowest(ss) <= ss[j].base <= Highest(ss) && |Flatten(ss)| == Highest(ss) - Lowest(ss)
    ensures Flatten(ss[j..]) == Flatten(ss)[ss[j].base - Lowest(ss)..]
  {
    ChainDrop(ss, j);
    ChainWithin(ss, j);
    FlattenLength(ss);
    FlattenSplit(ss, j);
    if j > 0 {
      ChainPrefix(ss, j);
      FlattenLength(ss[..j]);
      assert Linked(ss, j - 1);
      assert Highest(ss[..j]) == ss[j - 1].next == ss[j].base;
    }
  }

  /** Truncation in terms of the number of segments it removes: the kept
      segments are the suffix from that index on, exactly those past the
      threshold, none of them when the threshold reaches the top, and their
      records are the tail of those of the whole chain. */
  lemma KeptFrom(ss: seq<Span>, t: int)
    requires Chain(ss)
    ensures var d := DropCount(ss, t);
      && Kept(ss, t) == ss[d..]
      && (d < |ss| <==> t < Highest(ss))
      && (forall j :: 0 <= j < |ss| ==> (ss[j].next <= t <==> j < d))
      && (d < |ss| ==>
            && Chain(ss[d..])
            && |Flatten(ss[d..])| <= |Flatten(ss)|
            && Flatten(ss[d..]) == Flatten(ss)[|Flatten(ss)| - |Flatten(ss[d..])|..])
  {
    KeptSuffix(ss, t);
    DropCountSplit(ss, t);
    ChainTruncate(ss, t);
  }

  /** What truncation leaves of a chain: nothing exactly when the log ends at
      or below `t`; otherwise a chain that still ends with the last segment,
      whose records are the log's records from the new lowest offset on. */
  lemma ChainTruncate(ss: seq<Span>, t: int)
    requires Chain(ss)
    ensures Kept(ss, t) == [] <==> Highest(ss) <= t
    ensures |Flatten(ss)| == Highest(ss) - Lowest(ss)
    ensures Kept(ss, t) != [] ==>
              && Chain(Kept(ss, t))
              && Kept(ss, t)[|Kept(ss, t)| - 1] == ss[|ss| - 1]
              && Lowest(ss) <= Lowest(Kept(ss, t)) <= Highest(ss)
              && Flatten(Kept(ss, t)) == Flatten(ss)[Lowest(Kept(ss, t)) - Lowest(ss)..]
  {
    KeptSuffix(ss, t);
    FlattenLength(ss);
    var j := DropCount(ss, t);
    if j < |ss| {
      ChainSuffix(ss, j);
    }
  }
}
