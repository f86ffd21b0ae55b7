/** The scenarios of the repository's tests, as clients of the model: each
    states what the test expects and is proved from the contracts alone. */
module Scenarios {
  import opened Bytes
  import opened Errors
  import opened Configs
  import opened Stores
  import opened Indices
  import opened Segments
  import opened Spans
  import opened CommitLog
  import opened FileNames

  /** The configuration of the segment test: a 1024-byte store and room
      for three index entries. */
  const SegmentTestConfig: Config := Config(1024, 36, 0)

  /** The segment of the segment test after `i` appends of `data`. */
  ghost predicate Filled(s: Segment, data: seq<byte>, i: nat)
    reads s, s.Repr
  {
    && s.Consistent() && s.baseOffset == 16 && s.config == SegmentTestConfig
    && s.nextOffset == 16 + i && |s.records| == i
    && (forall k :: 0 <= k < i ==> s.records[k] == data)
    && s.store.size <= i * 0x2_0000_0000
  }

  /** One round of the segment test: append `data`, then read it back at
      the offset the append returned. */
  method AppendReadOne(s: Segment, data: seq<byte>, i: nat) returns (off: Result<u64>, r: Result<seq<byte>>)
    requires |data| < TWO_32 && i < 3 && Filled(s, data, i)
    modifies s.Repr
    ensures Filled(s, data, i + 1)
    ensures off == Ok(16 + i) && r == Ok(data)
  {
    ghost var before := s.records;
    off := s.Append(data, true);
    assert s.Consistent() && s.records == before + [data];
    assert Filled(s, data, i + 1);
    r := s.Read(off.value);
  }

  /** `newSegment` at base 16 over no files: an empty segment that starts at its base. */
  method OpenTestSegment(data: seq<byte>) returns (s: Segment)
    ensures fresh(s.Repr) && Filled(s, data, 0)
  {
    s := new Segment(16, SegmentTestConfig, [], []);
    EmptyFilesWellFormed(16);
    OpenedConsistent(s);
    PristineState(s);
  }

  /** Once the index holds its three entries the segment is maxed, and a
      further append fails with end-of-file. */
  method AppendToFull(s: Segment, data: seq<byte>) returns (maxed: bool, fourth: Result<u64>)
    requires Filled(s, data, 3)
    modifies s.Repr
    ensures maxed && fourth == Err(EOF)
  {
    maxed := s.IsMaxed();
    fourth := s.Append([], true);
  }

  /** The segment test: a segment at base 16 whose index holds three
      entries takes three appends at offsets 16, 17 and 18, reads each record
      back, is then maxed, and refuses a fourth append with end-of-file. */
  method SegmentAppendRead(data: seq<byte>) returns (offs: seq<Result<u64>>, got: seq<Result<seq<byte>>>, maxed: bool, fourth: Result<u64>)
    requires |data| < TWO_32
    ensures offs == [Ok(16), Ok(17), Ok(18)]
    ensures got == [Ok(data), Ok(data), Ok(data)]
    ensures maxed && fourth == Err(EOF)
  {
    var s := OpenTestSegment(data);
    offs, got := [], [];
    for i := 0 to 3
      invariant fresh(s.Repr) && Filled(s, data, i)
      invariant |offs| == i && forall k :: 0 <= k < i ==> offs[k] == Ok(16 + k)
      invariant |got| == i && forall k :: 0 <= k < i ==> got[k] == Ok(data)
    {
      var off, r := AppendReadOne(s, data, i);
      offs, got := offs + [off], got + [r];
    }
    maxed, fourth := AppendToFull(s, data);
  }

  /** The log test, on the log's view: a fresh log configured with a
      32-byte store takes three encoded records of one length `n`, with
      `8 <= n < 24`, as the test's records are. After the first append the
      store holds `8 + n` bytes, fewer than 32, so the segment is not maxed;
      after the second it holds `16 + 2n`, so the log rotates to a segment at
      offset 2, which takes the third. The offset range is then `(0, 3)`,
      offset 5 is out of range, and `Truncate(1)` removes the first segment,
      after which offset 0 is out of range as well. */
  lemma LogAppendTruncate(d1: seq<byte>, d2: seq<byte>, d3: seq<byte>)
    requires 8 <= |d1| < 24 && |d2| == |d1| && |d3| == |d1|
    ensures var c := WithDefaults(Config(32, 0, 0));
      && !Fills(c, 0, 0, |d1|)
      && Fills(c, LenWidth + |d1|, EntWidth, |d2|)
      && var v := Appended(Appended(Appended([Span(0, 0, [])], d1, false), d2, true), d3, false);
         && v == [Span(0, 2, [d1, d2]), Span(2, 3, [d3])]
         && Chain(v) && Lowest(v) == 0 && Highest(v) == 3 && Flatten(v) == [d1, d2, d3]
         && !(Lowest(v) <= 5 < Highest(v))
         && var kept := Kept(v, Wrap64(1 + 1));
            && kept == [Span(2, 3, [d3])]
            && !(Lowest(kept) <= 0 < Highest(kept))
  {
    var v0 := [Span(0, 0, [])];
    assert Chain(v0);
    var v1 := Appended(v0, d1, false);
    ChainAppended(v0, d1, false);
    var v2 := Appended(v1, d2, true);
    ChainAppended(v1, d2, true);
    var v3 := Appended(v2, d3, false);
    ChainAppended(v2, d3, false);
    assert v1 == [Span(0, 1, [d1])] by {
      assert AppendLast(v0, d1) == v0[..0] + [Span(0, 1, [] + [d1])];
      assert v0[..0] == [] && [] + [d1] == [d1];
    }
    assert AppendLast(v1, d2) == [Span(0, 2, [d1, d2])] by {
      assert v1[..0] == [] && [d1] + [d2] == [d1, d2];
    }
    assert v2 == [Span(0, 2, [d1, d2]), Span(2, 2, [])];
    assert v3 == [Span(0, 2, [d1, d2]), Span(2, 3, [d3])] by {
      assert v2[..1] == [Span(0, 2, [d1, d2])] && [] + [d3] == [d3];
    }
    assert v3[..1] == [Span(0, 2, [d1, d2])];
    assert v3[..1][..0] == [];
  }

  /** `Truncate(math.MaxUint64)`: `offset + 1` wraps to 0, so only a segment
      ending at offset 0 could go, and a log holding any record keeps every
      segment. */
  lemma TruncateMaxOffset(ss: seq<Span>)
    requires Chain(ss) && Highest(ss) > 0
    ensures Wrap64(MaxU64 + 1) == 0
    ensures Kept(ss, Wrap64(MaxU64 + 1)) == ss
  {
    KeptFrom(ss, 0);
    assert ss[0].next > 0 by {
      assert Sized(ss[0]);
      if |ss| > 1 {
        assert |ss[0].records| > 0;
      }
    }
    assert ss[DropCount(ss, 0)..] == ss[0..] == ss;
  }

  /** The configuration a log gets when both thresholds are left at zero. */
  const DefaultConfig: Config := Config(DefaultMaxBytes, DefaultMaxBytes, 0)

  /** A segment at base 0 under the default thresholds after `i` appends
      of one-byte records. */
  ghost predicate DefaultFilled(s: Segment, i: nat)
    reads s, s.Repr
  {
    && s.Consistent() && s.config == DefaultConfig && s.baseOffset == 0
    && s.nextOffset == i && s.store.size == (LenWidth + 1) * i && s.index.size == EntWidth * i
  }

  /** `newSegment` at base 0 over no files, with the thresholds `NewLog`
      fills in for a zero configuration. */
  method OpenDefaultSegment() returns (s: Segment)
    ensures fresh(s.Repr) && DefaultFilled(s, 0)
  {
    s := new Segment(0, WithDefaults(Config(0, 0, 0)), [], []);
    EmptyFilesWellFormed(0);
    OpenedConsistent(s);
    PristineState(s);
  }

  /** One of the first 85 one-byte appends under the default thresholds:
      it is accepted at offset `i` and leaves the segment not maxed. */
  method AppendOneByte(s: Segment, i: nat) returns (off: Result<u64>, maxed: bool)
    requires DefaultFilled(s, i) && i < 85
    modifies s.Repr
    ensures DefaultFilled(s, i + 1) && off == Ok(i) && !maxed
  {
    off := s.Append([0], true);
    maxed := s.IsMaxed();
  }

  /** The default thresholds are not a whole number of index entries. A
      segment opened with them takes 85 one-byte records at offsets 0 to
      84, and is not maxed after any of them, so the log never rotates; the
      index then holds 1020 of its 1024 bytes, so the next append fails
      with end-of-file and leaves `nextOffset` at 85. */
  method DefaultIndexFillsUnmaxed() returns (offs: seq<Result<u64>>, maxedAfter: seq<bool>, next: Result<u64>, nextOffset: u64)
    ensures |offs| == 85 && forall k :: 0 <= k < 85 ==> offs[k] == Ok(k)
    ensures |maxedAfter| == 85 && forall k :: 0 <= k < 85 ==> !maxedAfter[k]
    ensures next == Err(EOF) && nextOffset == 85
  {
    var s := OpenDefaultSegment();
    offs, maxedAfter := [], [];
    for i := 0 to 85
      invariant fresh(s.Repr) && DefaultFilled(s, i)
      invariant |offs| == i && forall k :: 0 <= k < i ==> offs[k] == Ok(k)
      invariant |maxedAfter| == i && forall k :: 0 <= k < i ==> !maxedAfter[k]
    {
      var off, maxed := AppendOneByte(s, i);
      offs, maxedAfter := offs + [off], maxedAfter + [maxed];
    }
    next := s.Append([0], true);
    nextOffset := s.nextOffset;
  }
}
