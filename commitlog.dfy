/** The log: an ordered sequence of segments over one directory, the last
    of which (the active segment) receives appends. */
module CommitLog {
  import opened Bytes
  import opened Errors
  import opened Configs
  import opened Stores
  import opened Indices
  import opened Segments
  import opened FileNames
  import opened Sorting
  import opened Spans

  /** A log directory: file names and their contents. */
  type Dir = map<string, seq<byte>>

  /** What opening `name` with `O_CREATE` finds in `dir`: its bytes, or
      none for a file that does not exist yet. */
  function FileIn(dir: Dir, name: string): seq<byte>
  {
    if name in dir then dir[name] else []
  }

  /** The base offsets bootstrap registers segments at, in order: those
      parsed from the listing, ascending, or the initial offset alone when
      the listing names no store file. */
  function BootBases(initialOffset: u64, listing: seq<string>): seq<u64>
  {
    var sorted := SortAscending(StoreBases(listing));
    if sorted == [] then [initialOffset] else sorted
  }

  /** Bootstrap registers at least one segment, in ascending order of base
      offset: every base parsed from the listing, or the initial offset alone. */
  lemma BootBasesOrder(initialOffset: u64, listing: seq<string>)
    ensures var bs := BootBases(initialOffset, listing);
      && |bs| > 0 && Ascending(bs)
      && (StoreBases(listing) != [] ==> multiset(bs) == multiset(StoreBases(listing)))
      && (StoreBases(listing) == [] ==> bs == [initialOffset])
  {
    SortAscendingSorted(StoreBases(listing));
    SortAscendingPermutes(StoreBases(listing));
  }

  /** The files for a segment at `base` are ones `newSegment` opens without
      panicking: files shorter than 2^64 bytes, and an index whose last slot
      `ReadLast` can slice from the mapping. */
  predicate Openable(dir: Dir, base: u64, maxIndexBytes: u64)
  {
    var ix := FileIn(dir, IndexName(base));
    |FileIn(dir, StoreName(base))| < TWO_64 && |ix| < TWO_64 && !LastSlicesPast(|ix|, maxIndexBytes)
  }

  predicate AllOpenable(dir: Dir, bases: seq<u64>, maxIndexBytes: u64)
  {
    forall k :: 0 <= k < |bases| ==> Openable(dir, bases[k], maxIndexBytes)
  }

  lemma TakeNext(s: seq<u64>, i: nat)
    requires i < |s|
    ensures s[..i + 1] == s[..i] + [s[i]]
  {
  }

  /** Every segment's pair of files in `dir` is well formed. */
  ghost predicate WellFormedDir(dir: Dir, bases: seq<u64>)
  {
    forall k :: 0 <= k < |bases| ==>
      WellFormedFiles(bases[k], FileIn(dir, StoreName(bases[k])), FileIn(dir, IndexName(bases[k])))
  }

  /** A segment as the log sees it: its range and its records. */
  ghost function SpanOf(s: Segment): Span
    reads s
  {
    Span(s.baseOffset, s.nextOffset, s.records)
  }

  ghost function ViewOf(segs: seq<Segment>): (r: seq<Span>)
    reads segs
    ensures |r| == |segs|
    ensures forall k :: 0 <= k < |segs| ==> r[k] == SpanOf(segs[k])
  {
    if |segs| == 0 then [] else ViewOf(segs[..|segs| - 1]) + [SpanOf(segs[|segs| - 1])]
  }

  function BasesOf(segs: seq<Segment>): (bs: seq<u64>)
    ensures |bs| == |segs|
    ensures forall k :: 0 <= k < |segs| ==> bs[k] == segs[k].baseOffset
  {
    if |segs| == 0 then [] else BasesOf(segs[..|segs| - 1]) + [segs[|segs| - 1].baseOffset]
  }

  lemma BasesOfSnoc(segs: seq<Segment>, s: Segment)
    ensures BasesOf(segs + [s]) == BasesOf(segs) + [s.baseOffset]
  {
    assert (segs + [s])[..|segs|] == segs;
  }

  /** The filter-and-parse loop of `bootstrap`. */
  method CollectBases(listing: seq<string>) returns (bases: seq<u64>)
    ensures bases == StoreBases(listing)
  {
    bases := [];
    for i := 0 to |listing|
      invariant bases == StoreBases(listing[..i])
    {
      StoreBasesNext(listing, i);
      var name := listing[i];
      // only store files count, so that each segment is found once
      if IsStoreEntry(name) {
        bases := bases + [BaseOf(name)];
      }
    }
    assert listing[..|listing|] == listing;
  }

  lemma StoreBasesNext(listing: seq<string>, i: nat)
    requires i < |listing|
    ensures StoreBases(listing[..i + 1])
            == StoreBases(listing[..i]) + (if IsStoreEntry(listing[i]) then [BaseOf(listing[i])] else [])
  {
    assert listing[..i + 1][..i] == listing[..i];
  }

  /** `NewLog`: fills in the default thresholds and bootstraps from the
      directory listing `listing` and the files `dir`. */
  method NewLog(c: Config, listing: seq<string>, dir: Dir) returns (l: Log)
    requires AllOpenable(dir, BootBases(c.initialOffset, listing), WithDefaults(c).maxIndexBytes)
    ensures l.Valid() && fresh(l.Repr)
    ensures l.config == WithDefaults(c)
    ensures BasesOf(l.segments) == BootBases(c.initialOffset, listing)
    ensures l.activeSegment == l.segments[|l.segments| - 1]
    ensures l.Recovered(dir)
  {
    l := new Log(c);
    ghost var added := l.Bootstrap(listing, dir);
    BootBasesOrder(c.initialOffset, listing);
  }

  /** A log bootstrapped over well-formed files whose segments form a chain
      is consistent. */
  lemma RecoveredConsistent(l: Log, dir: Dir)
    requires l.Valid() && l.activeSegment == l.segments[|l.segments| - 1] && l.Recovered(dir)
    requires WellFormedDir(dir, BasesOf(l.segments)) && Chain(l.Spans())
    ensures l.Consistent()
  {
    forall k | 0 <= k < |l.segments|
      ensures l.Healthy(l.segments[k])
    {
      var s := l.segments[k];
      assert l.SegmentOpened(s, dir);
      assert BasesOf(l.segments)[k] == s.baseOffset;
      OpenedConsistent(s);
    }
  }

  /** A non-empty suffix of the segments ends with the last segment. */
  lemma LastOfSuffix(segs: seq<Segment>, d: nat)
    requires d < |segs|
    ensures |segs[d..]| > 0 && segs[d..][|segs[d..]| - 1] == segs[|segs| - 1]
  {
  }

  /** For an `off` in span `k` of a chain starting at `base`, the relative
      offset `Read` computes picks that span's record at `off`, which is the
      chain's record at `off`. */
  lemma ChainRecordAt(ss: seq<Span>, k: nat, base: u64, off: u64)
    requires Chain(ss) && k < |ss| && ss[k].base == base && Covers(ss[k], off)
    ensures Lowest(ss) <= off < Highest(ss) && off - Lowest(ss) < |Flatten(ss)|
    ensures RelOffset(base, off) < |ss[k].records|
    ensures Flatten(ss)[off - Lowest(ss)] == ss[k].records[RelOffset(base, off)]
  {
    assert RelOffset(base, off) == off - base by {
      assert Sized(ss[k]) && |ss[k].records| <= TWO_32;
    }
    FlattenAt(ss, k, off);
  }

  /** Two segments share no object. */
  ghost predicate Apart(a: Segment, b: Segment)
  {
    a.Repr !! b.Repr
  }

  class Log {
    const config: Config
    var segments: seq<Segment>
    /** The segment appends go to; nil until bootstrap registers one. */
    var activeSegment: Segment?
    ghost var Repr: set<object>

    /** `s` belongs to the log and is a well-formed segment. */
    ghost predicate Owned(s: Segment)
      reads this, Repr
    {
      s in Repr && s.Repr <= Repr && this !in s.Repr && s.Valid()
    }

    /** The log owns its segments, whose footprints are pairwise disjoint. */
    ghost predicate Framed()
      reads this, Repr
    {
      && this in Repr
      && (forall i :: 0 <= i < |segments| ==> Owned(segments[i]))
      && (forall i, j {:trigger Apart(segments[i], segments[j])} ::
            0 <= i < j < |segments| ==> Apart(segments[i], segments[j]))
      && (activeSegment != null ==>
            && Owned(activeSegment)
            && forall i :: 0 <= i < |segments| ==>
                 segments[i] == activeSegment || segments[i].Repr !! activeSegment.Repr)
    }

    /** A bootstrapped log: at least one segment and an active one, with
        the thresholds `NewLog` fills in. */
    ghost predicate Valid()
      reads this, Repr
    {
      && Framed()
      && |segments| > 0 && activeSegment != null
      && config.maxStoreBytes > 0 && config.maxIndexBytes > 0
    }

    /** The segments as the log sees them. */
    ghost function Spans(): seq<Span>
      reads this, segments
    {
      ViewOf(segments)
    }

    /** All records of the log, lowest offset first. */
    ghost function Records(): seq<seq<byte>>
      reads this, segments
    {
      Flatten(Spans())
    }

    /** A segment the log can use: consistent with its files, not removed,
        and configured as the log is. */
    ghost predicate Healthy(s: Segment)
      reads s, s.Repr
    {
      s.Consistent() && !s.removed && s.config == config
    }

    /** The log's invariant: the active segment is the last one, every
        segment is healthy, and the segments are sorted and contiguous, each
        starting at the previous one's next offset. */
    ghost predicate Consistent()
      reads this, Repr
    {
      && Valid()
      && activeSegment == segments[|segments| - 1]
      && (forall i :: 0 <= i < |segments| ==> Healthy(segments[i]))
      && Chain(Spans())
    }

    /** An empty log with the defaulted configuration, before bootstrap. */
    constructor (c: Config)
      ensures Framed() && Repr == {this}
      ensures config == WithDefaults(c) && segments == [] && activeSegment == null
    {
      config := WithDefaults(c);
      segments := [];
      activeSegment := null;
      Repr := {this};
    }

    /** `bootstrap`: registers one segment per base offset found in the
        listing, in ascending order, or one segment at the initial offset
        when the listing names no store file. */
    method Bootstrap(listing: seq<string>, dir: Dir) returns (ghost added: set<object>)
      requires Framed() && segments == [] && activeSegment == null
      requires config.maxStoreBytes > 0 && config.maxIndexBytes > 0
      requires AllOpenable(dir, BootBases(config.initialOffset, listing), config.maxIndexBytes)
      modifies this
      ensures Repr == old(Repr) + added && fresh(added)
      ensures OpenedFrom(BootBases(config.initialOffset, listing), dir)
    {
      var baseOffsets := CollectBases(listing);
      baseOffsets := SortAscending(baseOffsets);
      ghost var boot := BootBases(config.initialOffset, listing);
      assert baseOffsets != [] ==> boot == baseOffsets;
      added := OpenSegments(baseOffsets, dir);
      // no store file was found: start a brand-new log
      if |segments| == 0 {
        assert baseOffsets == [] && boot == [config.initialOffset];
        assert Openable(dir, boot[0], config.maxIndexBytes);
        ghost var more := OpenNext([], config.initialOffset, dir);
        added := added + more;
      }
    }

    /** The registering loop of `bootstrap`, over the sorted base offsets. */
    method OpenSegments(bases: seq<u64>, dir: Dir) returns (ghost added: set<object>)
      requires Framed() && segments == [] && activeSegment == null
      requires AllOpenable(dir, bases, config.maxIndexBytes)
      modifies this
      ensures Repr == old(Repr) + added && fresh(added)
      ensures OpenedFrom(bases, dir)
    {
      added := {};
      for i := 0 to |bases|
        invariant Repr == old(Repr) + added && fresh(added)
        invariant OpenedFrom(bases[..i], dir)
      {
        TakeNext(bases, i);
        ghost var more := OpenNext(bases[..i], bases[i], dir);
        added := added + more;
      }
      assert bases[..|bases|] == bases;
    }

    /** The segments registered so far sit at the base offsets `bs`, in
        order, each opened over its files in `dir`, the last one active. */
    ghost predicate OpenedFrom(bs: seq<u64>, dir: Dir)
      reads this, Repr
    {
      && Recovered(dir)
      && BasesOf(segments) == bs
      && (activeSegment != null <==> |segments| > 0)
      && (|segments| > 0 ==> activeSegment == segments[|segments| - 1])
    }

    /** One turn of the registering loop: the segment at `base`. */
    method OpenNext(ghost bs: seq<u64>, base: u64, dir: Dir) returns (ghost added: set<object>)
      requires OpenedFrom(bs, dir) && Openable(dir, base, config.maxIndexBytes)
      modifies this
      ensures Repr == old(Repr) + added && fresh(added)
      ensures OpenedFrom(bs + [base], dir)
    {
      ghost var prev := segments;
      RegisterNewSegment(base, dir);
      KeepsRecovered(dir);
      added := activeSegment.Repr;
      BasesOfSnoc(prev, activeSegment);
    }

    /** The active segment's part of `Append`: the record goes to the last
        segment, and the log's view of it grows by that record. */
    method AppendActive(data: seq<byte>, ioOk: bool) returns (r: Result<u64>)
      requires Consistent()
      requires activeSegment.store.size + LenWidth + |data| < TWO_64
      requires |activeSegment.records| < TWO_32 && activeSegment.nextOffset + 1 < TWO_64
      modifies activeSegment.Repr
      ensures Consistent() && segments == old(segments) && activeSegment == old(activeSegment) && Repr == old(Repr)
      ensures r.Ok? <==> ioOk && old(activeSegment.index.size) + EntWidth <= config.maxIndexBytes
      ensures r.Ok? ==> r.value == old(activeSegment.nextOffset) && Spans() == AppendLast(old(Spans()), data)
      ensures r.Err? ==> Spans() == old(Spans()) && r.error == (if ioOk then EOF else IOFailure)
      ensures r.Ok? ==> activeSegment.store.size == old(activeSegment.store.size) + LenWidth + |data|
      ensures r.Ok? ==> activeSegment.index.size == old(activeSegment.index.size) + EntWidth
    {
      ghost var n := |segments|;
      ghost var ss := Spans();
      var a := activeSegment;
      assert Healthy(a) && a == segments[n - 1];
      r := a.Append(data, ioOk);
      assert |ss| == n && ss[n - 1] == old(SpanOf(a));
      if r.Ok? {
        ChainAppend(ss, data);
        AppendLastOf(ss, data, SpanOf(a));
        LastStep(AppendLast(ss, data));
      } else {
        KeepLastSplit(ss);
        LastStep(ss);
      }
    }

    /** `Append`: appends the record to the active segment and, when that
        leaves the segment maxed, registers a new segment at the next offset.
        `ioOk` says whether the writes to the store succeed and `openOk`
        whether opening the new segment's files does. */
    method Append(data: seq<byte>, ioOk: bool, openOk: bool) returns (off: u64, err: Outcome)
      requires Consistent()
      requires activeSegment.store.size + LenWidth + |data| < TWO_64
      requires |activeSegment.records| < TWO_32 && Highest(Spans()) + 1 < TWO_64
      modifies Repr
      ensures Consistent()
      ensures var accepted := ioOk && old(activeSegment.index.size) + EntWidth <= config.maxIndexBytes;
              var rotate := Fills(config, old(activeSegment.store.size), old(activeSegment.index.size), |data|);
        && off == (if accepted then old(Highest(Spans())) else 0)
        && err == (if !accepted then Fail(if ioOk then EOF else IOFailure)
                   else if rotate && !openOk then Fail(IOFailure) else Pass)
        && Spans() == (if accepted then Appended(old(Spans()), data, rotate && openOk) else old(Spans()))
      ensures fresh(Repr - old(Repr))
    {
      ghost var ss := Spans();
      ghost var rotate := Fills(config, activeSegment.store.size, activeSegment.index.size, |data|);
      ChainAppend(ss, data);
      var r := AppendActive(data, ioOk);
      if r.Err? {
        return 0, Fail(r.error);
      }
      off := r.value;
      ghost var added;
      err, added := RotateIfMaxed(ss, data, rotate, openOk);
    }

    /** The end of `Append`: registers a new segment at the log's next
        offset when the active segment is maxed; `openOk` says whether
        opening its files succeeds. */
    method RotateIfMaxed(ghost ss: seq<Span>, ghost data: seq<byte>, ghost maxed: bool, openOk: bool)
      returns (err: Outcome, ghost added: set<object>)
      requires Consistent() && |ss| > 0 && Spans() == AppendLast(ss, data) && Highest(Spans()) < TWO_64
      requires activeSegment.IsMaxed() == maxed
      modifies this
      ensures Consistent() && Repr == old(Repr) + added && fresh(added)
      ensures err == (if maxed && !openOk then Fail(IOFailure) else Pass)
      ensures Spans() == Appended(ss, data, maxed && openOk)
    {
      err, added := Pass, {};
      if activeSegment.IsMaxed() {
        if !openOk {
          // `newSegment` failed: the record stays appended and the error is returned with its offset
          return Fail(IOFailure), {};
        }
        assert |Spans()[|segments| - 1].records| > 0;
        Rotate(activeSegment.nextOffset);
        added := Repr - old(Repr);
      }
    }

    /** Rotation: registers a new, empty segment at `base`, the log's next
        offset, as the last and active one. The new segment's files are
        taken to be absent, so it opens empty. */
    method Rotate(base: u64)
      requires Consistent() && base == Highest(Spans()) && |Spans()[|segments| - 1].records| > 0
      modifies this
      ensures Consistent() && old(Repr) <= Repr && fresh(Repr - old(Repr))
      ensures Spans() == old(Spans()) + [Span(base, base, [])]
    {
      ghost var ss := Spans();
      ChainRotate(ss);
      RegisterEmpty(base);
      RotatedStep();
    }

    /** Rotation's `registerNewSegment`: the segment at `base`, opened over
        files taken to be absent, is empty and healthy and becomes the last
        and active one. */
    method RegisterEmpty(base: u64)
      requires Framed()
      modifies this
      ensures Framed() && activeSegment != null && fresh(activeSegment.Repr)
      ensures Repr == old(Repr) + activeSegment.Repr && segments == old(segments) + [activeSegment]
      ensures Healthy(activeSegment) && Spans() == old(Spans()) + [Span(base, base, [])]
      ensures forall k :: 0 <= k < |old(segments)| ==> unchanged(old(segments)[k]) && unchanged(old(segments)[k].Repr)
    {
      RegisterNewSegment(base, map[]);
      OpenedEmpty(activeSegment);
    }

    /** Registering a healthy segment after unchanged healthy ones keeps the
        log consistent when the log's view is still a chain. */
    twostate lemma RotatedStep()
      requires old(Consistent()) && Framed() && activeSegment != null && segments == old(segments) + [activeSegment]
      requires forall k :: 0 <= k < |old(segments)| ==> unchanged(old(segments)[k]) && unchanged(old(segments)[k].Repr)
      requires Healthy(activeSegment) && Chain(Spans())
      ensures Consistent()
    {
      forall k | 0 <= k < |segments|
        ensures Healthy(segments[k])
      {
        if k < |old(segments)| {
          assert segments[k] == old(segments)[k];
          Untouched(segments[k]);
        }
      }
    }

    /** The search of `Read`: from the last segment back, the first whose
        range `[baseOffset, nextOffset)` holds `off`, or -1 when none does. */
    method FindSegment(off: u64) returns (i: int)
      ensures -1 <= i < |segments|
      ensures i >= 0 ==> segments[i].baseOffset <= off < segments[i].nextOffset
      ensures forall j :: i < j < |segments| ==> !(segments[j].baseOffset <= off < segments[j].nextOffset)
    {
      i := |segments| - 1;
      while i >= 0
        invariant -1 <= i < |segments|
        invariant forall j :: i < j < |segments| ==> !(segments[j].baseOffset <= off < segments[j].nextOffset)
      {
        if off >= segments[i].baseOffset && off < segments[i].nextOffset {
          return;
        }
        i := i - 1;
      }
    }

    /** A step that changes no object of the log keeps it consistent and
        its view as it was. */
    twostate lemma Unmoved()
      requires old(Consistent()) && unchanged(this) && unchanged(old(Repr))
      ensures Consistent() && Spans() == old(Spans())
    {
    }

    /** `Read`: the record at `off`, read from the segment whose range holds
        it, or the out-of-range error when `off` lies outside the log. */
    method Read(off: u64) returns (r: Result<seq<byte>>)
      requires Consistent()
      modifies Repr
      ensures Consistent() && Repr == old(Repr) && segments == old(segments) && activeSegment == old(activeSegment)
      ensures Spans() == old(Spans()) && |Records()| == Highest(Spans()) - Lowest(Spans())
      ensures Lowest(Spans()) <= off < Highest(Spans()) ==> r == Ok(Records()[off - Lowest(Spans())])
      ensures !(Lowest(Spans()) <= off < Highest(Spans())) ==> r == Err(OffsetOutOfRange(off))
    {
      ghost var ss := Spans();
      FlattenLength(ss);
      var i := FindSegment(off);
      Unmoved();
      if i < 0 {
        NoneCovers(off);
        CoverIff(ss, off);
        assert !(Lowest(ss) <= off < Highest(ss));
        return Err(OffsetOutOfRange(off));
      }
      r := ReadFrom(segments[i], i, off);
    }

    /** When no segment's range holds `off`, no span of the log's view covers it. */
    lemma NoneCovers(off: u64)
      requires forall j :: 0 <= j < |segments| ==> !(segments[j].baseOffset <= off < segments[j].nextOffset)
      ensures forall j :: 0 <= j < |Spans()| ==> !Covers(Spans()[j], off)
    {
    }

    /** `Read` once segment `k` is found to cover `off`: that segment's
        read yields the log's record at `off`. */
    method ReadFrom(s: Segment, ghost k: nat, off: u64) returns (r: Result<seq<byte>>)
      requires Consistent() && k < |segments| && s == segments[k] && s.baseOffset <= off < s.nextOffset
      modifies s.store
      ensures Repr == old(Repr) && segments == old(segments) && activeSegment == old(activeSegment)
      ensures Consistent() && Spans() == old(Spans())
      ensures Lowest(Spans()) <= off < Highest(Spans()) && off - Lowest(Spans()) < |Records()|
      ensures r == Ok(Records()[off - Lowest(Spans())])
    {
      ReadAt(k, off);
      r := s.Read(off);
      ReadStep(k);
    }

    /** The record of segment `k` at `off`, for an `off` in that segment's
        range, is the log's record at `off`. */
    lemma ReadAt(k: nat, off: u64)
      requires Consistent() && k < |segments| && segments[k].baseOffset <= off < segments[k].nextOffset
      ensures Lowest(Spans()) <= off < Highest(Spans()) && off - Lowest(Spans()) < |Records()|
      ensures var s := segments[k];
        && s.Valid() && s.Consistent() && s.store in s.Repr && this !in s.Repr
        && RelOffset(s.baseOffset, off) < |s.records|
        && Records()[off - Lowest(Spans())] == s.records[RelOffset(s.baseOffset, off)]
    {
      ghost var ss := Spans();
      var s := segments[k];
      assert ss[k] == SpanOf(s);
      assert Owned(s) && Healthy(s);
      ChainRecordAt(ss, k, s.baseOffset, off);
    }

    /** `GetOffsetRange`: the base offset of the first segment and the next
        offset of the active one. */
    function GetOffsetRange(): (r: (u64, u64))
      reads this, Repr
      requires Valid()
      ensures Consistent() ==> r == (Lowest(Spans()), Highest(Spans())) && |Records()| == r.1 - r.0
    {
      var r := (segments[0].baseOffset, activeSegment.nextOffset);
      assert Consistent() ==> |Records()| == r.1 - r.0 by {
        if Consistent() {
          FlattenLength(Spans());
        }
      }
      r
    }

    /** `Truncate(offset)`: removes, in order, every segment whose next
        offset is at most `offset + 1` (computed in 64 bits, so it wraps to 0
        for the largest offset) and keeps the others. When none is kept the
        error is returned and the log still lists the removed segments. */
    method Truncate(offset: u64) returns (err: Outcome)
      requires Consistent()
      modifies Repr
      ensures Repr == old(Repr) && activeSegment == old(activeSegment)
      ensures var t := Wrap64(offset + 1);
        && err == (if old(Highest(Spans())) <= t then Fail(TruncateRemovedAll) else Pass)
        && (forall j :: 0 <= j < |old(segments)| ==> (old(segments)[j].removed <==> old(segments)[j].nextOffset <= t))
        && (err.Pass? ==> Consistent() && Spans() == Kept(old(Spans()), t))
        && (err.Fail? ==> segments == old(segments))
    {
      ghost var ss := Spans();
      var t := Wrap64(offset + 1);
      ghost var d := DropCount(ss, t);
      KeptFrom(ss, t);
      SweepStart(d);
      var newSegments := Sweep(t, ss, d);
      if |newSegments| > 0 {
        Retain(newSegments, ss, d);
        err := Pass;
      } else {
        err := Fail(TruncateRemovedAll);
      }
    }

    /** The loop of `Truncate`: removes, in order, each segment whose next
        offset is at most `t`, the first `d` of them, and collects the others. */
    method Sweep(t: u64, ghost ss: seq<Span>, ghost d: nat) returns (newSegments: seq<Segment>)
      requires Sweeping(ss, d, 0) && d <= |ss|
      requires forall j :: 0 <= j < |ss| ==> (ss[j].next <= t <==> j < d)
      modifies Repr - {this}
      ensures Sweeping(ss, d, |ss|)
      ensures forall j :: 0 <= j < |segments| ==> (segments[j].removed <==> segments[j].nextOffset <= t)
      ensures newSegments == segments[d..]
    {
      newSegments := [];
      for i := 0 to |segments|
        invariant Sweeping(ss, d, i)
        invariant newSegments == if i <= d then [] else segments[d..i]
      {
        var s := segments[i];
        SweepAt(ss, d, i);
        if s.nextOffset <= t {
          RemoveAt(s, ss, d, i);
        } else {
          newSegments := newSegments + [s];
        }
      }
      SweepDone(t, ss, d);
    }

    /** Segment `i` of the sweep is to be removed exactly when it lies
        before `d`; one it keeps leaves the sweep where it was. */
    lemma SweepAt(ss: seq<Span>, d: nat, i: nat)
      requires Sweeping(ss, d, i) && i < |ss|
      ensures segments[i].nextOffset == ss[i].next
      ensures segments[i] in Repr - {this} && segments[i].store in Repr - {this}
      ensures i >= d ==> Sweeping(ss, d, i + 1)
    {
      assert SpanOf(segments[i]) == ss[i];
      assert Owned(segments[i]);
    }

    /** At the end of the sweep exactly the segments wholly at or below
        `t` are removed. */
    lemma SweepDone(t: u64, ss: seq<Span>, d: nat)
      requires Sweeping(ss, d, |ss|) && d <= |ss|
      requires forall j :: 0 <= j < |ss| ==> (ss[j].next <= t <==> j < d)
      ensures forall j :: 0 <= j < |segments| ==> (segments[j].removed <==> segments[j].nextOffset <= t)
    {
      forall j | 0 <= j < |segments|
        ensures segments[j].removed <==> segments[j].nextOffset <= t
      {
        assert SpanOf(segments[j]) == ss[j];
      }
    }

    /** The assignment that ends `Truncate`: the log keeps the segments
        from `d` on and is consistent again. */
    method Retain(newSegments: seq<Segment>, ghost ss: seq<Span>, ghost d: nat)
      requires Sweeping(ss, d, |ss|) && d < |ss| && newSegments == segments[d..] && Chain(ss[d..])
      requires activeSegment == segments[|segments| - 1] && config.maxStoreBytes > 0 && config.maxIndexBytes > 0
      modifies this
      ensures Repr == old(Repr) && activeSegment == old(activeSegment)
      ensures Consistent() && Spans() == ss[d..]
      ensures forall j :: 0 <= j < |old(segments)| ==>
                old(segments)[j].removed == old(segments[j].removed) && old(segments)[j].nextOffset == old(segments[j].nextOffset)
    {
      SweptView(ss, d);
      LastOfSuffix(segments, d);
      segments := newSegments;
      TruncatedKept(d);
      Assemble();
    }

    /** The state of truncation's sweep before segment `i`: the log still
        lists the segments of `ss`, each as consistent as before, and exactly
        those among the first `min(i, d)` are removed. */
    ghost predicate Sweeping(ss: seq<Span>, d: nat, i: nat)
      reads this, Repr
    {
      && Framed()
      && |segments| == |ss|
      && forall j :: 0 <= j < |ss| ==>
           && SpanOf(segments[j]) == ss[j]
           && segments[j].Consistent()
           && segments[j].config == config
           && (segments[j].removed <==> j < i && j < d)
    }

    /** A consistent log is where the sweep starts: nothing removed yet. */
    lemma SweepStart(d: nat)
      requires Consistent()
      ensures Sweeping(Spans(), d, 0)
    {
    }

    /** After the sweep the log still sees the segments as they were. */
    lemma SweptView(ss: seq<Span>, d: nat)
      requires Sweeping(ss, d, |ss|)
      ensures Spans() == ss
    {
      assert |Spans()| == |ss|;
      forall j | 0 <= j < |ss|
        ensures Spans()[j] == ss[j]
      {
        assert Spans()[j] == SpanOf(segments[j]);
      }
    }

    /** `segment.Remove` on segment `k`, one of the first `d` that truncation
        drops: it is removed and stays consistent with its records, and no
        other segment changes. */
    method RemoveAt(s: Segment, ghost ss: seq<Span>, ghost d: nat, ghost k: nat)
      requires Sweeping(ss, d, k) && k < d && k < |segments| && s == segments[k]
      modifies s, s.store
      ensures Sweeping(ss, d, k + 1)
    {
      assert Owned(s);
      s.Remove();
      Elsewhere(k);
      StillFramed();
    }

    /** The segments the log keeps after a sweep: each is still owned by
        the log and healthy, any two are apart, and the log sees them as the
        sweep left them, a chain. */
    twostate lemma TruncatedKept(d: nat)
      requires old(Sweeping(Spans(), d, |segments|)) && Repr == old(Repr)
      requires d < |old(segments)| && segments == old(segments)[d..] && unchanged(Repr - {this})
      requires old(Chain(Spans()[d..]))
      ensures forall j :: 0 <= j < |segments| ==> Owned(segments[j]) && Healthy(segments[j])
      ensures forall i, j {:trigger Apart(segments[i], segments[j])} ::
                0 <= i < j < |segments| ==> Apart(segments[i], segments[j])
      ensures Spans() == old(Spans())[d..] && Chain(Spans())
    {
      forall j | 0 <= j < |segments|
        ensures SpanOf(segments[j]) == old(Spans())[d + j] && Healthy(segments[j]) && Owned(segments[j])
      {
        assert old(SpanOf(segments[d + j]) == Spans()[d + j] && Healthy(segments[d + j]));
        assert old(Owned(segments[d + j]));
      }
      forall i, j | 0 <= i < j < |segments|
        ensures Apart(segments[i], segments[j])
      {
        assert old(Apart(segments[d + i], segments[d + j]));
      }
      ghost var kept := old(Spans())[d..];
      assert |Spans()| == |kept|;
      forall j | 0 <= j < |kept|
        ensures Spans()[j] == kept[j]
      {
        assert Spans()[j] == SpanOf(segments[j]);
      }
      assert Spans() == kept;
    }

    /** A log whose segments are owned, healthy and pairwise apart, whose
        last segment is the active one and whose view is a chain is consistent. */
    lemma Assemble()
      requires this in Repr && config.maxStoreBytes > 0 && config.maxIndexBytes > 0
      requires |segments| > 0 && activeSegment == segments[|segments| - 1]
      requires forall j :: 0 <= j < |segments| ==> Owned(segments[j]) && Healthy(segments[j])
      requires forall i, j {:trigger Apart(segments[i], segments[j])} ::
                 0 <= i < j < |segments| ==> Apart(segments[i], segments[j])
      requires Chain(Spans())
      ensures Consistent()
    {
      var n := |segments|;
      forall j | 0 <= j < n
        ensures segments[j] == activeSegment || segments[j].Repr !! activeSegment.Repr
      {
        if j < n - 1 {
          assert Apart(segments[j], segments[n - 1]);
        }
      }
    }

    /** A step that changes only the objects of segment `k` leaves every
        other segment as it was: well formed, as consistent and as removed
        as before, and seen the same by the log. */
    twostate lemma Elsewhere(k: nat)
      requires old(Framed()) && segments == old(segments) && k < |segments|
      requires forall o: object :: o in old(Repr) && o !in segments[k].Repr ==> unchanged(o)
      ensures forall j :: 0 <= j < |segments| && j != k ==>
                && segments[j].Valid()
                && (segments[j].Consistent() <==> old(segments[j].Consistent()))
                && segments[j].removed == old(segments[j].removed)
                && SpanOf(segments[j]) == old(SpanOf(segments[j]))
    {
      forall j | 0 <= j < |segments| && j != k
        ensures && segments[j].Valid()
                && (segments[j].Consistent() <==> old(segments[j].Consistent()))
                && segments[j].removed == old(segments[j].removed)
                && SpanOf(segments[j]) == old(SpanOf(segments[j]))
      {
        if j < k {
          assert Apart(segments[j], segments[k]);
        } else {
          assert Apart(segments[k], segments[j]);
        }
        assert old(Owned(segments[j]));
        assert unchanged(segments[j].Repr);
      }
    }

    /** A read from segment `k`, which leaves that segment consistent and
        its fields as they were, keeps the log consistent and its view unchanged. */
    twostate lemma ReadStep(k: nat)
      requires old(Consistent()) && segments == old(segments) && activeSegment == old(activeSegment) && Repr == old(Repr)
      requires k < |segments|
      requires forall o: object :: o in old(Repr) && o !in segments[k].Repr ==> unchanged(o)
      requires unchanged(segments[k]) && segments[k].Consistent()
      ensures Consistent() && Spans() == old(Spans())
    {
      ReadKept(k);
    }

    /** The part of `ReadStep` about the segments: each stays healthy and
        looks as it did, and the log still owns them apart. */
    twostate lemma ReadKept(k: nat)
      requires old(Consistent()) && segments == old(segments) && activeSegment == old(activeSegment) && Repr == old(Repr)
      requires k < |segments|
      requires forall o: object :: o in old(Repr) && o !in segments[k].Repr ==> unchanged(o)
      requires unchanged(segments[k]) && segments[k].Consistent()
      ensures Framed() && Spans() == old(Spans())
      ensures forall j :: 0 <= j < |segments| ==> Healthy(segments[j])
    {
      Elsewhere(k);
      assert Spans() == old(Spans()) by {
        forall j | 0 <= j < |segments|
          ensures Spans()[j] == old(Spans())[j]
        {
        }
      }
      StillFramed();
    }

    /** A step that changes only the active segment, keeping it healthy,
        keeps the log consistent when the log's new view is still a chain. */
    twostate lemma LastStep(next: seq<Span>)
      requires old(Consistent()) && segments == old(segments) && activeSegment == old(activeSegment) && Repr == old(Repr)
      requires forall o: object :: o in old(Repr) && o !in activeSegment.Repr ==> unchanged(o)
      requires Healthy(activeSegment)
      requires Chain(next) && next == old(Spans())[..|segments| - 1] + [SpanOf(activeSegment)]
      ensures Consistent() && Spans() == next
    {
      OthersKept();
      SpansStep();
      StillFramed();
    }

    /** The segments before the active one, whose objects a step leaves
        alone, stay healthy and look as they did. */
    twostate lemma OthersKept()
      requires old(Consistent()) && segments == old(segments) && activeSegment == old(activeSegment)
      requires forall o: object :: o in old(Repr) && o !in activeSegment.Repr ==> unchanged(o)
      ensures forall k :: 0 <= k < |segments| - 1 ==>
                Healthy(segments[k]) && segments[k].Valid() && SpanOf(segments[k]) == old(SpanOf(segments[k]))
    {
      forall k | 0 <= k < |segments| - 1
        ensures Healthy(segments[k]) && segments[k].Valid() && SpanOf(segments[k]) == old(SpanOf(segments[k]))
      {
        assert Apart(segments[k], activeSegment);
        Untouched(segments[k]);
      }
    }

    /** A step that changes no field of the log and keeps every segment
        well formed keeps the log's ownership and the disjointness of its segments. */
    twostate lemma StillFramed()
      requires old(Framed()) && segments == old(segments) && activeSegment == old(activeSegment) && Repr == old(Repr)
      requires forall k :: 0 <= k < |segments| ==> segments[k].Valid()
      requires activeSegment != null ==> activeSegment.Valid()
      ensures Framed()
    {
    }

    /** A step that leaves every segment but the last as the log saw it
        changes the log's view in its last entry only. */
    twostate lemma SpansStep()
      requires segments == old(segments) && |segments| > 0
      requires forall k :: 0 <= k < |segments| - 1 ==> SpanOf(segments[k]) == old(SpanOf(segments[k]))
      ensures Spans() == old(Spans())[..|segments| - 1] + [SpanOf(segments[|segments| - 1])]
    {
    }

    /** A segment whose objects a step leaves alone keeps its health and its view. */
    twostate lemma Untouched(s: Segment)
      requires old(Healthy(s)) && old(s.Valid()) && unchanged(s) && unchanged(s.Repr)
      ensures Healthy(s) && s.Valid() && SpanOf(s) == old(SpanOf(s))
    {
    }

    /** Every segment was opened over its files in `dir`, and the log sees
        what `newSegment` recovers from them. */
    ghost predicate Recovered(dir: Dir)
      reads this, Repr
    {
      && Framed()
      && forall k :: 0 <= k < |segments| ==> SegmentOpened(segments[k], dir)
    }

    /** `s` was opened over its files in `dir` with the log's configuration. */
    ghost predicate SegmentOpened(s: Segment, dir: Dir)
      reads s, s.Repr
    {
      && s.config == config
      && s.openedStore == FileIn(dir, StoreName(s.baseOffset))
      && s.openedIndex == FileIn(dir, IndexName(s.baseOffset))
      && s.Pristine() && s.OpenedRecovered()
    }

    /** `registerNewSegment`: opens the segment at `base` over its files in
        `dir` and makes it the last and active one. */
    method RegisterNewSegment(base: u64, dir: Dir)
      requires Framed() && Openable(dir, base, config.maxIndexBytes)
      modifies this
      ensures Framed() && fresh(Repr - old(Repr))
      ensures activeSegment != null && fresh(activeSegment.Repr)
      ensures Repr == old(Repr) + activeSegment.Repr
      ensures segments == old(segments) + [activeSegment]
      ensures activeSegment.baseOffset == base && SegmentOpened(activeSegment, dir)
      ensures Spans() == old(Spans()) + [SpanOf(activeSegment)]
      ensures forall k :: 0 <= k < |old(segments)| ==> unchanged(old(segments)[k]) && unchanged(old(segments)[k].Repr)
    {
      var s := new Segment(base, config, FileIn(dir, StoreName(base)), FileIn(dir, IndexName(base)));
      Attach(s);
      forall k | 0 <= k < |old(segments)|
        ensures unchanged(old(segments)[k]) && unchanged(old(segments)[k].Repr)
      {
        assert old(Owned(segments[k]));
      }
    }

    /** Appends `s`, whose footprint is new to the log, and makes it active. */
    method Attach(s: Segment)
      requires Framed() && s.Valid() && this !in s.Repr && s.Repr !! Repr
      modifies this
      ensures Framed() && activeSegment == s
      ensures Repr == old(Repr) + s.Repr
      ensures segments == old(segments) + [s]
      ensures Spans() == old(Spans()) + [SpanOf(s)]
    {
      segments := segments + [s];
      activeSegment := s;
      Repr := Repr + s.Repr;
      assert segments[..|segments| - 1] == old(segments);
    }

    /** Registering one more segment opened over its files in `dir` keeps
        every segment of the log opened over its files. */
    twostate lemma KeepsRecovered(dir: Dir)
      requires old(Recovered(dir))
      requires Framed() && activeSegment != null && segments == old(segments) + [activeSegment]
      requires SegmentOpened(activeSegment, dir)
      requires forall k :: 0 <= k < |old(segments)| ==> unchanged(old(segments)[k]) && unchanged(old(segments)[k].Repr)
      ensures Recovered(dir)
    {
      forall k | 0 <= k < |segments|
        ensures SegmentOpened(segments[k], dir)
      {
        if k < |old(segments)| {
          assert segments[k] == old(segments)[k];
          assert old(SegmentOpened(segments[k], dir));
        }
      }
    }
  }
}
