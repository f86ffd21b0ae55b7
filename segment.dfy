/** The segment: one store and one index under a shared base offset. */
module Segments {
  import opened Bytes
  import opened Errors
  import opened Configs
  import opened Stores
  import opened Indices

  /** `uint32(off - baseOffset)`: the relative offset `Read` looks up, with
      the source's unsigned wrap-around written out. */
  function RelOffset(baseOffset: u64, off: u64): (r: u32)
    ensures baseOffset <= off < baseOffset + TWO_32 ==> r == off - baseOffset
  {
    Wrap32(Wrap64(off - baseOffset))
  }

  /** A store file and an index file as this engine leaves them: the index
      holds whole entries numbered 0, 1, 2, ..., each pointing at a readable frame. */
  ghost predicate WellFormedFiles(baseOffset: u64, storeFile: seq<byte>, indexFile: seq<byte>)
  {
    && IndexNumbered(baseOffset, indexFile)
    && var es := EntriesOf(indexFile);
       forall k :: 0 <= k < |es| ==> Readable(storeFile, es[k].pos)
  }

  /** The index file holds whole entries whose relative offsets are 0, 1, 2, ...
      and whose absolute offsets stay below 2^64. */
  ghost predicate IndexNumbered(baseOffset: u64, indexFile: seq<byte>)
  {
    var es := EntriesOf(indexFile);
    && |indexFile| % EntWidth == 0
    && baseOffset + |es| < TWO_64
    && forall k :: 0 <= k < |es| ==> es[k].off == k
  }

  /** The frame at `pos` of the store contents `c` holds `data`. */
  ghost predicate HoldsFrame(c: seq<byte>, pos: nat, data: seq<byte>)
  {
    FrameAt(c, pos) == Ok(data)
  }

  /** A frame can be read at `pos` of the store contents `c`. */
  ghost predicate Readable(c: seq<byte>, pos: nat)
  {
    FrameAt(c, pos).Ok?
  }

  /** The payloads that the entries `es` point at in `storeFile`. */
  ghost function RecoveredRecords(storeFile: seq<byte>, es: seq<Entry>): (rs: seq<seq<byte>>)
    ensures |rs| == |es|
    ensures forall k :: 0 <= k < |es| && Readable(storeFile, es[k].pos) ==>
              HoldsFrame(storeFile, es[k].pos, rs[k])
  {
    seq(|es|, k requires 0 <= k < |es| =>
      var r := FrameAt(storeFile, es[k].pos); if r.Ok? then r.value else [])
  }

  /** Over a numbered index file, the entries fill the file exactly and
      their count fits the 32-bit relative offsets. */
  lemma IndexNumberedSize(baseOffset: u64, indexFile: seq<byte>)
    requires IndexNumbered(baseOffset, indexFile)
    ensures |indexFile| == EntWidth * |EntriesOf(indexFile)|
    ensures |EntriesOf(indexFile)| <= TWO_32
    ensures NextAfter(baseOffset, EntriesOf(indexFile)) == baseOffset + |EntriesOf(indexFile)|
  {
    var es := EntriesOf(indexFile);
    assert |indexFile| % EntWidth == 0 && |es| == |indexFile| / EntWidth;
    if |es| > 0 {
      assert es[|es| - 1].off == |es| - 1;
      assert (|es| - 1) % TWO_32 == |es| - 1;
    }
  }

  /** The `nextOffset` that `newSegment` recovers from the entries `es`: the
      base for no entries, otherwise one past the absolute offset of the entry
      `ReadLast` returns (the last one, unless the 32-bit wrap of its index
      picks an earlier one). */
  function NextAfter(baseOffset: u64, es: seq<Entry>): u64
  {
    if |es| == 0 then baseOffset else Wrap64(baseOffset + es[(|es| - 1) % TWO_32].off + 1)
  }

  /** Entry `k` of `es` is numbered `k` and points at a frame of `c` holding `records[k]`. */
  ghost predicate Agrees(es: seq<Entry>, c: seq<byte>, records: seq<seq<byte>>)
  {
    && |records| <= |es|
    && forall k :: 0 <= k < |records| ==> es[k].off == k && HoldsFrame(c, es[k].pos, records[k])
  }

  /** Over well-formed files the recovered records agree with the index and
      the store, the entries fill the index file, and the offset recovered
      from the last entry is the base offset plus the number of records. */
  lemma WellFormedRecovery(baseOffset: u64, storeFile: seq<byte>, indexFile: seq<byte>)
    requires WellFormedFiles(baseOffset, storeFile, indexFile)
    ensures var es := EntriesOf(indexFile);
            && |indexFile| == EntWidth * |es| && |es| <= TWO_32 && baseOffset + |es| < TWO_64
            && NextAfter(baseOffset, es) == baseOffset + |es|
            && Agrees(es, storeFile, RecoveredRecords(storeFile, es))
  {
    var es := EntriesOf(indexFile);
    IndexNumberedSize(baseOffset, indexFile);
    var rs := RecoveredRecords(storeFile, es);
    forall k | 0 <= k < |rs|
      ensures es[k].off == k && HoldsFrame(storeFile, es[k].pos, rs[k])
    {
      assert Readable(storeFile, es[k].pos);
    }
  }

  /** Appending a frame to the store and its entry to the index keeps the
      agreement, now with one more record. */
  lemma {:induction false} AgreesAppend(es: seq<Entry>, c: seq<byte>, records: seq<seq<byte>>, data: seq<byte>)
    requires Agrees(es, c, records) && |es| == |records|
    requires |records| < TWO_32 && |c| < TWO_64 && |data| < TWO_64
    ensures Agrees(es + [Entry(|records|, |c|)], c + Frame(data), records + [data])
  {
    var es', c', rs' := es + [Entry(|records|, |c|)], c + Frame(data), records + [data];
    forall k | 0 <= k < |rs'|
      ensures es'[k].off == k && HoldsFrame(c', es'[k].pos, rs'[k])
    {
      if k < |records| {
        AgreesExtend(es, c, records, Frame(data));
      } else {
        FrameRoundTrip(c, data);
      }
    }
  }

  /** Appending bytes to the store keeps every frame the entries point at. */
  lemma {:induction false} AgreesExtend(es: seq<Entry>, c: seq<byte>, records: seq<seq<byte>>, more: seq<byte>)
    requires Agrees(es, c, records)
    ensures Agrees(es, c + more, records)
  {
    forall k | 0 <= k < |records|
      ensures HoldsFrame(c + more, es[k].pos, records[k])
    {
      FrameAtExtend(c, more, es[k].pos);
    }
  }

  /** Fresh, empty files are well formed, and a segment opened over them
      holds no records and starts at its base offset. */
  lemma EmptyFilesWellFormed(baseOffset: u64)
    ensures WellFormedFiles(baseOffset, [], [])
    ensures NextAfter(baseOffset, EntriesOf([])) == baseOffset
    ensures RecoveredRecords([], EntriesOf([])) == []
  {
    assert EntriesOf([]) == [];
  }

  /** A successful append of a record of `len` bytes to a segment whose
      store and index hold `storeSize` and `indexSize` bytes leaves the
      segment maxed under `c`. */
  predicate Fills(c: Config, storeSize: nat, indexSize: nat, len: nat)
  {
    storeSize + LenWidth + len >= c.maxStoreBytes || indexSize + EntWidth >= c.maxIndexBytes
  }

  class Segment {
    const store: Store
    const index: Index
    const baseOffset: u64
    /** The offset the next appended record receives. */
    var nextOffset: u64
    const config: Config
    /** Set once `Remove` has deleted the segment's files. */
    var removed: bool
    /** The payloads held, in offset order (record `k` has offset `baseOffset + k`). */
    ghost var records: seq<seq<byte>>
    ghost const Repr: set<object>
    /** The store and index files the segment was opened over. */
    ghost const openedStore: seq<byte>
    ghost const openedIndex: seq<byte>
    /** The next offset and the records `newSegment` recovered from them. */
    ghost const openedNext: u64
    ghost const openedRecords: seq<seq<byte>>

    ghost predicate Valid()
      reads this, Repr
    {
      && Repr == {this, store, index, index.mmap}
      && store.Valid() && index.Valid()
      && index.mmap.Length == config.maxIndexBytes
    }

    /** The segment's files agree with `records`: entry `k` of the index is
        `(k, position of frame k)`, frame `k` of the store holds `records[k]`,
        the entries lie within the mapping, and `nextOffset - baseOffset` is
        the number of entries. */
    ghost predicate Consistent()
      reads this, Repr
    {
      && Valid()
      && index.size == EntWidth * |records| && index.size <= index.mmap.Length
      && nextOffset == baseOffset + |records|
      && Agrees(index.Entries(), store.Contents(), records)
    }

    /** The mutable state of the segment and its files: the store's file
        and buffer, the used part of the index, `nextOffset`, the removed
        flag and the records. */
    ghost function Snapshot(): (seq<byte>, seq<byte>, seq<byte>, u64, bool, seq<seq<byte>>)
      reads this, Repr
      requires Valid()
    {
      (store.file, store.buf, index.Used(), nextOffset, removed, records)
    }

    /** The state `newSegment` leaves after opening `openedStore` and `openedIndex`. */
    ghost function Opening(): (seq<byte>, seq<byte>, seq<byte>, u64, bool, seq<seq<byte>>)
    {
      (openedStore, [], Mapped(openedIndex, config.maxIndexBytes), openedNext, false, openedRecords)
    }

    /** The recovered offset and records are those of the opened files, as
        the mapping shows the index file, and `ReadLast` read them without
        panicking. */
    ghost predicate OpenedRecovered()
    {
      var es := EntriesOf(Mapped(openedIndex, config.maxIndexBytes));
      && !LastSlicesPast(|openedIndex|, config.maxIndexBytes)
      && openedNext == NextAfter(baseOffset, es)
      && openedRecords == RecoveredRecords(openedStore, es)
    }

    /** The segment is as `newSegment` left it, before any append. */
    ghost predicate Pristine()
      reads this, Repr
    {
      Valid() && Snapshot() == Opening()
    }

    /** The part of `newSegment` that sets `nextOffset`: the base offset for
        an empty index, otherwise one past the absolute offset of the last entry. */
    static method RecoverNextOffset(ix: Index, baseOffset: u64) returns (next: u64)
      requires !LastSlicesPast(ix.size, ix.mmap.Length)
      ensures next == NextAfter(baseOffset, ix.Entries())
    {
      var last := ix.ReadLast();
      if last.Err? {
        // the index is empty, so the segment starts at its base offset
        next := baseOffset;
      } else {
        // continue where the index left off
        next := Wrap64(baseOffset + last.value.off + 1);
      }
    }

    /** `newSegment`: opens the store and the index over the files found for
        `baseOffset`, and recovers `nextOffset` from the index's last entry.
        An index file whose last slot lies past the mapping makes `ReadLast`
        panic; every other length opens, a longer file with the bytes past
        the mapping lost. */
    constructor (baseOffset: u64, c: Config, storeFile: seq<byte>, indexFile: seq<byte>)
      requires |storeFile| < TWO_64 && |indexFile| < TWO_64
      requires !LastSlicesPast(|indexFile|, c.maxIndexBytes)
      ensures Valid() && fresh(Repr)
      ensures this.baseOffset == baseOffset && config == c
      ensures openedStore == storeFile && openedIndex == indexFile
      ensures Pristine() && OpenedRecovered()
    {
      var st := new Store(storeFile);
      var ix := new Index(indexFile, c.maxIndexBytes);
      var next := RecoverNextOffset(ix, baseOffset);
      ghost var rs := RecoveredRecords(storeFile, EntriesOf(Mapped(indexFile, c.maxIndexBytes)));
      this.baseOffset := baseOffset;
      config := c;
      store, index := st, ix;
      removed := false;
      nextOffset := next;
      records := rs;
      Repr := {this, st, ix, ix.mmap};
      openedStore, openedIndex := storeFile, indexFile;
      openedNext, openedRecords := next, rs;
    }

    /** `Append`: writes the frame to the store, then the entry
        `(nextOffset - baseOffset, position)` to the index, and only then
        advances `nextOffset`. */
    method Append(data: seq<byte>, ioOk: bool) returns (r: Result<u64>)
      requires Valid()
      requires store.size + LenWidth + |data| < TWO_64
      requires baseOffset <= nextOffset < baseOffset + TWO_32
      requires nextOffset + 1 < TWO_64
      modifies Repr
      ensures Valid() && removed == old(removed)
      ensures r.Ok? <==> ioOk && old(index.size) + EntWidth <= index.mmap.Length
      ensures r.Ok? ==> r.value == old(nextOffset) && nextOffset == old(nextOffset) + 1
      ensures r.Err? ==> nextOffset == old(nextOffset) && r.error == (if ioOk then EOF else IOFailure)
      ensures ioOk ==> store.Contents() == old(store.Contents()) + Frame(data)
      ensures !ioOk ==> store.Contents() == old(store.Contents()) && store.size == old(store.size)
      ensures r.Ok? ==> index.size == old(index.size) + EntWidth
      ensures r.Ok? && old(index.size) % EntWidth == 0 ==>
                index.Entries() == old(index.Entries()) + [Entry(old(nextOffset) - baseOffset, old(store.size))]
      ensures r.Err? ==> index.size == old(index.size) && index.mmap[..] == old(index.mmap[..])
      ensures old(Consistent()) ==> Consistent() && records == (if r.Ok? then old(records) + [data] else old(records))
      ensures r.Ok? ==> IsMaxed() == Fills(config, old(store.size), old(index.size), |data|)
    {
      ghost var wasConsistent := Consistent();
      ghost var oldContents := store.Contents();
      ghost var oldEntries := index.Entries();
      var _, pos, err := store.Append(data, ioOk);
      if err.Fail? {
        return Err(err.error);
      }
      if wasConsistent {
        AgreesExtend(oldEntries, oldContents, records, Frame(data));
      }
      // index offsets are relative to the base offset
      var relOffset := nextOffset - baseOffset;
      var werr := index.Write(relOffset, pos);
      if werr.Fail? {
        return Err(werr.error);
      }
      var cur := nextOffset;
      nextOffset := nextOffset + 1;
      r := Ok(cur);
      if wasConsistent {
        assert relOffset == |records| && pos == |oldContents|;
        assert index.Entries() == oldEntries + [Entry(relOffset, pos)];
        AgreesAppend(oldEntries, oldContents, records, data);
      }
      records := records + [data];
    }

    /** `Read(off)`: looks up entry `uint32(off - baseOffset)` in the index and
        reads the frame at its position from the store. */
    method Read(off: u64) returns (r: Result<seq<byte>>)
      requires Valid() && !SlicesPast(index.size, index.mmap.Length, RelOffset(baseOffset, off))
      modifies store
      ensures Valid() && store.Contents() == old(store.Contents()) && store.size == old(store.size)
      ensures Consistent() <==> old(Consistent())
      ensures r == Lookup(off)
      ensures Consistent() ==>
                r == if RelOffset(baseOffset, off) < |records| then Ok(records[RelOffset(baseOffset, off)]) else Err(EOF)
    {
      var relOffset := RelOffset(baseOffset, off);
      var e := index.Read(relOffset);
      if e.Err? {
        return Err(e.error);
      }
      r := store.Read(e.value.pos);
    }

    /** What `Read(off)` finds: the frame that the index entry for
        `uint32(off - baseOffset)` points at, or end-of-file when the index
        holds no such entry. */
    ghost function Lookup(off: u64): Result<seq<byte>>
      reads this, Repr
      requires Valid()
    {
      var rel := RelOffset(baseOffset, off);
      if rel < |index.Entries()| then FrameAt(store.Contents(), index.Entries()[rel].pos) else Err(EOF)
    }

    /** `IsMaxed`: the rotation trigger: the store or the index has reached
        its configured maximum. A segment that is not maxed has room in its
        store, and room for one more entry in its index whenever the used
        size and the capacity are whole numbers of entries; otherwise the
        index can lack room for an entry without the segment being maxed. */
    function IsMaxed(): (maxed: bool)
      reads this, store, index
      ensures !maxed ==> store.size < config.maxStoreBytes && index.size < config.maxIndexBytes
      ensures !maxed && index.size % EntWidth == 0 && config.maxIndexBytes % EntWidth == 0 ==>
                index.size + EntWidth <= config.maxIndexBytes
    {
      store.size >= config.maxStoreBytes || index.size >= config.maxIndexBytes
    }

    /** `Close`: closes the index, then the store; returns the two files as
        they are left on disk. */
    method Close() returns (storeFile: seq<byte>, indexFile: seq<byte>)
      requires Valid()
      modifies store
      ensures Valid() && store.buf == [] && store.Contents() == old(store.Contents()) && store.size == old(store.size)
      ensures storeFile == store.Contents() && indexFile == index.Used()
      ensures EntriesOf(indexFile) == index.Entries()
      ensures Consistent() <==> old(Consistent())
    {
      indexFile := index.Close();
      storeFile := store.Close();
    }

    /** `Remove`: closes the segment and deletes its files. */
    method Remove()
      requires Valid()
      modifies store, this`removed
      ensures Valid() && removed
      ensures store.buf == [] && store.Contents() == old(store.Contents()) && store.size == old(store.size)
      ensures old(Consistent()) ==> Consistent()
    {
      var _, _ := Close();
      removed := true;
    }
  }

  /** What a consistent segment leaves on disk is well formed, and opening a
      segment over it recovers the same next offset and the same records. */
  lemma ClosedFilesRecover(s: Segment)
    requires s.Consistent()
    ensures var indexFile := s.index.Used();
            && indexFile == s.index.mmap[..s.index.size]
            && !LastSlicesPast(|indexFile|, s.config.maxIndexBytes)
            && Mapped(indexFile, s.config.maxIndexBytes) == indexFile
            && WellFormedFiles(s.baseOffset, s.store.Contents(), indexFile)
            && NextAfter(s.baseOffset, EntriesOf(indexFile)) == s.nextOffset
            && RecoveredRecords(s.store.Contents(), EntriesOf(indexFile)) == s.records
  {
    var c, es, rs := s.store.Contents(), s.index.Entries(), s.records;
    assert |es| == |rs|;
    forall k | 0 <= k < |es|
      ensures Readable(c, es[k].pos)
    {
      assert HoldsFrame(c, es[k].pos, rs[k]);
    }
    assert IndexNumbered(s.baseOffset, s.index.Used());
    IndexNumberedSize(s.baseOffset, s.index.Used());
    var rec := RecoveredRecords(c, es);
    forall k | 0 <= k < |es|
      ensures rec[k] == rs[k]
    {
      assert HoldsFrame(c, es[k].pos, rs[k]);
    }
  }

  /** What a segment still as it was opened holds: the files' bytes, the
      index's entries, and the offset and records recovered from them. */
  lemma PristineState(s: Segment)
    requires s.Pristine() && s.OpenedRecovered()
    ensures !s.removed && s.store.Contents() == s.openedStore && s.store.buf == []
    ensures s.index.size == |s.openedIndex| && s.index.Used() == Mapped(s.openedIndex, s.config.maxIndexBytes)
    ensures var es := EntriesOf(Mapped(s.openedIndex, s.config.maxIndexBytes));
            && s.index.Entries() == es
            && s.nextOffset == NextAfter(s.baseOffset, es)
            && s.records == RecoveredRecords(s.openedStore, es)
    ensures |s.openedIndex| <= s.config.maxIndexBytes ==>
              && s.index.Entries() == EntriesOf(s.openedIndex)
              && s.nextOffset == NextAfter(s.baseOffset, EntriesOf(s.openedIndex))
              && s.records == RecoveredRecords(s.openedStore, EntriesOf(s.openedIndex))
  {
  }

  /** A segment still as it was opened over well-formed files is consistent with them. */
  lemma OpenedConsistent(s: Segment)
    requires s.Pristine() && s.OpenedRecovered()
    requires WellFormedFiles(s.baseOffset, s.openedStore, s.openedIndex)
    ensures s.Consistent()
  {
    PristineState(s);
    WellFormedRecovery(s.baseOffset, s.openedStore, s.openedIndex);
    WholeEntriesFit(|s.openedIndex|, s.config.maxIndexBytes);
  }

  /** A segment opened over no files is consistent and empty, and starts
      at its base offset. */
  lemma OpenedEmpty(s: Segment)
    requires s.Pristine() && s.OpenedRecovered() && s.openedStore == [] && s.openedIndex == []
    ensures s.Consistent() && !s.removed && s.nextOffset == s.baseOffset && s.records == []
  {
    EmptyFilesWellFormed(s.baseOffset);
    OpenedConsistent(s);
    PristineState(s);
  }
}
