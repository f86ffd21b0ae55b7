/** The index: a fixed-capacity, memory-mapped array of packed 12-byte
    entries, each a 4-byte relative offset and an 8-byte store position. */
module Indices {
  import opened Bytes
  import opened Errors

  const OffWidth: nat := 4
  const PosWidth: nat := 8
  const EntWidth: nat := 12  // OffWidth + PosWidth

  /** One index entry: a record's offset relative to the segment's base, and
      the position of its frame in the store. */
  datatype Entry = Entry(off: u32, pos: u64)

  /** The 12 bytes `Write` puts into the mapping for an entry. */
  function EncodeEntry(e: Entry): (b: seq<byte>)
    ensures |b| == EntWidth
  {
    ToBE(e.off, OffWidth) + ToBE(e.pos, PosWidth)
  }

  /** The entry `Read` decodes from 12 bytes of the mapping. */
  function DecodeEntry(b: seq<byte>): (e: Entry)
    requires |b| == EntWidth
  {
    Pow256Values();
    Entry(FromBE(b[..OffWidth]), FromBE(b[OffWidth..]))
  }

  /** An encoded entry decodes to itself. */
  lemma EntryRoundTrip(e: Entry)
    ensures DecodeEntry(EncodeEntry(e)) == e
  {
    var b := EncodeEntry(e);
    Pow256Values();
    assert b[..OffWidth] == ToBE(e.off, OffWidth);
    assert b[OffWidth..] == ToBE(e.pos, PosWidth);
    DecodeEncode(e.off, OffWidth);
    DecodeEncode(e.pos, PosWidth);
  }

  /** Twelve bytes are determined by the entry they decode to. */
  lemma EntryBytesRoundTrip(b: seq<byte>)
    requires |b| == EntWidth
    ensures EncodeEntry(DecodeEntry(b)) == b
  {
    EncodeDecode(b[..OffWidth]);
    EncodeDecode(b[OffWidth..]);
    assert b == b[..OffWidth] + b[OffWidth..];
  }

  /** The entries held by the bytes `b`: one per whole 12-byte slot. */
  function EntriesOf(b: seq<byte>): (r: seq<Entry>)
    ensures |r| == |b| / EntWidth
    decreases |b|
  {
    if |b| < EntWidth then [] else [DecodeEntry(b[..EntWidth])] + EntriesOf(b[EntWidth..])
  }

  /** Entry `n` of `b` is the one decoded at byte `n * 12`. */
  lemma {:induction false} EntriesOfAt(b: seq<byte>, n: nat)
    requires n * EntWidth + EntWidth <= |b|
    ensures EntriesOf(b)[n] == DecodeEntry(b[n * EntWidth..n * EntWidth + EntWidth])
  {
    if n > 0 {
      var i := (n - 1) * EntWidth;
      assert i + EntWidth == n * EntWidth;
      EntriesOfAt(b[EntWidth..], n - 1);
      assert b[EntWidth..][i..i + EntWidth] == b[i + EntWidth..i + EntWidth + EntWidth];
    }
  }

  /** Writing an entry after whole entries adds exactly that entry. */
  lemma {:induction false} EntriesOfAppend(b: seq<byte>, e: Entry)
    requires |b| % EntWidth == 0
    ensures EntriesOf(b + EncodeEntry(e)) == EntriesOf(b) + [e]
    decreases |b|
  {
    var c := b + EncodeEntry(e);
    if |b| == 0 {
      assert c[..EntWidth] == EncodeEntry(e);
      EntryRoundTrip(e);
      assert c[EntWidth..] == [];
    } else {
      assert c[..EntWidth] == b[..EntWidth];
      assert c[EntWidth..] == b[EntWidth..] + EncodeEntry(e);
      EntriesOfAppend(b[EntWidth..], e);
    }
  }

  /** `n` zero bytes. */
  function Zeros(n: nat): (z: seq<byte>)
    ensures |z| == n
  {
    seq(n, _ => 0)
  }

  /** The index file once `newIndex` has resized it to `capacity` bytes with
      `os.Truncate`: a shorter file is zero-filled, a longer one is cut. */
  function Resized(existing: seq<byte>, capacity: nat): (r: seq<byte>)
    ensures |r| == capacity
    ensures |existing| <= capacity ==> r[..|existing|] == existing
    ensures |existing| > capacity ==> r == existing[..capacity]
  {
    if |existing| <= capacity then existing + Zeros(capacity - |existing|) else existing[..capacity]
  }

  /** The first `size` bytes of the mapping `m`, as `file.Truncate(size)` in
      `Close` leaves them in the file: past the end of the mapping the file
      is zero-filled. */
  function UsedBytes(m: seq<byte>, size: nat): (r: seq<byte>)
    ensures |r| == size
    ensures size <= |m| ==> r == m[..size]
    ensures size > |m| ==> r[..|m|] == m
  {
    if size <= |m| then m[..size] else m + Zeros(size - |m|)
  }

  /** The used bytes of an index just opened over `existing` with a mapping
      of `capacity` bytes: the used size is the file's old length, so a file
      longer than the mapping keeps its length but loses the bytes past the
      mapping, which read as zeros. */
  function Mapped(existing: seq<byte>, capacity: nat): (r: seq<byte>)
    ensures |r| == |existing|
    ensures |existing| <= capacity ==> r == existing
    ensures |existing| > capacity ==> r[..capacity] == existing[..capacity]
  {
    var m := Resized(existing, capacity);
    assert |existing| <= capacity ==> m[..|existing|] == existing;
    UsedBytes(m, |existing|)
  }

  /** Slot `n` lies within the used size but past the end of a mapping of
      `capacity` bytes: `Read(n)` slices the mapping out of range and panics. */
  predicate SlicesPast(size: nat, capacity: nat, n: nat)
  {
    capacity < n * EntWidth + EntWidth <= size
  }

  /** The slot `ReadLast` reads: `uint32(size/12 - 1)`, with the unsigned
      wrap-around of both conversions. */
  function LastSlot(size: nat): u32
  {
    Wrap32(Wrap64(size / EntWidth - 1))
  }

  /** `ReadLast` on an index of `size` used bytes over a mapping of
      `capacity` bytes panics. This can only happen once an index file longer
      than the mapping was opened. */
  predicate LastSlicesPast(size: nat, capacity: nat)
  {
    size != 0 && SlicesPast(size, capacity, LastSlot(size))
  }

  /** A used size made of whole entries, at most 2^32 of them, whose last
      slot `ReadLast` reads without panicking, fits in the mapping. */
  lemma WholeEntriesFit(size: nat, capacity: nat)
    requires size % EntWidth == 0 && size / EntWidth <= TWO_32
    requires !LastSlicesPast(size, capacity)
    ensures size <= capacity
  {
    if size != 0 {
      assert LastSlot(size) == size / EntWidth - 1;
      assert LastSlot(size) * EntWidth + EntWidth == size;
    }
  }

  class Index {
    /** The mapping of the index file, pre-sized to the maximum capacity. */
    const mmap: array<byte>
    /** Bytes in use: where the next entry is written. */
    var size: u64

    ghost predicate Valid()
      reads this
    {
      mmap.Length < TWO_64
    }

    /** The used part of the index: the first `size` bytes, which `Close`
        leaves in the file. */
    ghost function Used(): (u: seq<byte>)
      reads this, mmap
      ensures |u| == size
    {
      UsedBytes(mmap[..], size)
    }

    /** The entries written so far. */
    ghost function Entries(): seq<Entry>
      reads this, mmap
    {
      EntriesOf(Used())
    }

    /** `newIndex`: the file holding `existing` is resized to `maxIndexBytes`
        and mapped; the used size is the file's old length, which `Close`
        left equal to the used size of the previous run. */
    constructor (existing: seq<byte>, maxIndexBytes: u64)
      requires |existing| < TWO_64
      ensures Valid() && fresh(mmap) && mmap.Length == maxIndexBytes
      ensures mmap[..] == Resized(existing, maxIndexBytes)
      ensures size == |existing| && Used() == Mapped(existing, maxIndexBytes)
      ensures Entries() == EntriesOf(Mapped(existing, maxIndexBytes))
      ensures |existing| <= maxIndexBytes ==> Entries() == EntriesOf(existing)
    {
      mmap := new byte[maxIndexBytes](i => if 0 <= i < |existing| then existing[i] else 0);
      size := |existing|;
      new;
      assert mmap[..] == Resized(existing, maxIndexBytes);
    }

    /** `Read(n)`: entry `n`, or end-of-file when it lies beyond the used size. */
    function Read(n: u32): (r: Result<Entry>)
      reads this, mmap
      requires !SlicesPast(size, mmap.Length, n)
      ensures r.Err? <==> size < n * EntWidth + EntWidth
      ensures r.Err? ==> r.error == EOF
      ensures r.Ok? ==> n < |Entries()| && r.value == Entries()[n]
    {
      var indPos := n * EntWidth;
      if size < indPos + EntWidth then Err(EOF)
      else
        assert n < size / EntWidth;
        EntriesOfAt(Used(), n);
        assert Used()[indPos..indPos + EntWidth] == mmap[indPos..indPos + EntWidth];
        Ok(DecodeEntry(mmap[indPos..indPos + EntWidth]))
    }

    /** `ReadLast`: end-of-file on an empty index, otherwise entry
        `uint32(size/12 - 1)`, computed with the source's unsigned wrap-around. */
    function ReadLast(): (r: Result<Entry>)
      reads this, mmap
      requires !LastSlicesPast(size, mmap.Length)
      ensures |Entries()| == 0 ==> r == Err(EOF)
      ensures |Entries()| > 0 ==> r == Ok(Entries()[(|Entries()| - 1) % TWO_32])
      ensures 0 < |Entries()| <= TWO_32 ==> r == Ok(Entries()[|Entries()| - 1])
    {
      if size == 0 then Err(EOF)
      else Read(LastSlot(size))
    }

    /** `Write(off, pos)`: appends one entry, or fails with end-of-file when
        the mapping has no room for 12 more bytes. */
    method Write(off: u32, pos: u64) returns (r: Outcome)
      requires Valid()
      modifies this, mmap
      ensures Valid()
      ensures r == (if old(size) + EntWidth <= mmap.Length then Pass else Fail(EOF))
      ensures r.Fail? ==> size == old(size) && mmap[..] == old(mmap[..])
      ensures r.Pass? ==> size == old(size) + EntWidth
      ensures r.Pass? ==> mmap[..] == old(mmap[..size]) + EncodeEntry(Entry(off, pos)) + old(mmap[size + EntWidth..])
      ensures r.Pass? && old(size) % EntWidth == 0 ==> Entries() == old(Entries()) + [Entry(off, pos)]
      ensures old(size) % EntWidth == 0 ==> size % EntWidth == 0
    {
      if mmap.Length < size + EntWidth {
        return Fail(EOF);
      }
      ghost var before := mmap[..];
      ghost var used := Used();
      assert used == before[..size];
      var offBytes := ToBE(off, OffWidth);
      forall i | 0 <= i < OffWidth {
        mmap[size + i] := offBytes[i];
      }
      var posBytes := ToBE(pos, PosWidth);
      forall i | 0 <= i < PosWidth {
        mmap[size + OffWidth + i] := posBytes[i];
      }
      ghost var enc := EncodeEntry(Entry(off, pos));
      ghost var after := before[..size] + enc + before[size + EntWidth..];
      assert |after| == mmap.Length;
      forall i | 0 <= i < mmap.Length
        ensures mmap[i] == after[i]
      {
        if size <= i < size + OffWidth {
          assert after[i] == enc[i - size] == offBytes[i - size];
        } else if size + OffWidth <= i < size + EntWidth {
          assert after[i] == enc[i - size] == posBytes[i - size - OffWidth];
        }
      }
      assert mmap[..] == after;
      assert mmap[..size + EntWidth] == before[..size] + enc;
      if size % EntWidth == 0 {
        EntriesOfAppend(before[..size], Entry(off, pos));
      }
      size := size + EntWidth;
      r := Pass;
      assert Used() == used + enc;
    }

    /** `Close`: the file is truncated to the used size, so it holds exactly
        the used bytes; reopening it restores the same size and entries. */
    method Close() returns (persisted: seq<byte>)
      requires Valid()
      ensures |persisted| == size && persisted == Used()
      ensures size <= mmap.Length ==> persisted == mmap[..size]
      ensures EntriesOf(persisted) == Entries()
    {
      persisted := UsedBytes(mmap[..], size);
    }
  }
}
