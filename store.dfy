/** The store: an append-only file of length-prefixed frames, written through
    a buffer that every read flushes first. */
module Stores {
  import opened Bytes
  import opened Errors

  /** Width of the big-endian length that heads every frame. */
  const LenWidth: nat := 8

  /** The frame `Append` writes for `data`: its 8-byte big-endian length, then the bytes. */
  function Frame(data: seq<byte>): (f: seq<byte>)
    ensures |f| == LenWidth + |data|
  {
    ToBE(|data|, LenWidth) + data
  }

  /** A positional read of `n` bytes at `off` from a file holding `f`, as
      `os.File.ReadAt` does it: a negative offset is an error, a read of no
      bytes succeeds wherever it starts, and fewer bytes than asked for come
      back with an end-of-file error. */
  function FileReadAt(f: seq<byte>, off: int, n: nat): (r: (seq<byte>, Outcome))
    ensures off < 0 ==> r == ([], Fail(NegativeOffset))
    ensures |r.0| <= n
    ensures off >= 0 ==> (r.1 == Pass <==> n == 0 || off + n <= |f|)
    ensures off >= 0 && n == 0 ==> r.0 == []
    ensures off >= 0 && off + n <= |f| ==> r.0 == f[off..off + n]
    ensures off >= 0 && n > 0 && off + n > |f| ==> r.1 == Fail(EOF) && r.0 == (if off < |f| then f[off..] else [])
  {
    if off < 0 then ([], Fail(NegativeOffset))
    else if n == 0 then ([], Pass)
    else if off + n <= |f| then (f[off..off + n], Pass)
    else if off < |f| then (f[off..], Fail(EOF))
    else ([], Fail(EOF))
  }

  /** What `Read(pos)` returns from a store whose logical contents are `c`:
      the payload of the frame starting at `pos`, or end-of-file when the
      length or the payload runs past the end. */
  function FrameAt(c: seq<byte>, pos: nat): (r: Result<seq<byte>>)
    ensures r.Ok? <==> pos + LenWidth <= |c| && pos + LenWidth + FromBE(c[pos..pos + LenWidth]) <= |c|
    ensures r.Ok? ==> r.value == c[pos + LenWidth..pos + LenWidth + FromBE(c[pos..pos + LenWidth])]
    ensures r.Err? ==> r.error == EOF
  {
    var (header, e1) := FileReadAt(c, pos, LenWidth);
    if e1.Fail? then Err(e1.error)
    else
      var (content, e2) := FileReadAt(c, pos + LenWidth, FromBE(header));
      if e2.Fail? then Err(e2.error) else Ok(content)
  }

  /** Round trip of one frame: reading at the position where a frame was
      appended gives back exactly the appended bytes. */
  lemma FrameRoundTrip(c: seq<byte>, data: seq<byte>)
    requires |data| < TWO_64
    ensures FrameAt(c + Frame(data), |c|) == Ok(data)
  {
    var f := c + Frame(data);
    Pow256Values();
    DecodeEncode(|data|, LenWidth);
    assert f[|c|..|c| + LenWidth] == ToBE(|data|, LenWidth);
    assert f[|c| + LenWidth..|c| + LenWidth + |data|] == data;
  }

  /** Appending never disturbs a frame that could already be read. */
  lemma FrameAtExtend(c: seq<byte>, more: seq<byte>, pos: nat)
    requires FrameAt(c, pos).Ok?
    ensures FrameAt(c + more, pos) == FrameAt(c, pos)
  {
    var f := c + more;
    assert f[pos..pos + LenWidth] == c[pos..pos + LenWidth];
    var n := FromBE(c[pos..pos + LenWidth]);
    assert f[pos + LenWidth..pos + LenWidth + n] == c[pos + LenWidth..pos + LenWidth + n];
  }

  class Store {
    /** Bytes already written to the file. */
    var file: seq<byte>
    /** Bytes accepted by the buffered writer and not yet flushed. */
    var buf: seq<byte>
    /** The store's size counter: the position of the next frame. */
    var size: u64

    ghost predicate Valid()
      reads this
    {
      size == |file| + |buf|
    }

    /** The logical file: what a reader sees once the buffer is flushed. */
    ghost function Contents(): seq<byte>
      reads this
    {
      file + buf
    }

    /** `newStore`: a store over a file that already holds `existing`; the
        size counter starts at the file's length, so earlier frames keep their
        positions. */
    constructor (existing: seq<byte>)
      requires |existing| < TWO_64
      ensures Valid() && file == existing && buf == []
      ensures Contents() == existing && size == |existing|
    {
      file := existing;
      buf := [];
      size := |existing|;
    }

    /** Appends one frame for `data`; `ioOk` says whether the buffered writes
        succeed. Returns the frame's width and its start position. */
    method Append(data: seq<byte>, ioOk: bool) returns (n: u64, pos: u64, err: Outcome)
      requires Valid()
      requires size + LenWidth + |data| < TWO_64
      modifies this
      ensures Valid() && file == old(file)
      ensures err == (if ioOk then Pass else Fail(IOFailure))
      ensures err.Pass? ==> pos == old(size) && n == LenWidth + |data| && size == pos + n
      ensures err.Pass? ==> Contents() == old(Contents()) + Frame(data)
      ensures err.Fail? ==> n == 0 && pos == 0 && size == old(size) && Contents() == old(Contents())
    {
      pos := size;
      if !ioOk {
        return 0, 0, Fail(IOFailure);
      }
      buf := buf + ToBE(|data|, LenWidth);
      var w := |data|;
      buf := buf + data;
      w := w + LenWidth;
      size := size + w;
      n := w;
      err := Pass;
    }

    /** Moves the buffered bytes into the file. */
    method Flush()
      requires Valid()
      modifies this
      ensures Valid() && buf == [] && file == old(Contents()) && size == old(size)
    {
      file := file + buf;
      buf := [];
    }

    /** `Read(pos)`: flushes, then decodes the frame at `pos`. */
    method Read(pos: u64) returns (r: Result<seq<byte>>)
      requires Valid()
      modifies this
      ensures Valid() && buf == [] && file == old(Contents()) && size == old(size)
      ensures r == FrameAt(old(Contents()), pos)
    {
      Flush();
      var (header, e1) := FileReadAt(file, pos, LenWidth);
      if e1.Fail? {
        return Err(e1.error);
      }
      var (content, e2) := FileReadAt(file, pos + LenWidth, FromBE(header));
      if e2.Fail? {
        return Err(e2.error);
      }
      r := Ok(content);
    }

    /** `ReadAt(p, off)`: flushes, then fills `p` from the file at `off`;
        returns how many bytes were read and the error of a short read. */
    method ReadAt(p: array<byte>, off: int) returns (n: nat, err: Outcome)
      requires Valid()
      modifies this, p
      ensures Valid() && buf == [] && file == old(Contents()) && size == old(size)
      ensures n <= p.Length && err == FileReadAt(file, off, p.Length).1
      ensures p[..n] == FileReadAt(file, off, p.Length).0
      ensures p[n..] == old(p[n..])
    {
      Flush();
      var (got, e) := FileReadAt(file, off, p.Length);
      forall i | 0 <= i < |got| {
        p[i] := got[i];
      }
      n, err := |got|, e;
    }

    /** `Close`: flushes; the bytes returned are the file as it is left on disk. */
    method Close() returns (persisted: seq<byte>)
      requires Valid()
      modifies this
      ensures Valid() && buf == [] && file == old(Contents()) && size == old(size)
      ensures persisted == old(Contents())
    {
      Flush();
      persisted := file;
    }
  }
}
