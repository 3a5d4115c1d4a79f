/** The buffered checkpoint writer: bytes are staged in a fixed buffer and
    handed to the sink in bulk. */
module Serialize {
  import opened Wire

  /** Capacity of the staging buffer. */
  const BufferSize: nat := 256 * 1024
  /** Largest chunk copied between two boundary checks, and the headroom a
      boundary check guarantees. */
  const InsertSize: nat := 16 * 1024

  class Serializer {
    /** The staging buffer. */
    const buf: array<byte>
    /** Offset of the next free byte of buf. */
    var cp: nat
    /** Everything flushed so far: the file contents written by the binding. */
    var sink: seq<byte>

    ghost predicate Valid()
      reads this
    {
      buf.Length == BufferSize && cp <= BufferSize
    }

    /** The stream written so far: flushed bytes, then the buffered ones. */
    ghost function Stream(): seq<byte>
      reads this, buf
      requires Valid()
    {
      sink + buf[..cp]
    }

    constructor ()
      ensures Valid() && fresh(buf)
      ensures cp == 0 && sink == [] && Stream() == []
    {
      buf := new byte[BufferSize];
      cp := 0;
      sink := [];
    }

    /** The binding's flush: hand the buffered bytes to the sink and rewind
        the cursor. The written stream is unaffected. */
    method Flush()
      requires Valid()
      modifies this
      ensures Valid()
      ensures sink == old(sink) + old(buf[..cp]) && cp == 0
      ensures Stream() == old(Stream())
    {
      sink := sink + buf[..cp];
      cp := 0;
    }

    /** The base close: flush whatever is still buffered. */
    method Close()
      requires Valid()
      modifies this
      ensures Valid()
      ensures sink == old(Stream()) && cp == 0
    {
      Flush();
    }

    /** Flush when the cursor has passed BufferSize - InsertSize, so that at
        least InsertSize bytes of room are left. */
    method BufferCheck()
      requires Valid()
      modifies this
      ensures Valid() && cp <= BufferSize - InsertSize
      ensures Stream() == old(Stream())
      ensures old(cp) <= BufferSize - InsertSize ==> cp == old(cp) && sink == old(sink)
      ensures old(cp) > BufferSize - InsertSize ==> cp == 0 && sink == old(Stream())
    {
      if cp > BufferSize - InsertSize {
        Flush();
      }
    }

    /** Append data to the stream, in chunks of at most InsertSize bytes,
        each preceded by a boundary check. */
    method Write(data: seq<byte>)
      requires Valid()
      modifies this, buf
      ensures Valid()
      ensures Stream() == old(Stream()) + data
      ensures |data| == 0 ==> unchanged(this, buf)
    {
      ghost var before := Stream();
      var size: nat := |data|;
      var dp: nat := 0;
      while size != 0
        invariant Valid()
        invariant dp + size == |data|
        invariant Stream() == before + data[..dp]
        invariant dp == 0 ==> unchanged(this, buf)
      {
        BufferCheck();
        var blk := size;
        if blk > InsertSize {
          blk := InsertSize;
        }
        CopyChunk(data, dp, blk);
        assert data[..dp + blk] == data[..dp] + data[dp..dp + blk];
        dp := dp + blk;
        size := size - blk;
      }
      assert data[..dp] == data;
    }

    /** The inner byte-copy loop of Write: data[dp..dp + blk] goes to the
        buffer at the cursor, which the preceding boundary check left far
        enough from the end. */
    method CopyChunk(data: seq<byte>, dp: nat, blk: nat)
      requires Valid() && dp + blk <= |data|
      requires blk <= InsertSize && cp <= BufferSize - InsertSize
      modifies this, buf
      ensures Valid() && sink == old(sink) && cp == old(cp) + blk
      ensures Stream() == old(Stream()) + data[dp..dp + blk]
    {
      ghost var before := Stream();
      var i := dp;
      while i < dp + blk
        invariant dp <= i <= dp + blk
        invariant Valid() && sink == old(sink) && cp == old(cp) + (i - dp)
        invariant Stream() == before + data[dp..i]
      {
        ghost var written := buf[..cp];
        assert sink + written == before + data[dp..i];
        buf[cp] := data[i];
        assert buf[..cp + 1] == written + [data[i]];
        assert data[dp..i + 1] == data[dp..i] + [data[i]];
        cp := cp + 1;
        i := i + 1;
        assert Stream() == (sink + written) + [data[i - 1]];
      }
    }
  }
}
