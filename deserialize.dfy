/** The buffered checkpoint reader: bytes are refilled from the source into a
    fixed buffer and consumed from it. */
module Deserialize {
  import opened Wire
  import opened Wrappers

  /** Capacity of the staging buffer. */
  const BufferSize: nat := 256 * 1024
  /** Largest chunk copied between two boundary checks, and the number of
      unread bytes a boundary check guarantees unless the source has run dry. */
  const InsertSize: nat := 16 * 1024

  /** Why a read fails: the stream ended before the bytes asked for, or the
      bytes read differ from the ones an integrity check expected. */
  datatype Error = Truncated | Mismatch

  class Deserializer {
    /** The staging buffer. */
    const buf: array<byte>
    /** Offset of the next unread byte of buf. */
    var cp: nat
    /** Offset just past the valid bytes of buf; 0 before the first fill. */
    var endp: nat
    /** The bytes of the file not yet brought into the buffer. */
    var source: seq<byte>

    ghost predicate Valid()
      reads this
    {
      buf.Length == BufferSize && cp <= endp <= BufferSize
    }

    /** The rest of the stream: unread buffered bytes, then the source. */
    ghost function Remaining(): seq<byte>
      reads this, buf
      requires Valid()
    {
      buf[cp..endp] + source
    }

    /** A reader over the given file contents. No byte is buffered yet, so the
        first boundary check fills. */
    constructor (contents: seq<byte>)
      ensures Valid() && fresh(buf)
      ensures cp == 0 && endp == 0 && source == contents
      ensures Remaining() == contents
    {
      buf := new byte[BufferSize];
      cp, endp := 0, 0;
      source := contents;
    }

    /** The binding's fill: keeps the rest of the stream as it is, and leaves
        at least InsertSize unread bytes unless the source is exhausted. The
        body slides the unread bytes to the front of the buffer and appends
        as much of the source as fits. */
    method Fill()
      requires Valid()
      modifies this, buf
      ensures Valid()
      ensures Remaining() == old(Remaining())
      ensures endp - cp >= InsertSize || source == []
    {
      Compact();
      var n := |source|;
      if n > BufferSize - endp {
        n := BufferSize - endp;
      }
      Append(n);
    }

    /** Slide the unread bytes to the front of the buffer. */
    method Compact()
      requires Valid()
      modifies this, buf
      ensures Valid() && cp == 0 && endp == old(endp) - old(cp)
      ensures source == old(source) && Remaining() == old(Remaining())
    {
      var len := endp - cp;
      var i := 0;
      while i < len
        invariant 0 <= i <= len
        modifies buf
        invariant forall k :: 0 <= k < i ==> buf[k] == old(buf[cp + k])
        invariant forall k :: i <= k < BufferSize ==> buf[k] == old(buf[k])
      {
        buf[i] := buf[cp + i];
        i := i + 1;
      }
      assert buf[..len] == old(buf[cp..endp]);
      cp, endp := 0, len;
    }

    /** Move the next n source bytes to the end of the valid buffer region. */
    method Append(n: nat)
      requires Valid() && cp == 0 && n <= |source| && endp + n <= BufferSize
      modifies this, buf
      ensures Valid() && cp == 0 && endp == old(endp) + n
      ensures source == old(source)[n..] && Remaining() == old(Remaining())
    {
      ghost var valid := buf[..endp];
      var j := 0;
      while j < n
        invariant 0 <= j <= n
        modifies buf
        invariant buf[..endp + j] == valid + source[..j]
      {
        ghost var done := buf[..endp + j];
        buf[endp + j] := source[j];
        assert buf[..endp + j + 1] == done + [source[j]];
        assert source[..j + 1] == source[..j] + [source[j]];
        j := j + 1;
      }
      assert source == source[..n] + source[n..];
      AppendAssoc(valid, source[..n], source[n..]);
      endp, source := endp + n, source[n..];
      assert buf[cp..endp] == valid + old(source)[..n];
    }

    /** Fill when fewer than InsertSize unread bytes are buffered. */
    method BufferCheck()
      requires Valid()
      modifies this, buf
      ensures Valid()
      ensures Remaining() == old(Remaining())
      ensures endp - cp >= InsertSize || source == []
      ensures old(cp) + InsertSize <= old(endp) ==> unchanged(this, buf)
    {
      if cp + InsertSize > endp {
        Fill();
      }
    }

    /** The next size bytes of the stream, taken in chunks of at most
        InsertSize bytes, each preceded by a boundary check. Fails when the
        stream holds fewer than size bytes. */
    method Read(size: nat) returns (r: Result<seq<byte>, Error>)
      requires Valid()
      modifies this, buf
      ensures Valid()
      ensures size <= |old(Remaining())| ==>
        r == Success(old(Remaining())[..size]) && Remaining() == old(Remaining())[size..]
      ensures |old(Remaining())| < size ==> r == Failure(Truncated)
    {
      ghost var before := Remaining();
      var out: seq<byte> := [];
      var left: nat := size;
      while left != 0
        invariant Valid()
        invariant |out| + left == size
        invariant before == out + Remaining()
      {
        var blk: nat := left;
        if blk > InsertSize {
          blk := InsertSize;
        }
        var chunk := ReadChunk(blk);
        if chunk.Failure? {
          return Failure(Truncated);
        }
        AppendAssoc(out, chunk.value, Remaining());
        out := out + chunk.value;
        left := left - blk;
      }
      assert before[..size] == out && before[size..] == Remaining();
      return Success(out);
    }

    /** One iteration of Read's loop: the boundary check, then blk bytes
        copied from the buffer. Fails when the stream holds fewer than blk
        bytes even after the check. */
    method ReadChunk(blk: nat) returns (r: Result<seq<byte>, Error>)
      requires Valid() && blk <= InsertSize
      modifies this, buf
      ensures Valid()
      ensures blk <= |old(Remaining())| ==>
        r.Success? && |r.value| == blk && old(Remaining()) == r.value + Remaining()
      ensures |old(Remaining())| < blk ==> r == Failure(Truncated)
    {
      BufferCheck();
      if endp - cp < blk {
        assert |Remaining()| == endp - cp;
        return Failure(Truncated);
      }
      var chunk := CopyChunk(blk);
      return Success(chunk);
    }

    /** The inner byte-copy loop of Read: the next blk buffered bytes, all of
        them before endp. */
    method CopyChunk(blk: nat) returns (chunk: seq<byte>)
      requires Valid() && cp + blk <= endp
      modifies this
      ensures Valid() && endp == old(endp) && source == old(source)
      ensures cp == old(cp) + blk && |chunk| == blk
      ensures old(Remaining()) == chunk + Remaining()
    {
      ghost var before := Remaining();
      chunk := [];
      var i := 0;
      while i < blk
        invariant 0 <= i <= blk
        invariant Valid() && endp == old(endp) && source == old(source)
        invariant cp == old(cp) + i && |chunk| == i
        invariant before == chunk + Remaining()
      {
        assert buf[cp..endp] == [buf[cp]] + buf[cp + 1..endp];
        chunk := chunk + [buf[cp]];
        cp := cp + 1;
        i := i + 1;
      }
    }

    /** Read as many bytes as expected holds and compare them with it. */
    method ReadAssert(expected: seq<byte>) returns (r: Outcome<Error>)
      requires Valid()
      modifies this, buf
      ensures Valid()
      ensures |old(Remaining())| < |expected| ==> r == Fail(Truncated)
      ensures |expected| <= |old(Remaining())| ==>
        Remaining() == old(Remaining())[|expected|..] &&
        (r == Pass <==> old(Remaining())[..|expected|] == expected) &&
        (r != Pass ==> r == Fail(Mismatch))
    {
      var got := Read(|expected|);
      match got
      case Failure(e) =>
        r := Fail(e);
      case Success(data) =>
        r := if data == expected then Pass else Fail(Mismatch);
    }

    /** The integrity check of a 64-bit value: the byte-level check on the
        value's memory image. */
    method ReadAssertU64(data: u64) returns (r: Outcome<Error>)
      requires Valid()
      modifies this, buf
      ensures Valid()
      ensures |old(Remaining())| < 8 ==> r == Fail(Truncated)
      ensures 8 <= |old(Remaining())| ==>
        Remaining() == old(Remaining())[8..] &&
        (r == Pass <==> old(Remaining())[..8] == HostBytes(data, 8)) &&
        (r != Pass ==> r == Fail(Mismatch))
    {
      PowWidths();
      r := ReadAssert(HostBytes(data, 8));
    }
  }
}
