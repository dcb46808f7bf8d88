/**
  ByteMessageFieldBlob: a view of a fixed number of bytes at a fixed offset
  of a shared message buffer, written by copying (truncated to the region,
  the rest zero-padded) or by filling, and read by copying out.
 */
module Blobs {
  import opened Bytes
  import opened Regions

  /** What a region of size bytes holds after data is copied into it: data cut to size, then zeros. */
  function Fitted(data: seq<Byte>, size: nat): (r: seq<Byte>)
    ensures |r| == size
    ensures r[..Min(|data|, size)] == data[..Min(|data|, size)]
    ensures forall i :: Min(|data|, size) <= i < size ==> r[i] == 0
  {
    if |data| >= size then data[..size] else data + Zeros(size - |data|)
  }

  /** Fitting is copying the first min(|data|, size) bytes and zero-filling from there. */
  lemma FittedSplit(data: seq<Byte>, size: nat)
    ensures Fitted(data, size) == data[..Min(|data|, size)] + Zeros(size - Min(|data|, size))
  {
    var m := Min(|data|, size);
    var r := data[..m] + Zeros(size - m);
    forall i | 0 <= i < size ensures Fitted(data, size)[i] == r[i] {
      if i < m {
        assert Fitted(data, size)[i] == Fitted(data, size)[..m][i];
      }
    }
  }

  /** Data that already has the region's size is copied whole. */
  lemma FittedWhole(data: seq<Byte>)
    ensures Fitted(data, |data|) == data
  {
    assert data[..|data|] == data;
  }

  /** ByteMessageFieldBlob. */
  class Blob {
    const buf: array<Byte>
    const pos: nat
    const size: nat

    /** The region lies inside the buffer. */
    predicate Valid()
    {
      pos + size <= buf.Length
    }

    /** The region's bytes. */
    function Region(): (r: seq<Byte>)
      requires Valid()
      reads buf
      ensures |r| == size
    {
      buf[pos..pos + size]
    }

    /** Binds the view to buf at pos and zero-fills the region. */
    constructor (buf: array<Byte>, pos: nat, size: nat)
      requires pos + size <= buf.Length
      modifies buf
      ensures Valid() && this.buf == buf && this.pos == pos && this.size == size
      ensures buf[..] == Write(old(buf[..]), pos, Zeros(size))
    {
      this.buf := buf;
      this.pos := pos;
      this.size := size;
      new;
      ZeroFill(0);
    }

    /** zerofill: clears the region from start on; nothing happens when start is past the region. */
    method ZeroFill(start: nat)
      requires Valid()
      modifies buf
      ensures start < size ==> buf[..] == Write(old(buf[..]), pos + start, Zeros(size - start))
      ensures start >= size ==> buf[..] == old(buf[..])
    {
      if start < size {
        Fill(buf, pos + start, size - start, 0);
        assert Repeat(0, size - start) == Zeros(size - start);
      }
    }

    /** set(data, length): copies data cut to the region, pads with zeros, and returns the number of bytes copied. */
    method SetBytes(data: seq<Byte>) returns (n: nat)
      requires Valid()
      modifies buf
      ensures n == Min(|data|, size)
      ensures buf[..] == Write(old(buf[..]), pos, Fitted(data, size))
    {
      var length := |data|;
      if length > size {
        length := size;
      }
      ghost var s := buf[..];
      CopyInto(buf, pos, data[..length]);
      ZeroFill(length);
      FittedSplit(data, size);
      if length < size {
        WriteAdjacent(s, pos, data[..length], Zeros(size - length));
      } else {
        assert Zeros(size - length) == [];
        assert data[..length] + [] == data[..length];
      }
      n := length;
    }

    /** set(value): sets every byte of the region to value and returns the region's size. */
    method SetAll(value: Byte) returns (n: nat)
      requires Valid()
      modifies buf
      ensures n == size
      ensures buf[..] == Write(old(buf[..]), pos, Repeat(value, size))
    {
      Fill(buf, pos, size, value);
      n := size;
    }

    /**
      get(out, length): copies min(length, size) bytes of the region to the
      start of out and returns that count; the message buffer is only read.
     */
    method Get(out: array<Byte>, length: nat) returns (n: nat)
      requires Valid() && length <= out.Length
      modifies out
      ensures n == Min(length, size)
      ensures out[..] == Write(old(out[..]), 0, old(Region()[..n]))
      ensures out != buf ==> buf[..] == old(buf[..])
    {
      n := length;
      if n > size {
        n := size;
      }
      assert Region()[..n] == buf[pos..pos + n];
      CopyInto(out, 0, buf[pos..pos + n]);
    }

    /**
      operator=: copies the other blob's bytes cut to this region and pads
      with zeros; assigning a blob to itself changes nothing.
     */
    method Assign(other: Blob)
      requires Valid() && other.Valid()
      modifies buf
      ensures buf[..] == Write(old(buf[..]), pos, Fitted(old(other.Region()), size))
    {
      if this == other {
        FittedWhole(Region());
        WriteSame(buf[..], pos, size);
        return;
      }
      var length := if size > other.size then other.size else size;
      ghost var s := buf[..];
      ghost var r := other.Region();
      var w := other.buf[other.pos..other.pos + length];
      assert w == r[..length];
      CopyInto(buf, pos, w);
      ZeroFill(length);
      FittedSplit(r, size);
      if length < size {
        WriteAdjacent(s, pos, w, Zeros(size - length));
      } else {
        assert Zeros(size - length) == [];
        assert w + [] == w;
      }
    }
  }
}
