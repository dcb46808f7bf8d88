/**
  ByteMessageChecksum: a checksum over the bytes [0, pos) of a message
  buffer, stored big-endian at [pos, pos + sizeof(T)) through an integer
  field of the checksum's width.
 */
module ChecksumFields {
  import opened Bytes
  import opened Regions
  import opened Fields
  import opened Checksums

  /** The unsigned field type T that holds the algorithm's result. */
  function FieldType(a: Algorithm): (t: IntType)
    ensures !Signed(t) && Size(t) == Width(a)
  {
    match Width(a)
    case 1 => UInt8
    case 2 => UInt16
    case 4 => UInt32
    case 8 => UInt64
  }

  /** What calc() gives for buffer s: the checksum of the bytes before pos, which leaves out the checksum's own bytes and all after them. */
  function Computed(a: Algorithm, s: seq<Byte>, pos: nat): (r: nat)
    requires pos <= |s|
    ensures InRange(FieldType(a), r)
    ensures forall t: seq<Byte> :: pos <= |t| && t[..pos] == s[..pos] ==> r == Compute(a, t[..pos])
  {
    Compute(a, s[..pos])
  }

  /** What get() gives for buffer s: the value stored in the checksum's bytes, not recomputed. */
  function Stored(a: Algorithm, s: seq<Byte>, pos: nat): (v: int)
    requires pos + Width(a) <= |s|
    ensures InRange(FieldType(a), v) && Encode(FieldType(a), v) == s[pos..pos + Width(a)]
  {
    Decode(FieldType(a), s[pos..pos + Width(a)])
  }

  /** What check() gives for buffer s. */
  predicate Verifies(a: Algorithm, s: seq<Byte>, pos: nat)
    requires pos + Width(a) <= |s|
  {
    Computed(a, s, pos) == Stored(a, s, pos)
  }

  /**
    The buffer after update(): the computed checksum written over the
    checksum's bytes, all else unchanged; a buffer updated this way verifies.
   */
  function WithChecksum(a: Algorithm, s: seq<Byte>, pos: nat): (r: seq<Byte>)
    requires pos + Width(a) <= |s|
    ensures |r| == |s| && r[..pos] == s[..pos] && r[pos + Width(a)..] == s[pos + Width(a)..]
    ensures Verifies(a, r, pos)
  {
    var e := Encode(FieldType(a), Computed(a, s, pos));
    WriteChecksum(a, s, pos, e);
    Write(s, pos, e)
  }

  /** Writing the encoded checksum keeps the bytes around it, and so keeps the checksum. */
  lemma WriteChecksum(a: Algorithm, s: seq<Byte>, pos: nat, e: seq<Byte>)
    requires pos + Width(a) <= |s| && e == Encode(FieldType(a), Computed(a, s, pos))
    ensures Write(s, pos, e)[..pos] == s[..pos]
    ensures Write(s, pos, e)[pos + Width(a)..] == s[pos + Width(a)..]
    ensures Verifies(a, Write(s, pos, e), pos)
  {
    WriteAround(s, pos, e);
    ComputedFrame(a, s, Write(s, pos, e), pos);
    StoredWritten(a, s, pos, Computed(a, s, pos));
  }

  /** A write at p keeps the bytes before p and after the written run. */
  lemma WriteAround(s: seq<Byte>, p: nat, w: seq<Byte>)
    requires p + |w| <= |s|
    ensures Write(s, p, w)[..p] == s[..p]
    ensures Write(s, p, w)[p + |w|..] == s[p + |w|..]
  {
    var r := Write(s, p, w);
    var end := p + |w|;
    assert r[..p] == s[..p] by {
      WriteFrame(s, p, w, 0, p);
      assert r[..p] == r[0..p];
      assert s[..p] == s[0..p];
    }
    assert r[end..] == s[end..] by {
      var n := |s| - end;
      WriteFrame(s, p, w, end, n);
      assert r[end..] == r[end..end + n];
      assert s[end..] == s[end..end + n];
    }
  }

  /** calc() depends only on the bytes before pos. */
  lemma ComputedFrame(a: Algorithm, s: seq<Byte>, r: seq<Byte>, pos: nat)
    requires pos <= |s| && pos <= |r| && r[..pos] == s[..pos]
    ensures Computed(a, r, pos) == Computed(a, s, pos)
  {
  }

  /** get() after the checksum's bytes were written with the encoding of x returns x. */
  lemma StoredWritten(a: Algorithm, s: seq<Byte>, pos: nat, x: int)
    requires pos + Width(a) <= |s| && InRange(FieldType(a), x)
    ensures Stored(a, Write(s, pos, Encode(FieldType(a), x)), pos) == x
  {
    var e := Encode(FieldType(a), x);
    var r := Write(s, pos, e);
    assert r[pos..pos + Width(a)] == e;
    DecodeEncode(FieldType(a), x);
  }

  /** Updating a buffer that already verifies changes nothing; in particular a second update changes nothing. */
  lemma UpdateIdempotent(a: Algorithm, s: seq<Byte>, pos: nat)
    requires pos + Width(a) <= |s| && Verifies(a, s, pos)
    ensures WithChecksum(a, s, pos) == s
  {
    var t := FieldType(a);
    assert Encode(t, Computed(a, s, pos)) == s[pos..pos + Width(a)];
    WriteSame(s, pos, Width(a));
  }

  /** ByteMessageChecksum<T>. */
  class ChecksumField {
    const buf: array<Byte>
    const pos: nat
    const algorithm: Algorithm
    /** The integer field through which the checksum is stored and read. */
    const field: Field

    predicate Valid()
    {
      field.buf == buf && field.pos == pos && field.kind == FieldType(algorithm) && field.Valid()
    }

    /** Binds the checksum to buf at pos with its algorithm; the buffer is not touched. */
    constructor (buf: array<Byte>, pos: nat, algorithm: Algorithm)
      requires pos + Width(algorithm) <= buf.Length
      ensures Valid() && this.buf == buf && this.pos == pos && this.algorithm == algorithm
    {
      this.buf := buf;
      this.pos := pos;
      this.algorithm := algorithm;
      this.field := new Field(buf, pos, FieldType(algorithm));
    }

    /** calc(): runs the algorithm over [0, pos). */
    method Calc() returns (r: nat)
      requires Valid()
      ensures r == Computed(algorithm, buf[..], pos)
    {
      r := Run(algorithm, buf[..pos]);
    }

    /** get(): the stored checksum. */
    function Get(): (v: int)
      requires Valid()
      reads buf
      ensures v == Stored(algorithm, buf[..], pos)
    {
      assert buf[pos..pos + Width(algorithm)] == buf[..][pos..pos + Width(algorithm)];
      field.Get()
    }

    /** update(): stores calc() in the checksum's bytes, after which the buffer verifies. */
    method Update()
      requires Valid()
      modifies buf
      ensures buf[..] == WithChecksum(algorithm, old(buf[..]), pos)
      ensures Verifies(algorithm, buf[..], pos)
    {
      var c := Calc();
      field.Set(c);
    }

    /** check(): whether calc() equals get(). */
    method Check() returns (ok: bool)
      requires Valid()
      ensures ok <==> Computed(algorithm, buf[..], pos) == Stored(algorithm, buf[..], pos)
    {
      var c := Calc();
      ok := c == Get();
    }

    /**
      operator=: copies the other checksum's stored bytes, not its algorithm;
      assigning a checksum to itself changes nothing.
     */
    method Assign(other: ChecksumField)
      requires Valid() && other.Valid() && FieldType(other.algorithm) == FieldType(algorithm)
      modifies buf
      ensures buf[..] == Write(old(buf[..]), pos, old(other.buf[other.pos..other.pos + Width(algorithm)]))
      ensures Get() == old(other.Get())
    {
      if this == other {
        WriteSame(buf[..], pos, Width(algorithm));
        return;
      }
      field.Assign(other.field);
    }
  }
}
