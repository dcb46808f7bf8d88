/**
  ByteMessageField: a view of sizeof(T) bytes at a fixed offset of a shared
  message buffer, holding an integer big-endian (the network byte order of
  the htons/htonl/htonll family), or a bool in one byte.
 */
module Fields {
  import opened Bytes
  import opened Regions

  /** The integer types a field can hold, one per specialisation of set and get. */
  datatype IntType = UInt8 | Int8 | UInt16 | Int16 | UInt32 | Int32 | UInt64 | Int64

  /** sizeof(T). */
  function Size(t: IntType): nat
  {
    match t
    case UInt8 | Int8 => 1
    case UInt16 | Int16 => 2
    case UInt32 | Int32 => 4
    case UInt64 | Int64 => 8
  }

  predicate Signed(t: IntType)
  {
    t.Int8? || t.Int16? || t.Int32? || t.Int64?
  }

  /** 2^N for an N-bit type: the number of bit patterns of sizeof(T) bytes. */
  function Modulus(t: IntType): (m: nat)
    ensures m == Pow256(Size(t)) && m >= 2
  {
    Pow256Values();
    match t
    case UInt8 | Int8 => 0x100
    case UInt16 | Int16 => 0x1_0000
    case UInt32 | Int32 => 0x1_0000_0000
    case UInt64 | Int64 => 0x1_0000_0000_0000_0000
  }

  /** The values of type T: 0 .. 2^N - 1 unsigned, -2^(N-1) .. 2^(N-1) - 1 signed. */
  predicate InRange(t: IntType, v: int)
  {
    if Signed(t) then -(Modulus(t) as int) <= 2 * v < Modulus(t) else 0 <= v < Modulus(t)
  }

  /** static_cast to the unsigned type of the same width: the two's-complement bit pattern of v. */
  function ToBits(t: IntType, v: int): (u: nat)
    requires InRange(t, v)
    ensures u < Modulus(t) && u == v % Modulus(t)
  {
    if v < 0 then v + Modulus(t) else v
  }

  /** static_cast from the unsigned pattern back to T: patterns with the top bit set are negative in a signed type. */
  function FromBits(t: IntType, u: nat): (v: int)
    requires u < Modulus(t)
    ensures InRange(t, v) && ToBits(t, v) == u
  {
    if Signed(t) && 2 * u >= Modulus(t) then u - Modulus(t) else u
  }

  /** Reinterpreting the pattern of a value gives the value back. */
  lemma FromToBits(t: IntType, v: int)
    requires InRange(t, v)
    ensures FromBits(t, ToBits(t, v)) == v
  {
    if Signed(t) && v < 0 {
      assert 2 * (v + Modulus(t)) >= Modulus(t);
    }
  }

  /** The bytes set writes: the pattern of v, most significant byte first. */
  function Encode(t: IntType, v: int): (w: seq<Byte>)
    requires InRange(t, v)
    ensures |w| == Size(t) && BeValue(w) == ToBits(t, v)
  {
    BeValueOfBeBytes(ToBits(t, v), Size(t));
    BeBytes(ToBits(t, v), Size(t))
  }

  /** The value get reads from sizeof(T) bytes: every byte string is the encoding of the value it decodes to. */
  function Decode(t: IntType, w: seq<Byte>): (v: int)
    requires |w| == Size(t)
    ensures InRange(t, v) && Encode(t, v) == w
  {
    BeBytesOfBeValue(w);
    FromBits(t, BeValue(w))
  }

  /** Decoding what was encoded gives the value back. */
  lemma DecodeEncode(t: IntType, v: int)
    requires InRange(t, v)
    ensures Decode(t, Encode(t, v)) == v
  {
    BeValueOfBeBytes(ToBits(t, v), Size(t));
    FromToBits(t, v);
  }

  /** A field written in a region that does not overlap another field leaves the other's value. */
  lemma SetKeepsOtherField(s: seq<Byte>, p: nat, t: IntType, v: int, q: nat, t': IntType)
    requires InRange(t, v) && p + Size(t) <= |s| && q + Size(t') <= |s|
    requires q + Size(t') <= p || p + Size(t) <= q
    ensures Decode(t', Write(s, p, Encode(t, v))[q..q + Size(t')]) == Decode(t', s[q..q + Size(t')])
  {
    var w := Encode(t, v);
    var r := Write(s, p, w);
    WriteFrame(s, p, w, q, Size(t'));
    assert r[q..q + Size(t')] == s[q..q + Size(t')];
  }

  /** ByteMessageField<T> for an integer type T. */
  class Field {
    const buf: array<Byte>
    const pos: nat
    const kind: IntType

    /** The field's bytes lie inside the buffer. */
    predicate Valid()
    {
      pos + Size(kind) <= buf.Length
    }

    /** Binds the view to buf at pos; the buffer is not touched. */
    constructor (buf: array<Byte>, pos: nat, kind: IntType)
      requires pos + Size(kind) <= buf.Length
      ensures Valid() && this.buf == buf && this.pos == pos && this.kind == kind
    {
      this.buf := buf;
      this.pos := pos;
      this.kind := kind;
    }

    /** The value held: the one whose encoding is the field's bytes. */
    function Get(): (v: int)
      requires Valid()
      reads buf
      ensures InRange(kind, v) && Encode(kind, v) == buf[pos..pos + Size(kind)]
    {
      Decode(kind, buf[pos..pos + Size(kind)])
    }

    /** Stores v big-endian in the field's bytes and nowhere else. */
    method Set(v: int)
      requires Valid() && InRange(kind, v)
      modifies buf
      ensures buf[..] == Write(old(buf[..]), pos, Encode(kind, v))
      ensures Get() == v
    {
      CopyInto(buf, pos, Encode(kind, v));
      DecodeEncode(kind, v);
    }

    /** operator=: copies the other field's bytes into this field's bytes; assigning a field to itself changes nothing. */
    method Assign(other: Field)
      requires Valid() && other.Valid() && other.kind == kind
      modifies buf
      ensures buf[..] == Write(old(buf[..]), pos, old(other.buf[other.pos..other.pos + Size(kind)]))
      ensures Get() == old(other.Get())
    {
      if this == other {
        WriteSame(buf[..], pos, Size(kind));
        return;
      }
      ghost var v := other.Get();
      var w := other.buf[other.pos..other.pos + Size(kind)];
      assert Encode(kind, v) == w;
      CopyInto(buf, pos, w);
      assert buf[pos..pos + Size(kind)] == w;
      DecodeEncode(kind, v);
    }
  }

  /** The byte that represents a bool: 1 for true, 0 for false. */
  function BoolByte(b: bool): (x: Byte)
    ensures x <= 1 && (x != 0 <==> b)
  {
    if b then 1 else 0
  }

  /** ByteMessageField<bool>: one byte, read as true when it is not zero. */
  class BoolField {
    const buf: array<Byte>
    const pos: nat

    predicate Valid()
    {
      pos < buf.Length
    }

    /** Binds the view to buf at pos and clears its byte, so a new field reads false. */
    constructor (buf: array<Byte>, pos: nat)
      requires pos < buf.Length
      modifies buf
      ensures Valid() && this.buf == buf && this.pos == pos
      ensures buf[..] == old(buf[..])[pos := 0] && !Get()
    {
      this.buf := buf;
      this.pos := pos;
      new;
      buf[pos] := 0;
    }

    /** get(): any nonzero byte reads as true, and a byte stored by set reads back as its value. */
    function Get(): (b: bool)
      requires Valid()
      reads buf
      ensures b <==> buf[pos] != BoolByte(false)
      ensures buf[pos] <= 1 ==> BoolByte(b) == buf[pos]
    {
      buf[pos] != 0
    }

    /** Stores 1 or 0, so the field reads back the value set. */
    method Set(value: bool)
      requires Valid()
      modifies buf
      ensures buf[..] == old(buf[..])[pos := BoolByte(value)] && Get() == value
    {
      buf[pos] := BoolByte(value);
    }

    /** operator=: copies the other field's byte; assigning a field to itself changes nothing. */
    method Assign(other: BoolField)
      requires Valid() && other.Valid()
      modifies buf
      ensures buf[..] == old(buf[..])[pos := old(other.buf[other.pos])]
      ensures Get() == old(other.Get())
    {
      if this == other {
        return;
      }
      buf[pos] := other.buf[other.pos];
    }
  }
}
