/**
  ByteMessage<TYPE, SIZE>: the array of SIZE bytes that a message's fields
  view, stamped with the message type in byte 0, and filled from a raw
  message only when that message has the right size and type.
 */
module Messages {
  import opened Bytes
  import opened Regions

  /** The contents of a new message: the type byte, then zeros. */
  function Blank(msgType: Byte, size: nat): (r: seq<Byte>)
    requires size >= 1
    ensures |r| == size && r[0] == msgType
    ensures forall i :: 1 <= i < size ==> r[i] == 0
  {
    [msgType] + Zeros(size - 1)
  }

  /** Whether populate takes a raw message: it has exactly SIZE bytes and starts with TYPE. */
  predicate Accepts(msgType: Byte, size: nat, raw: seq<Byte>)
    requires size >= 1
  {
    |raw| == size && raw[0] == msgType
  }

  /**
    The contents after populate: the raw message if it is accepted, the old
    contents otherwise; a message that carried its type keeps carrying it.
   */
  function Populated(msgType: Byte, size: nat, content: seq<Byte>, raw: seq<Byte>): (r: seq<Byte>)
    requires size >= 1
    ensures |content| == size ==> |r| == size
    ensures |content| == size && content[0] == msgType ==> r[0] == msgType
    ensures Accepts(msgType, size, raw) ==> r == raw
    ensures r != content ==> r == raw && Accepts(msgType, size, raw)
  {
    if Accepts(msgType, size, raw) then raw else content
  }

  /** ByteMessage<TYPE, SIZE>. */
  class Message {
    const msgType: Byte
    const size: nat
    const arr: array<Byte>

    predicate Valid()
    {
      size >= 1 && arr.Length == size
    }

    /** The default constructor: a zeroed array with TYPE in byte 0. */
    constructor (msgType: Byte, size: nat)
      requires size >= 1
      ensures Valid() && this.msgType == msgType && this.size == size
      ensures fresh(arr) && arr[..] == Blank(msgType, size)
    {
      this.msgType := msgType;
      this.size := size;
      var a := new Byte[size];
      Fill(a, 0, size, 0);
      a[0] := msgType;
      this.arr := a;
      new;
      assert arr[..] == Blank(msgType, size) by {
        forall i | 0 <= i < size ensures arr[i] == Blank(msgType, size)[i] {
          if i > 0 {
            assert arr[i] == Repeat(0, size)[i];
          }
        }
      }
    }

    /** The copy constructor: a new array with all SIZE bytes of the other message. */
    constructor Copy(other: Message)
      requires other.Valid()
      ensures Valid() && msgType == other.msgType && size == other.size
      ensures fresh(arr) && arr[..] == other.arr[..]
    {
      this.msgType := other.msgType;
      this.size := other.size;
      var a := new Byte[other.size];
      CopyInto(a, 0, other.arr[..]);
      this.arr := a;
    }

    /** type(): the type byte a new message is stamped with, and the first byte populate demands. */
    function Type(): (t: Byte)
      requires Valid()
      ensures t == Blank(msgType, size)[0]
      ensures forall raw: seq<Byte> :: Accepts(msgType, size, raw) ==> raw[0] == t
    {
      msgType
    }

    /** size(): the message size, the length of the array. */
    function Size(): (n: nat)
      requires Valid()
      ensures n == arr.Length && n >= 1
    {
      size
    }

    /** operator=: does nothing; copying is left to the fields. */
    method Assign(other: Message)
      requires Valid()
      ensures arr[..] == old(arr[..])
    {
    }

    /**
      populate(raw, |raw|): copies the raw message into the array and returns
      true when it has the message's size and type; otherwise returns false
      and leaves the array as it was.
     */
    method Populate(raw: seq<Byte>) returns (ok: bool)
      requires Valid()
      modifies arr
      ensures ok <==> Accepts(msgType, size, raw)
      ensures arr[..] == Populated(msgType, size, old(arr[..]), raw)
    {
      if Size() != |raw| || raw[0] != Type() {
        return false;
      }
      CopyInto(arr, 0, raw);
      assert arr[..] == arr[0..|raw|];
      ok := true;
    }
  }
}
