/**
  XOR lane checksums (bm_checksum_xor.cpp): for a k-byte result, byte i
  (most significant first) is the XOR of every input byte whose position is
  congruent to i modulo k.
 */
module XorSum {
  import Arith
  import opened Bytes

  // ---------------------------------------------------------------------
  // XOR of bytes, bit by bit

  function Pow2(n: nat): (r: nat)
    ensures r >= 1
  {
    if n == 0 then 1 else 2 * Pow2(n - 1)
  }

  lemma Pow2Of8()
    ensures Pow2(8) == 256
  {
    assert Pow2(2) == 4;
    assert Pow2(4) == 16;
    assert Pow2(6) == 64;
  }

  /** The XOR of the low n bits of x and y: bit j of the result is bit j of x plus bit j of y, modulo 2. */
  function XorBits(x: nat, y: nat, n: nat): (r: nat)
    ensures r < Pow2(n)
  {
    if n == 0 then 0 else (if x % 2 == y % 2 then 0 else 1) + 2 * XorBits(x / 2, y / 2, n - 1)
  }

  /** The `^` operator on two bytes. */
  function Xor(x: Byte, y: Byte): Byte
  {
    Pow2Of8();
    XorBits(x, y, 8)
  }

  /** The lowest bit of XorBits and the rest. */
  lemma XorBitsUnfold(x: nat, y: nat, n: nat)
    requires n >= 1
    ensures XorBits(x, y, n) % 2 == if x % 2 == y % 2 then 0 else 1
    ensures XorBits(x, y, n) / 2 == XorBits(x / 2, y / 2, n - 1)
  {
    var bit, rest := (if x % 2 == y % 2 then 0 else 1), XorBits(x / 2, y / 2, n - 1);
    assert XorBits(x, y, n) == bit + 2 * rest;
  }

  /** Two numbers with the same lowest bit and the same upper bits are equal. */
  lemma SameBits(u: nat, v: nat)
    requires u % 2 == v % 2 && u / 2 == v / 2
    ensures u == v
  {
  }

  lemma {:induction false} XorBitsAssoc(x: nat, y: nat, z: nat, n: nat)
    ensures XorBits(XorBits(x, y, n), z, n) == XorBits(x, XorBits(y, z, n), n)
  {
    if n > 0 {
      var r, s := XorBits(x, y, n), XorBits(y, z, n);
      XorBitsUnfold(x, y, n);
      XorBitsUnfold(y, z, n);
      XorBitsUnfold(r, z, n);
      XorBitsUnfold(x, s, n);
      XorBitsAssoc(x / 2, y / 2, z / 2, n - 1);
      SameBits(XorBits(r, z, n), XorBits(x, s, n));
    }
  }

  lemma {:induction false} XorBitsSelf(x: nat, n: nat)
    ensures XorBits(x, x, n) == 0
  {
    if n > 0 {
      XorBitsSelf(x / 2, n - 1);
    }
  }

  lemma {:induction false} XorBitsZero(x: nat, n: nat)
    requires x < Pow2(n)
    ensures XorBits(x, 0, n) == x && XorBits(0, x, n) == x
  {
    if n > 0 {
      XorBitsZero(x / 2, n - 1);
    }
  }

  lemma XorAssoc(x: Byte, y: Byte, z: Byte)
    ensures Xor(Xor(x, y), z) == Xor(x, Xor(y, z))
  {
    XorBitsAssoc(x, y, z, 8);
  }

  lemma XorSelf(x: Byte)
    ensures Xor(x, x) == 0
  {
    XorBitsSelf(x, 8);
  }

  lemma XorZero(x: Byte)
    ensures Xor(x, 0) == x && Xor(0, x) == x
  {
    Pow2Of8();
    XorBitsZero(x, 8);
  }

  // ---------------------------------------------------------------------
  // Lanes

  /** Lane i of k over the first n bytes: the XOR of data[j] for j < n with j % k == i. */
  function Lane(data: seq<Byte>, n: nat, k: nat, i: nat): Byte
    requires n <= |data| && k >= 1
  {
    if n == 0 then 0
    else if (n - 1) % k == i then Xor(Lane(data, n - 1, k, i), data[n - 1])
    else Lane(data, n - 1, k, i)
  }

  /** All k lanes over the first n bytes. */
  function Lanes(data: seq<Byte>, n: nat, k: nat): (r: seq<Byte>)
    requires n <= |data| && k >= 1
    ensures |r| == k
  {
    seq(k, i requires 0 <= i < k => Lane(data, n, k, i))
  }

  /** Reference definition: the lanes packed big-endian into a k-byte value. */
  function Checksum(data: seq<Byte>, k: nat): (r: nat)
    requires k >= 1
    ensures r < Pow256(k)
  {
    BeValueBound(Lanes(data, |data|, k));
    BeValue(Lanes(data, |data|, k))
  }

  /** Byte i of the result, most significant first, is lane i. */
  lemma ResultBytes(data: seq<Byte>, k: nat)
    requires k >= 1
    ensures BeBytes(Checksum(data, k), k) == Lanes(data, |data|, k)
  {
    BeBytesOfBeValue(Lanes(data, |data|, k));
  }

  lemma ChecksumOfEmpty(k: nat)
    requires k >= 1
    ensures Checksum([], k) == 0
  {
    assert Lanes([], 0, k) == Zeros(k);
    ZerosValue(k);
  }

  /** Taking the byte at p, which belongs to lane j: only lane j changes. */
  lemma LanesStep(data: seq<Byte>, p: nat, k: nat, j: nat)
    requires k >= 1 && p < |data| && p % k == j
    ensures Lanes(data, p + 1, k) == Lanes(data, p, k)[j := Xor(Lanes(data, p, k)[j], data[p])]
  {
  }

  /** The byte j places after a lane boundary belongs to lane j. */
  lemma LaneOf(p: nat, j: nat, k: nat)
    requires k >= 1 && p % k == 0 && j < k
    ensures (p + j) % k == j
  {
    assert p == (p / k) * k;
    Arith.DivModUnique(p + j, k, p / k, j);
  }

  // ---------------------------------------------------------------------
  // The four functions of bm_checksum_xor.cpp

  /** XORing the byte at p into its lane j and moving to the next byte. */
  method XorInto(sum: array<Byte>, j: nat, data: seq<Byte>, p: nat)
    requires sum.Length >= 1 && p < |data| && p % sum.Length == j && sum[..] == Lanes(data, p, sum.Length)
    modifies sum
    ensures sum[..] == Lanes(data, p + 1, sum.Length)
  {
    LanesStep(data, p, sum.Length, j);
    sum[j] := Xor(sum[j], data[p]);
  }

  /** xor8_checksum. */
  method Xor8(data: seq<Byte>) returns (r: Byte)
    ensures r == Checksum(data, 1)
  {
    var sum: Byte := 0;
    var p: nat := 0;
    while p < |data|
      invariant p <= |data| && sum == Lane(data, p, 1, 0)
    {
      LaneOf(p, 0, 1);
      sum := Xor(sum, data[p]);
      p := p + 1;
    }
    BeValue1(Lanes(data, |data|, 1));
    r := sum;
  }

  /** One round of the loop of xor16_checksum. */
  lemma Xor16Step(data: seq<Byte>, p: nat, msb: Byte, lsb: Byte)
    requires p % 2 == 0 && p + 2 <= |data| && msb == Lane(data, p, 2, 0) && lsb == Lane(data, p, 2, 1)
    ensures Xor(msb, data[p]) == Lane(data, p + 2, 2, 0) && Xor(lsb, data[p + 1]) == Lane(data, p + 2, 2, 1)
    ensures (p + 2) % 2 == 0
  {
    LaneOf(p, 0, 2);
    LaneOf(p, 1, 2);
  }

  /** The lone trailing byte of xor16_checksum goes to the high lane. */
  lemma Xor16Tail(data: seq<Byte>, p: nat, msb: Byte, lsb: Byte)
    requires p % 2 == 0 && p == |data| - |data| % 2 && msb == Lane(data, p, 2, 0) && lsb == Lane(data, p, 2, 1)
    ensures |data| % 2 == 1 ==> Xor(msb, data[p]) == Lane(data, |data|, 2, 0) && lsb == Lane(data, |data|, 2, 1)
    ensures |data| % 2 == 0 ==> msb == Lane(data, |data|, 2, 0) && lsb == Lane(data, |data|, 2, 1)
  {
    LaneOf(p, 0, 2);
  }

  /** xor16_checksum: two lanes kept in sum_msb and sum_lsb. */
  method Xor16(data: seq<Byte>) returns (r: nat)
    ensures r == Checksum(data, 2)
  {
    var msb: Byte, lsb: Byte := 0, 0;
    var modulus := |data| % 2;
    var end := |data| - modulus;
    var p: nat := 0;
    while p < end
      invariant p <= end && p % 2 == 0 && msb == Lane(data, p, 2, 0) && lsb == Lane(data, p, 2, 1)
    {
      Xor16Step(data, p, msb, lsb);
      msb := Xor(msb, data[p]);
      lsb := Xor(lsb, data[p + 1]);
      p := p + 2;
    }
    Xor16Tail(data, p, msb, lsb);
    if modulus == 1 {
      msb := Xor(msb, data[p]);
    }
    BeValue2(Lanes(data, |data|, 2));
    r := msb as int * 0x100 + lsb as int;
  }

  /** The four updates of one round of xor32_checksum. */
  method XorWord32(sum: array<Byte>, data: seq<Byte>, p: nat)
    requires sum.Length == 4 && p % 4 == 0 && p + 4 <= |data| && sum[..] == Lanes(data, p, 4)
    modifies sum
    ensures sum[..] == Lanes(data, p + 4, 4)
  {
    LaneOf(p, 1, 4);
    LaneOf(p, 2, 4);
    LaneOf(p, 3, 4);
    XorInto(sum, 0, data, p);
    XorInto(sum, 1, data, p + 1);
    XorInto(sum, 2, data, p + 2);
    XorInto(sum, 3, data, p + 3);
  }

  /** The remainder loop shared by xor32_checksum and xor64_checksum. */
  method XorRest(sum: array<Byte>, data: seq<Byte>, p: nat, modulus: nat)
    requires sum.Length >= 1 && p % sum.Length == 0 && p + modulus == |data| && modulus < sum.Length
    requires sum[..] == Lanes(data, p, sum.Length)
    modifies sum
    ensures sum[..] == Lanes(data, |data|, sum.Length)
  {
    var i := 0;
    while i < modulus
      invariant i <= modulus && sum[..] == Lanes(data, p + i, sum.Length)
    {
      LaneOf(p, i, sum.Length);
      XorInto(sum, i, data, p + i);
      i := i + 1;
    }
  }

  /** xor32_checksum: the four lanes kept in the array sum. */
  method Xor32(data: seq<Byte>) returns (r: nat)
    ensures r == Checksum(data, 4)
  {
    var sum := new Byte[4](_ => 0);
    var modulus := |data| % 4;
    var end := |data| - modulus;
    var p: nat := 0;
    while p < end
      invariant p <= end && p % 4 == 0 && sum[..] == Lanes(data, p, 4)
    {
      XorWord32(sum, data, p);
      p := p + 4;
    }
    XorRest(sum, data, p, modulus);
    BeValue4(sum[..]);
    r := sum[0] as int * 0x100_0000 + sum[1] as int * 0x1_0000 + sum[2] as int * 0x100 + sum[3] as int;
  }

  /** The eight updates of one round of xor64_checksum. */
  method XorWord64(sum: array<Byte>, data: seq<Byte>, p: nat)
    requires sum.Length == 8 && p % 8 == 0 && p + 8 <= |data| && sum[..] == Lanes(data, p, 8)
    modifies sum
    ensures sum[..] == Lanes(data, p + 8, 8)
  {
    LaneOf(p, 1, 8);
    LaneOf(p, 2, 8);
    LaneOf(p, 3, 8);
    LaneOf(p, 4, 8);
    LaneOf(p, 5, 8);
    LaneOf(p, 6, 8);
    LaneOf(p, 7, 8);
    XorInto(sum, 0, data, p);
    XorInto(sum, 1, data, p + 1);
    XorInto(sum, 2, data, p + 2);
    XorInto(sum, 3, data, p + 3);
    XorInto(sum, 4, data, p + 4);
    XorInto(sum, 5, data, p + 5);
    XorInto(sum, 6, data, p + 6);
    XorInto(sum, 7, data, p + 7);
  }

  /** xor64_checksum: the eight lanes kept in the array sum. */
  method Xor64(data: seq<Byte>) returns (r: nat)
    ensures r == Checksum(data, 8)
  {
    var sum := new Byte[8](_ => 0);
    var modulus := |data| % 8;
    var end := |data| - modulus;
    var p: nat := 0;
    while p < end
      invariant p <= end && p % 8 == 0 && sum[..] == Lanes(data, p, 8)
    {
      XorWord64(sum, data, p);
      p := p + 8;
    }
    XorRest(sum, data, p, modulus);
    BeValue8(sum[..]);
    r := sum[0] as int * 0x100_0000_0000_0000 + sum[1] as int * 0x1_0000_0000_0000 + sum[2] as int * 0x100_0000_0000
         + sum[3] as int * 0x1_0000_0000 + sum[4] as int * 0x100_0000 + sum[5] as int * 0x1_0000
         + sum[6] as int * 0x100 + sum[7] as int;
  }

  // ---------------------------------------------------------------------
  // Properties of the lanes

  /** Bytes after the lane boundary e that fall in lanes below i do not touch lane i. */
  lemma {:induction false} LaneUntouched(data: seq<Byte>, e: nat, n: nat, k: nat, i: nat)
    requires k >= 1 && e % k == 0 && e <= n <= |data| && n - e <= i < k
    ensures Lane(data, n, k, i) == Lane(data, e, k, i)
    decreases n - e
  {
    if n > e {
      LaneOf(e, n - 1 - e, k);
      LaneUntouched(data, e, n - 1, k, i);
    }
  }

  /** A trailing partial group of r bytes only changes lanes 0 to r - 1. */
  lemma PartialGroup(data: seq<Byte>, k: nat, i: nat)
    requires k >= 1 && |data| % k <= i < k
    ensures Lanes(data, |data|, k)[i] == Lanes(data, |data| - |data| % k, k)[i]
  {
    var e := |data| - |data| % k;
    assert e % k == 0 by {
      assert e == (|data| / k) * k;
      Arith.ModAddMultiple(0, |data| / k, k);
    }
    LaneUntouched(data, e, |data|, k, i);
  }

  lemma {:induction false} LaneOfPrefix(a: seq<Byte>, b: seq<Byte>, n: nat, k: nat, i: nat)
    requires k >= 1 && n <= |a|
    ensures Lane(a + b, n, k, i) == Lane(a, n, k, i)
    decreases n
  {
    if n > 0 {
      LaneOfPrefix(a, b, n - 1, k, i);
    }
  }

  /** Past a lane boundary p, position p + m is in the lane of m. */
  lemma ShiftedLane(p: nat, m: nat, k: nat)
    requires k >= 1 && p % k == 0
    ensures (p + m) % k == m % k
  {
    assert p == (p / k) * k;
    Arith.ModAddMultiple(m, p / k, k);
  }

  /** Lanes of a concatenation at a lane boundary are the XOR of the lanes of the parts. */
  lemma {:induction false} LaneSplit(a: seq<Byte>, b: seq<Byte>, n: nat, k: nat, i: nat)
    requires k >= 1 && |a| % k == 0 && n <= |b|
    ensures Lane(a + b, |a| + n, k, i) == Xor(Lane(a, |a|, k, i), Lane(b, n, k, i))
    decreases n
  {
    if n == 0 {
      LaneOfPrefix(a, b, |a|, k, i);
      XorZero(Lane(a, |a|, k, i));
    } else {
      LaneSplit(a, b, n - 1, k, i);
      assert (a + b)[|a| + n - 1] == b[n - 1];
      ShiftedLane(|a|, n - 1, k);
      if (n - 1) % k == i {
        XorAssoc(Lane(a, |a|, k, i), Lane(b, n - 1, k, i), b[n - 1]);
      }
    }
  }

  /** xor(a ++ b) is xor(a) XOR xor(b), lane by lane, when |a| is a whole number of groups. */
  lemma LanesSplit(a: seq<Byte>, b: seq<Byte>, k: nat, i: nat)
    requires k >= 1 && |a| % k == 0 && i < k
    ensures Lanes(a + b, |a + b|, k)[i] == Xor(Lanes(a, |a|, k)[i], Lanes(b, |b|, k)[i])
  {
    LaneSplit(a, b, |b|, k, i);
  }

  /**
    The packed checksum splits the same way: byte i of xor(a ++ b) is byte i
    of xor(a) XOR byte i of xor(b), when |a| is a whole number of groups.
   */
  lemma ChecksumSplit(a: seq<Byte>, b: seq<Byte>, k: nat)
    requires k >= 1 && |a| % k == 0
    ensures forall i :: 0 <= i < k ==>
      BeBytes(Checksum(a + b, k), k)[i] == Xor(BeBytes(Checksum(a, k), k)[i], BeBytes(Checksum(b, k), k)[i])
  {
    ResultBytes(a + b, k);
    ResultBytes(a, k);
    ResultBytes(b, k);
    forall i | 0 <= i < k
      ensures Lanes(a + b, |a + b|, k)[i] == Xor(Lanes(a, |a|, k)[i], Lanes(b, |b|, k)[i])
    {
      LanesSplit(a, b, k, i);
    }
  }

  /** In a single group every byte is its own lane. */
  lemma {:induction false} LaneOfGroup(w: seq<Byte>, n: nat, i: nat)
    requires n <= |w| && i < |w|
    ensures Lane(w, n, |w|, i) == if i < n then w[i] else 0
    decreases n
  {
    if n > 0 {
      LaneOfGroup(w, n - 1, i);
      Arith.ModSmall(n - 1, |w|);
      if n - 1 == i {
        XorZero(w[i]);
      }
    }
  }

  /** Lane i of the data followed by its own lanes is 0. */
  lemma AppendedLane(data: seq<Byte>, k: nat, w: seq<Byte>, i: nat)
    requires k >= 1 && |data| % k == 0 && w == Lanes(data, |data|, k) && i < k
    ensures Lanes(data + w, |data + w|, k)[i] == 0
  {
    LanesSplit(data, w, k, i);
    LaneOfGroup(w, k, i);
    XorSelf(w[i]);
  }

  /**
    Appending the checksum to a whole number of groups gives a message whose
    checksum is 0: every lane meets its own value again.
   */
  lemma AppendedChecksumVerifies(data: seq<Byte>, k: nat)
    requires k >= 1 && |data| % k == 0
    ensures Checksum(data + BeBytes(Checksum(data, k), k), k) == 0
  {
    var w := BeBytes(Checksum(data, k), k);
    ResultBytes(data, k);
    var all := data + w;
    var lanes := Lanes(all, |all|, k);
    forall i | 0 <= i < k
      ensures lanes[i] == 0
    {
      AppendedLane(data, k, w, i);
    }
    assert lanes == Zeros(k);
    ZerosValue(k);
  }
}
