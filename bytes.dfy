/**
  Bytes, big-endian words and the accumulator width shared by the checksum
  algorithms and the field codecs.

  Shifts and masks of nonnegative integers are written with powers of 256:
  `x << 8*n` is `x * Pow256(n)`, `x >> 8*n` is `x / Pow256(n)`,
  `x & (Pow256(n) - 1)` is `x % Pow256(n)`, and an OR of bytes shifted to
  disjoint positions is their sum.
 */
module Bytes {
  import Arith

  /** An octet (uint8_t). */
  type Byte = b: int | 0 <= b < 256

  /**
    Modulus of the `uint_fast16_t`, `uint_fast32_t` and `uint_fast64_t`
    accumulators: all three are 64 bits wide on the platform modelled here.
   */
  const FAST_MOD: nat := 0x1_0000_0000_0000_0000
  const FAST_MAX: nat := 0xFFFF_FFFF_FFFF_FFFF

  /** 256^n, the number of values that n bytes can hold. */
  function Pow256(n: nat): (r: nat)
    ensures r >= 1
  {
    if n == 0 then 1 else 256 * Pow256(n - 1)
  }

  lemma Pow256Values()
    ensures Pow256(0) == 1 && Pow256(1) == 0x100 && Pow256(2) == 0x1_0000 && Pow256(3) == 0x100_0000
    ensures Pow256(4) == 0x1_0000_0000 && Pow256(6) == 0x1_0000_0000_0000 && Pow256(8) == FAST_MOD
  {
    assert Pow256(1) == 256;
    assert Pow256(2) == 0x1_0000;
    assert Pow256(3) == 0x100_0000;
    assert Pow256(4) == 0x1_0000_0000;
    assert Pow256(5) == 0x100_0000_0000;
    assert Pow256(6) == 0x1_0000_0000_0000;
    assert Pow256(7) == 0x100_0000_0000_0000;
  }

  function Min(a: nat, b: nat): (m: nat)
    ensures m <= a && m <= b && (m == a || m == b)
  {
    if a < b then a else b
  }

  /** n zero bytes. */
  function Zeros(n: nat): (r: seq<Byte>)
    ensures |r| == n && forall i :: 0 <= i < n ==> r[i] == 0
  {
    seq(n, _ => 0)
  }

  /** n copies of byte x. */
  function Repeat(x: Byte, n: nat): (r: seq<Byte>)
    ensures |r| == n && forall i :: 0 <= i < n ==> r[i] == x
  {
    seq(n, _ => x)
  }

  /** Value of a byte string read most significant byte first (ntohs, ntohl, ntohll). */
  function BeValue(s: seq<Byte>): nat
  {
    if s == [] then 0 else BeValue(s[..|s| - 1]) * 256 + s[|s| - 1]
  }

  lemma {:induction false} BeValueBound(s: seq<Byte>)
    ensures BeValue(s) < Pow256(|s|)
  {
    if s != [] {
      BeValueBound(s[..|s| - 1]);
    }
  }

  /** The n-byte big-endian representation of v (htons, htonl, htonll). */
  function BeBytes(v: nat, n: nat): (r: seq<Byte>)
    requires v < Pow256(n)
    ensures |r| == n
  {
    if n == 0 then [] else BeBytes(v / 256, n - 1) + [v % 256]
  }

  /** Decoding an encoded value gives the value back. */
  lemma {:induction false} BeValueOfBeBytes(v: nat, n: nat)
    requires v < Pow256(n)
    ensures BeValue(BeBytes(v, n)) == v
  {
    if n > 0 {
      var r := BeBytes(v, n);
      assert r[..n - 1] == BeBytes(v / 256, n - 1);
      BeValueOfBeBytes(v / 256, n - 1);
    }
  }

  /** Encoding a decoded byte string gives the bytes back: every bit pattern is a value. */
  lemma {:induction false} BeBytesOfBeValue(s: seq<Byte>)
    ensures BeValue(s) < Pow256(|s|) && BeBytes(BeValue(s), |s|) == s
  {
    BeValueBound(s);
    if s != [] {
      var p := s[..|s| - 1];
      BeBytesOfBeValue(p);
      var v := BeValue(s);
      assert v / 256 == BeValue(p);
      assert v % 256 == s[|s| - 1];
      assert s == p + [s[|s| - 1]];
    }
  }

  lemma {:induction false} BeValueAppend(a: seq<Byte>, b: seq<Byte>)
    ensures BeValue(a + b) == BeValue(a) * Pow256(|b|) + BeValue(b)
  {
    if b == [] {
      assert a + b == a;
    } else {
      assert (a + b)[..|a + b| - 1] == a + b[..|b| - 1];
      BeValueAppend(a, b[..|b| - 1]);
    }
  }

  lemma BeValue1(s: seq<Byte>)
    requires |s| == 1
    ensures BeValue(s) == s[0]
  {
    assert s[..0] == [];
  }

  lemma BeValue2(s: seq<Byte>)
    requires |s| == 2
    ensures BeValue(s) == s[0] as int * 0x100 + s[1]
  {
    BeValue1(s[..1]);
  }

  lemma BeValue4(s: seq<Byte>)
    requires |s| == 4
    ensures BeValue(s) == s[0] as int * 0x100_0000 + s[1] as int * 0x1_0000 + s[2] as int * 0x100 + s[3]
  {
    BeValue2(s[..2]);
    assert s[..3][..2] == s[..2];
  }

  lemma BeValue8(s: seq<Byte>)
    requires |s| == 8
    ensures BeValue(s) == s[0] as int * 0x100_0000_0000_0000 + s[1] as int * 0x1_0000_0000_0000
                        + s[2] as int * 0x100_0000_0000 + s[3] as int * 0x1_0000_0000
                        + s[4] as int * 0x100_0000 + s[5] as int * 0x1_0000 + s[6] as int * 0x100 + s[7]
  {
    BeValue4(s[..4]);
    BeValue4(s[4..]);
    assert s == s[..4] + s[4..];
    BeValueAppend(s[..4], s[4..]);
    Pow256Values();
  }

  lemma {:induction false} ZerosValue(n: nat)
    ensures BeValue(Zeros(n)) == 0
  {
    if n > 0 {
      assert Zeros(n)[..n - 1] == Zeros(n - 1);
      ZerosValue(n - 1);
    }
  }

  // ---------------------------------------------------------------------
  // Words of a byte stream, addressed by position

  /** The big-endian value of the n bytes data[p..p+n] (a word read from the stream). */
  function Word(data: seq<Byte>, p: nat, n: nat): nat
    requires p + n <= |data|
    decreases n
  {
    if n == 0 then 0 else Word(data, p, n - 1) * 256 + data[p + n - 1]
  }

  lemma {:induction false} WordBound(data: seq<Byte>, p: nat, n: nat)
    requires p + n <= |data|
    ensures Word(data, p, n) < Pow256(n)
    decreases n
  {
    if n > 0 {
      WordBound(data, p, n - 1);
    }
  }

  /** Reading a word by position agrees with decoding the slice. */
  lemma {:induction false} WordIsBeValue(data: seq<Byte>, p: nat, n: nat)
    requires p + n <= |data|
    ensures Word(data, p, n) == BeValue(data[p..p + n])
    decreases n
  {
    if n > 0 {
      WordIsBeValue(data, p, n - 1);
      assert data[p..p + n][..n - 1] == data[p..p + n - 1];
    }
  }

  lemma Word1(data: seq<Byte>, p: nat)
    requires p + 1 <= |data|
    ensures Word(data, p, 1) == data[p]
  {
  }

  lemma Word2(data: seq<Byte>, p: nat)
    requires p + 2 <= |data|
    ensures Word(data, p, 2) == data[p] as int * 0x100 + data[p + 1]
  {
    Word1(data, p);
  }

  lemma Word4(data: seq<Byte>, p: nat)
    requires p + 4 <= |data|
    ensures Word(data, p, 4) == data[p] as int * 0x100_0000 + data[p + 1] as int * 0x1_0000 + data[p + 2] as int * 0x100 + data[p + 3]
  {
    Word2(data, p);
  }

  /** A word of a + b bytes is its first a bytes shifted left by b bytes, plus its last b bytes. */
  lemma {:induction false} WordConcat(data: seq<Byte>, p: nat, a: nat, b: nat)
    requires p + a + b <= |data|
    ensures Word(data, p, a + b) == Word(data, p, a) * Pow256(b) + Word(data, p + a, b)
    decreases b
  {
    if b > 0 {
      WordConcat(data, p, a, b - 1);
      var hi, lo, x := Word(data, p, a), Word(data, p + a, b - 1), data[p + a + b - 1];
      var q := Pow256(b - 1);
      assert Word(data, p, a + b) == (hi * q + lo) * 256 + x;
      Arith.ShiftParts(hi, q, lo, 256, x);
    }
  }

  lemma Word8(data: seq<Byte>, p: nat)
    requires p + 8 <= |data|
    ensures Word(data, p, 8) == data[p] as int * 0x100_0000_0000_0000 + data[p + 1] as int * 0x1_0000_0000_0000
                              + data[p + 2] as int * 0x100_0000_0000 + data[p + 3] as int * 0x1_0000_0000
                              + data[p + 4] as int * 0x100_0000 + data[p + 5] as int * 0x1_0000
                              + data[p + 6] as int * 0x100 + data[p + 7]
  {
    Word4(data, p);
    Word4(data, p + 4);
    WordConcat(data, p, 4, 4);
    Pow256Values();
  }

  /**
    The n bytes from position p left-aligned in a k-byte word whose low k - n
    bytes are zero: byte j lands at byte position k-1-j.
   */
  function Padded(data: seq<Byte>, p: nat, n: nat, k: nat): nat
    requires n <= k && p + n <= |data|
    decreases k
  {
    if k == n then Word(data, p, n) else Padded(data, p, n, k - 1) * 256
  }

  lemma {:induction false} PaddedBound(data: seq<Byte>, p: nat, n: nat, k: nat)
    requires n <= k && p + n <= |data|
    ensures Padded(data, p, n, k) < Pow256(k)
    decreases k
  {
    if k == n {
      WordBound(data, p, n);
    } else {
      PaddedBound(data, p, n, k - 1);
    }
  }

  lemma {:induction false} PaddedEmpty(data: seq<Byte>, p: nat, k: nat)
    requires p <= |data|
    ensures Padded(data, p, 0, k) == 0
    decreases k
  {
    if k > 0 {
      PaddedEmpty(data, p, k - 1);
    }
  }

  /** Adding the next byte of the group at its position, byte position k-1-n. */
  lemma {:induction false} PaddedStep(data: seq<Byte>, p: nat, n: nat, k: nat)
    requires n < k && p + n < |data|
    ensures Padded(data, p, n + 1, k) == Padded(data, p, n, k) + data[p + n] as int * Pow256(k - 1 - n)
    decreases k
  {
    if k > n + 1 {
      PaddedStep(data, p, n, k - 1);
      assert Pow256(k - 1 - n) == 256 * Pow256(k - 2 - n);
    }
  }

  /** n is a whole number of k-byte words. */
  predicate WholeWords(n: nat, k: nat)
    requires k >= 1
    decreases n
  {
    n == 0 || (n >= k && WholeWords(n - k, k))
  }

  lemma {:induction false} WholeWordsOf(c: nat, k: nat)
    requires k >= 1
    ensures WholeWords(c * k, k)
    decreases c
  {
    if c > 0 {
      assert c * k == (c - 1) * k + k;
      WholeWordsOf(c - 1, k);
    }
  }

  /**
    Sum of the big-endian k-byte words of data[p..e], taken from p; a trailing
    group of fewer than k bytes counts as a left-aligned, zero-padded word.
   */
  function Words(data: seq<Byte>, p: nat, e: nat, k: nat): nat
    requires k >= 1 && p <= e <= |data|
    decreases e - p
  {
    if e - p < k then Padded(data, p, e - p, k) else Word(data, p, k) + Words(data, p + k, e, k)
  }

  lemma WordsFirst(data: seq<Byte>, p: nat, e: nat, k: nat)
    requires k >= 1 && p + k <= e <= |data|
    ensures Words(data, p, e, k) == Word(data, p, k) + Words(data, p + k, e, k)
  {
  }

  lemma WordsEmpty(data: seq<Byte>, p: nat, k: nat)
    requires k >= 1 && p <= |data|
    ensures Words(data, p, p, k) == 0
  {
    PaddedEmpty(data, p, k);
  }

  /** Splitting the range after a whole number of words splits the sum. */
  lemma {:induction false} WordsSplit(data: seq<Byte>, p: nat, q: nat, e: nat, k: nat)
    requires k >= 1 && p <= q <= e <= |data| && WholeWords(q - p, k)
    ensures Words(data, p, e, k) == Words(data, p, q, k) + Words(data, q, e, k)
    decreases q - p
  {
    if p == q {
      WordsEmpty(data, p, k);
    } else {
      WordsSplit(data, p + k, q, e, k);
    }
  }

  /** The sum depends only on the bytes in the range. */
  lemma {:induction false} WordsFrame(s: seq<Byte>, t: seq<Byte>, p: nat, e: nat, k: nat)
    requires k >= 1 && p <= e <= |s| && e <= |t| && s[p..e] == t[p..e]
    ensures Words(s, p, e, k) == Words(t, p, e, k)
    decreases e - p
  {
    var n := if e - p < k then e - p else k;
    assert s[p..p + n] == s[p..e][..n] == t[p..e][..n] == t[p..p + n];
    WordIsBeValue(s, p, n);
    WordIsBeValue(t, p, n);
    if e - p >= k {
      assert s[p + k..e] == s[p..e][k..] == t[p..e][k..] == t[p + k..e];
      WordsFrame(s, t, p + k, e, k);
    } else {
      PaddedFrame(s, t, p, n, k);
    }
  }

  lemma {:induction false} PaddedFrame(s: seq<Byte>, t: seq<Byte>, p: nat, n: nat, k: nat)
    requires n <= k && p + n <= |s| && p + n <= |t| && Word(s, p, n) == Word(t, p, n)
    ensures Padded(s, p, n, k) == Padded(t, p, n, k)
    decreases k
  {
    if k > n {
      PaddedFrame(s, t, p, n, k - 1);
    }
  }

  lemma {:induction false} WordsOfZeros(n: nat, p: nat, k: nat)
    requires k >= 1 && p <= n
    ensures Words(Zeros(n), p, n, k) == 0
    decreases n - p
  {
    if n - p < k {
      ZeroWord(n, p, n - p);
      PaddedOfZero(Zeros(n), p, n - p, k);
    } else {
      ZeroWord(n, p, k);
      WordsOfZeros(n, p + k, k);
    }
  }

  lemma {:induction false} ZeroWord(n: nat, p: nat, j: nat)
    requires p + j <= n
    ensures Word(Zeros(n), p, j) == 0
    decreases j
  {
    if j > 0 {
      ZeroWord(n, p, j - 1);
    }
  }

  lemma {:induction false} PaddedOfZero(data: seq<Byte>, p: nat, n: nat, k: nat)
    requires n <= k && p + n <= |data| && Word(data, p, n) == 0
    ensures Padded(data, p, n, k) == 0
    decreases k
  {
    if k > n {
      PaddedOfZero(data, p, n, k - 1);
    }
  }

  /** Appending one more whole word to a run of whole words. */
  lemma WordsExtend(data: seq<Byte>, p: nat, q: nat, k: nat)
    requires k >= 1 && p <= q && q + k <= |data| && WholeWords(q - p, k)
    ensures Words(data, p, q + k, k) == Words(data, p, q, k) + Word(data, q, k)
  {
    WordsSplit(data, p, q, q + k, k);
    WordsEmpty(data, q + k, k);
  }

  /** The whole words end at the largest multiple of k not above n. */
  lemma WholeWordsEnd(n: nat, k: nat)
    requires k >= 1
    ensures WholeWords(n - n % k, k)
  {
    assert n - n % k == (n / k) * k;
    WholeWordsOf(n / k, k);
  }

  /** Between two word boundaries p < e there is room for the whole word at p. */
  lemma {:induction false} WholeWordsNext(p: nat, e: nat, k: nat)
    requires k >= 1 && p < e && WholeWords(p, k) && WholeWords(e, k)
    ensures p + k <= e
    decreases p
  {
    if p > 0 {
      WholeWordsNext(p - k, e - k, k);
    }
  }

  /** The words of the whole input are the whole words followed by the zero-padded remainder. */
  lemma WordsLast(data: seq<Byte>, e: nat, k: nat)
    requires k >= 1 && e == |data| - |data| % k
    ensures Words(data, 0, |data|, k) == Words(data, 0, e, k) + Padded(data, e, |data| % k, k)
  {
    WholeWordsEnd(|data|, k);
    WordsSplit(data, 0, e, |data|, k);
  }

  /** The words of a prefix are not affected by what follows it. */
  lemma WordsOfPrefix(data: seq<Byte>, w: seq<Byte>, k: nat)
    requires k >= 1
    ensures Words(data + w, 0, |data|, k) == Words(data, 0, |data|, k)
  {
    assert (data + w)[0..|data|] == data[0..|data|];
    WordsFrame(data + w, data, 0, |data|, k);
  }

  lemma {:induction false} WordShift(a: seq<Byte>, b: seq<Byte>, p: nat, n: nat)
    requires p + n <= |b|
    ensures Word(a + b, |a| + p, n) == Word(b, p, n)
    decreases n
  {
    if n > 0 {
      WordShift(a, b, p, n - 1);
    }
  }

  lemma {:induction false} PaddedShift(a: seq<Byte>, b: seq<Byte>, p: nat, n: nat, k: nat)
    requires n <= k && p + n <= |b|
    ensures Padded(a + b, |a| + p, n, k) == Padded(b, p, n, k)
    decreases k
  {
    if k == n {
      WordShift(a, b, p, n);
    } else {
      PaddedShift(a, b, p, n, k - 1);
    }
  }

  /** The words of a suffix are read the same after a prefix is put in front of it. */
  lemma {:induction false} WordsShift(a: seq<Byte>, b: seq<Byte>, p: nat, k: nat)
    requires k >= 1 && p <= |b|
    ensures Words(a + b, |a| + p, |a + b|, k) == Words(b, p, |b|, k)
    decreases |b| - p
  {
    if |b| - p < k {
      PaddedShift(a, b, p, |b| - p, k);
    } else {
      WordShift(a, b, p, k);
      WordsShift(a, b, p + k, k);
    }
  }
}
