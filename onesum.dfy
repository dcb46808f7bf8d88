/**
  One's complement checksums over 1-, 2- and 4-byte big-endian words
  (bm_checksum_onesum.cpp). The 2-byte variant is the internet checksum of
  RFC 1071.

  The one's complement sum of words with modulus M = 256^k - 1 is computed by
  adding the words in a wide accumulator and folding the carry back in
  (the carry above the low k bytes is added back to the low k bytes). Folding keeps the value modulo M and
  keeps it nonzero when it was nonzero, so the folded result is the
  "end-around" remainder of the plain total: 0 only for a zero total, and a
  value in 1..M otherwise. The checksum is its one's complement, M - sum.
 */
module OneSum {
  import Arith
  import opened Bytes

  // ---------------------------------------------------------------------
  // One's complement arithmetic

  /**
    The end-around remainder: x with m subtracted until it fits in 0..m. It is
    0 only for x = 0; otherwise it is the value in 1..m congruent to x
    modulo m, which is what one's complement addition leaves in the register.
   */
  function EndAround(x: nat, m: nat): (r: nat)
    requires m >= 1
    ensures r <= m && (r == 0 <==> x == 0)
    decreases x
  {
    if x <= m then x else EndAround(x - m, m)
  }

  /** The end-around remainder is the Euclidean remainder shifted into 1..m. */
  lemma {:induction false} EndAroundIsShiftedMod(x: nat, m: nat)
    requires m >= 1 && x > 0
    ensures EndAround(x, m) == (x - 1) % m + 1
    decreases x
  {
    if x <= m {
      Arith.ModSmall(x - 1, m);
    } else {
      EndAroundIsShiftedMod(x - m, m);
      Arith.ModAddMultiple(x - m - 1, 1, m);
    }
  }

  /**
    One's complement addition is associative: reducing a partial sum before
    adding the rest gives the same end-around remainder.
   */
  lemma {:induction false} EndAroundAbsorb(x: nat, y: nat, m: nat)
    requires m >= 1
    ensures EndAround(EndAround(x, m) + y, m) == EndAround(x + y, m)
    decreases x
  {
    if x > m {
      EndAroundAbsorb(x - m, y, m);
      assert x + y - m == x - m + y;
    }
  }

  /** The same, for a partial sum f already reduced from s and a total t = s + rest. */
  lemma AbsorbInto(s: nat, f: nat, rest: nat, t: nat, m: nat)
    requires m >= 1 && f == EndAround(s, m) && t == s + rest
    ensures EndAround(f + rest, m) == EndAround(t, m)
  {
    EndAroundAbsorb(s, rest, m);
  }

  /** Adding the complement of the end-around remainder gives the all-ones remainder m. */
  lemma {:induction false} EndAroundComplement(t: nat, m: nat)
    requires m >= 1
    ensures EndAround(t + (m - EndAround(t, m)), m) == m
    decreases t
  {
    if t > m {
      EndAroundComplement(t - m, m);
      assert t + (m - EndAround(t, m)) == (t - m + (m - EndAround(t - m, m))) + m;
    }
  }

  // ---------------------------------------------------------------------
  // Folding the carry

  /** Folding the carry back in: x / b + x % b, with b = 256^k = M + 1. */
  function Fold(x: nat, b: nat): nat
    requires b >= 2
  {
    x / b + x % b
  }

  /** Folding strictly decreases a value that has a carry. */
  lemma FoldShrinks(x: nat, b: nat)
    requires b >= 2 && x / b != 0
    ensures Fold(x, b) < x
  {
    var q := x / b;
    assert x == q * b + x % b;
    assert q * b == q * (b - 1) + q;
    Arith.MulAtLeast(q, b - 1);
  }

  /** Folding keeps the end-around remainder. */
  lemma {:induction false} FoldKeeps(x: nat, b: nat, m: nat)
    requires m >= 1 && b == m + 1
    ensures EndAround(Fold(x, b), m) == EndAround(x, m)
    decreases x
  {
    if x < b {
      Arith.DivModUnique(x, b, 0, x);
    } else {
      var y := x - b;
      FoldKeeps(y, b, m);
      Arith.DivModStep(x, b);
      EndAroundAbsorb(Fold(y, b), 1, m);
      EndAroundAbsorb(y, 1, m);
      assert y + 1 == x - m;
    }
  }

  /** A single fold of a value of at most 2M is already the end-around remainder. */
  lemma FoldIsEndAround(x: nat, b: nat, m: nat)
    requires m >= 1 && b == m + 1 && x <= 2 * m
    ensures Fold(x, b) == EndAround(x, m)
  {
    if x < b {
      Arith.DivModUnique(x, b, 0, x);
    } else {
      Arith.DivModUnique(x, b, 1, x - b);
    }
  }

  /**
    What the carry-folding loop of the optimized versions leaves
    (fold while anything is left above the low k bytes, with b = 256^k = M + 1):
    the value folded until it has no carry.
   */
  function Carried(s: nat, b: nat): (r: nat)
    requires b >= 2
    ensures r < b
    decreases s
  {
    if s / b != 0 then
      FoldShrinks(s, b);
      Carried(Fold(s, b), b)
    else
      NoCarry(s, b);
      s
  }

  lemma NoCarry(x: nat, b: nat)
    requires b >= 2 && x / b == 0
    ensures x < b
  {
    assert x == (x / b) * b + x % b;
  }

  /** Folding until no carry is left gives exactly the end-around remainder. */
  lemma {:induction false} CarriedIsEndAround(s: nat, b: nat, m: nat)
    requires m >= 1 && b == m + 1
    ensures Carried(s, b) == EndAround(s, m)
    decreases s
  {
    if s / b != 0 {
      FoldShrinks(s, b);
      CarriedIsEndAround(Fold(s, b), b, m);
      FoldKeeps(s, b, m);
    }
  }

  /** The carry-folding loop. */
  method FoldCarries(sum: nat, b: nat) returns (s: nat)
    requires b >= 2
    ensures s == Carried(sum, b)
  {
    s := sum;
    while s / b != 0
      invariant Carried(s, b) == Carried(sum, b)
      decreases s
    {
      FoldShrinks(s, b);
      s := s / b + s % b;
    }
  }

  // ---------------------------------------------------------------------
  // The checksum

  lemma Pow256AtLeast(k: nat)
    requires k >= 1
    ensures Pow256(k) >= 256
  {
    assert Pow256(k) == 256 * Pow256(k - 1);
  }

  /** The one's complement sum of the big-endian k-byte words of data, the trailing group zero-padded. */
  function OnesSum(data: seq<Byte>, k: nat): (r: nat)
    requires k >= 1
    ensures r < Pow256(k)
  {
    Pow256AtLeast(k);
    EndAround(Words(data, 0, |data|, k), Pow256(k) - 1)
  }

  /** The one's complement checksum: the complement of the one's complement sum. */
  function Checksum(data: seq<Byte>, k: nat): (r: nat)
    requires k >= 1
    ensures r < Pow256(k)
  {
    Pow256(k) - 1 - OnesSum(data, k)
  }

  /** Without data the sum is zero and the checksum is all ones. */
  lemma ChecksumOfEmpty(k: nat)
    requires k >= 1
    ensures Checksum([], k) == Pow256(k) - 1
  {
    WordsEmpty([], 0, k);
  }

  /**
    Appending the checksum, as a big-endian word, to data whose length is a
    whole number of words gives data whose checksum is 0 (section 1 of
    RFC 1071: the receiver sums everything, checksum included).
   */
  lemma AppendedChecksumVerifies(data: seq<Byte>, k: nat)
    requires k >= 1 && |data| % k == 0
    ensures Checksum(data + BeBytes(Checksum(data, k), k), k) == 0
  {
    Pow256AtLeast(k);
    var m := Pow256(k) - 1;
    var t := Words(data, 0, |data|, k);
    var c := Checksum(data, k);
    var all := data + BeBytes(c, k);
    assert Words(all, 0, |all|, k) == t + c by {
      assert |data| == (|data| / k) * k;
      WholeWordsOf(|data| / k, k);
      WordsOfAppendedWord(data, BeBytes(c, k), k);
      BeValueOfBeBytes(c, k);
    }
    ComplementAdds(t, c, m);
  }

  /** Adding the complement c of the sum of t gives the all-ones sum. */
  lemma ComplementAdds(t: nat, c: nat, m: nat)
    requires m >= 1 && c == m - EndAround(t, m)
    ensures EndAround(t + c, m) == m
  {
    EndAroundComplement(t, m);
  }

  /** Appending a whole word w to data of whole words adds the value of w to the sum. */
  lemma WordsOfAppendedWord(data: seq<Byte>, w: seq<Byte>, k: nat)
    requires k >= 1 && |w| == k && WholeWords(|data|, k)
    ensures Words(data + w, 0, |data + w|, k) == Words(data, 0, |data|, k) + BeValue(w)
  {
    WordsOfPrefix(data, w, k);
    WordsOfSuffix(data, w, k);
    WordsSplit(data + w, 0, |data|, |data| + k, k);
  }

  lemma WordsOfSuffix(data: seq<Byte>, w: seq<Byte>, k: nat)
    requires k >= 1 && |w| == k
    ensures Words(data + w, |data|, |data| + k, k) == BeValue(w)
  {
    var all, n := data + w, |data|;
    WordsEmpty(all, n + k, k);
    assert all[n..n + k] == w;
    WordIsBeValue(all, n, k);
  }

  /** The internet checksum (RFC 1071): the 16-bit case of the round trip. */
  lemma InternetChecksumVerifies(data: seq<Byte>)
    requires |data| % 2 == 0
    ensures Checksum(data + BeBytes(Checksum(data, 2), 2), 2) == 0
  {
    AppendedChecksumVerifies(data, 2);
  }

  // ---------------------------------------------------------------------
  // Loop steps shared by the widths

  /**
    The invariant of the word loops: a reduced sum which, together with the
    words of data[p..e] still to be added, has the one's complement sum of all
    the words of data[0..e].
   */
  predicate Consumed(data: seq<Byte>, p: nat, e: nat, sum: nat, k: nat, m: nat)
    requires k >= 1 && m >= 1 && p <= e <= |data|
  {
    sum <= m && EndAround(sum + Words(data, p, e, k), m) == EndAround(Words(data, 0, e, k), m)
  }

  lemma ConsumedNothing(data: seq<Byte>, e: nat, k: nat, m: nat)
    requires k >= 1 && m >= 1 && e <= |data|
    ensures Consumed(data, 0, e, 0, k, m)
  {
  }

  /**
    The step of the textbook loops: adding the word at p to the sum and
    folding once keeps the invariant.
   */
  lemma WordStep(data: seq<Byte>, p: nat, e: nat, k: nat, m: nat, sum: nat, s: nat, f: nat)
    requires k >= 1 && m == Pow256(k) - 1 && p + k <= e <= |data| && Consumed(data, p, e, sum, k, m)
    requires s == sum + Word(data, p, k) && f == Fold(s, m + 1)
    ensures Consumed(data, p + k, e, f, k, m)
  {
    assert f == EndAround(s, m) by {
      WordBound(data, p, k);
      FoldIsEndAround(s, m + 1, m);
    }
    WordsFirst(data, p, e, k);
    AbsorbInto(s, f, Words(data, p + k, e, k), sum + Words(data, p, e, k), m);
  }

  /**
    The step of the block loops: whatever was added to the sum while moving
    from p to q, folding away all carries keeps the invariant.
   */
  lemma BlockStep(data: seq<Byte>, p: nat, q: nat, e: nat, k: nat, m: nat, sum: nat, s: nat, c: nat)
    requires k >= 1 && m >= 1 && p <= e && q <= e <= |data| && Consumed(data, p, e, sum, k, m)
    requires s + Words(data, q, e, k) == sum + Words(data, p, e, k) && c == Carried(s, m + 1)
    ensures Consumed(data, q, e, c, k, m)
  {
    CarriedIsEndAround(s, m + 1, m);
    AbsorbInto(s, c, Words(data, q, e, k), sum + Words(data, p, e, k), m);
  }

  /** When the loop has consumed all the data, the sum is the one's complement sum. */
  lemma Finish(data: seq<Byte>, k: nat, m: nat, sum: nat)
    requires k >= 1 && m == Pow256(k) - 1 && Consumed(data, |data|, |data|, sum, k, m)
    ensures sum == OnesSum(data, k)
  {
    WordsEmpty(data, |data|, k);
  }

  /**
    The end of the textbook loops: adding the zero-padded trailing group of
    fewer than k bytes and folding once gives the one's complement sum.
   */
  lemma TailStep(data: seq<Byte>, p: nat, k: nat, m: nat, sum: nat, tail: nat, f: nat)
    requires k >= 1 && m == Pow256(k) - 1 && p <= |data| && |data| - p < k && Consumed(data, p, |data|, sum, k, m)
    requires tail == Padded(data, p, |data| - p, k) && f == Fold(sum + tail, m + 1)
    ensures f == OnesSum(data, k)
  {
    PaddedBound(data, p, |data| - p, k);
    FoldIsEndAround(sum + tail, m + 1, m);
  }

  // ---------------------------------------------------------------------
  // 8-bit

  /** The value returned: the complement of the low byte of the sum. */
  lemma Result8(data: seq<Byte>, sum: nat)
    requires Consumed(data, |data|, |data|, sum, 1, 0xFF)
    ensures 0xFF - sum % 0x100 == Checksum(data, 1)
  {
    Finish(data, 1, 0xFF, sum);
  }

  /** onesum8_checksum_textbook: the carry is folded after every byte, so the sum never exceeds 0xFF. */
  method OneSum8Textbook(data: seq<Byte>) returns (r: Byte)
    ensures r == Checksum(data, 1)
  {
    var len: nat := |data|;
    var p: nat := 0;
    var sum: nat := 0;
    ConsumedNothing(data, |data|, 1, 0xFF);
    while len > 0
      invariant p + len == |data| && Consumed(data, p, |data|, sum, 1, 0xFF)
    {
      ghost var before := sum;
      Word1(data, p);
      sum := sum + data[p];
      WordStep(data, p, |data|, 1, 0xFF, before, sum, sum / 0x100 + sum % 0x100);
      p := p + 1;
      sum := sum / 0x100 + sum % 0x100;
      len := len - 1;
    }
    Result8(data, sum);
    r := 0xFF - sum % 0x100;
  }

  /** The inner loop of onesum8_checksum over one block of bytes. */
  method AddBlock8(data: seq<Byte>, p: nat, blocklength: nat, sum: nat) returns (s: nat, q: nat)
    requires p + blocklength <= |data|
    ensures q == p + blocklength
    ensures s + Words(data, q, |data|, 1) == sum + Words(data, p, |data|, 1)
    ensures s <= sum + blocklength * 0xFF
  {
    s, q := sum, p;
    var n := blocklength;
    while n > 0
      invariant q + n == p + blocklength
      invariant s <= sum + (q - p) * 0xFF
      invariant s + Words(data, q, |data|, 1) == sum + Words(data, p, |data|, 1)
    {
      Word1(data, q);
      s := s + data[q];
      q := q + 1;
      n := n - 1;
    }
  }

  /**
    onesum8_checksum: blocks of at most 256 bytes, the carry folded away after
    each block. The block limit keeps the sum within 16 bits.
   */
  method OneSum8(data: seq<Byte>) returns (r: Byte)
    ensures r == Checksum(data, 1)
  {
    var len: nat := |data|;
    var p: nat := 0;
    var sum: nat := 0;
    ConsumedNothing(data, |data|, 1, 0xFF);
    while len > 0
      invariant p + len == |data| && Consumed(data, p, |data|, sum, 1, 0xFF)
    {
      var blocklength := if len > 256 then 256 else len;
      len := len - blocklength;
      ghost var before, from := sum, p;
      sum, p := AddBlock8(data, p, blocklength, sum);
      assert sum <= 0xFFFF;
      ghost var added := sum;
      sum := FoldCarries(sum, 0x100);
      BlockStep(data, from, p, |data|, 1, 0xFF, before, added, sum);
    }
    Result8(data, sum);
    r := 0xFF - sum % 0x100;
  }

  // ---------------------------------------------------------------------
  // 16-bit: the internet checksum

  /** A lone last byte is the high byte of a zero-padded word. */
  lemma OddByte(data: seq<Byte>, q: nat)
    requires q + 1 == |data|
    ensures Words(data, q, |data|, 2) == data[q] as int * 0x100 + Words(data, q + 1, |data|, 2)
  {
    WordsEmpty(data, q + 1, 2);
  }

  lemma OddTail(data: seq<Byte>, p: nat, len: nat)
    requires p + len == |data| && len <= 1
    ensures Padded(data, p, len, 2) == if len == 1 then data[p] as int * 0x100 else 0
  {
    if len == 0 {
      PaddedEmpty(data, p, 2);
    }
  }

  /** The value returned: the complement of the low 16 bits of the sum. */
  lemma Result16(data: seq<Byte>, sum: nat)
    requires Consumed(data, |data|, |data|, sum, 2, 0xFFFF)
    ensures 0xFFFF - sum % 0x1_0000 == Checksum(data, 2)
  {
    Finish(data, 2, 0xFFFF, sum);
  }

  /** The end of onesum16_checksum_textbook: the odd byte, one fold, and the complement. */
  lemma TextbookTail16(data: seq<Byte>, p: nat, len: nat, before: nat, sum: nat)
    requires p + len == |data| && len <= 1 && Consumed(data, p, |data|, before, 2, 0xFFFF)
    requires sum == before + if len == 1 then data[p] as int * 0x100 else 0
    ensures 0xFFFF - (sum / 0x1_0000 + sum % 0x1_0000) % 0x1_0000 == Checksum(data, 2)
  {
    OddTail(data, p, len);
    TailStep(data, p, 2, 0xFFFF, before, sum - before, sum / 0x1_0000 + sum % 0x1_0000);
  }

  /** The word loop of onesum16_checksum_textbook; len bytes (0 or 1) are left at p. */
  method TextbookWords16(data: seq<Byte>) returns (p: nat, len: nat, sum: nat)
    ensures p + len == |data| && len <= 1 && Consumed(data, p, |data|, sum, 2, 0xFFFF)
  {
    len, p, sum := |data|, 0, 0;
    ConsumedNothing(data, |data|, 2, 0xFFFF);
    while len > 1
      invariant p + len == |data| && Consumed(data, p, |data|, sum, 2, 0xFFFF)
    {
      ghost var before := sum;
      Word2(data, p);
      var hi := data[p] as int * 0x100;
      var lo := data[p + 1] as int;
      sum := sum + (hi + lo);
      WordStep(data, p, |data|, 2, 0xFFFF, before, sum, sum / 0x1_0000 + sum % 0x1_0000);
      p := p + 2;
      sum := sum / 0x1_0000 + sum % 0x1_0000;
      len := len - 2;
    }
  }

  /**
    onesum16_checksum_textbook: the carry is folded after every word, so the
    sum stays within 16 bits and one final fold after the odd byte suffices.
   */
  method OneSum16Textbook(data: seq<Byte>) returns (r: nat)
    ensures r == Checksum(data, 2)
  {
    var p, len, sum := TextbookWords16(data);
    ghost var before := sum;
    if len == 1 {
      sum := sum + data[p] as int * 0x100;
    }
    TextbookTail16(data, p, len, before, sum);
    sum := sum / 0x1_0000 + sum % 0x1_0000;
    r := 0xFFFF - sum % 0x1_0000;
  }

  /** The inner loop of onesum16_checksum: the byte pairs of one block. */
  method AddBlock16(data: seq<Byte>, p: nat, blocklength: nat, sum: nat) returns (s: nat, q: nat, left: nat)
    requires p + blocklength <= |data|
    ensures left == blocklength % 2 && q + left == p + blocklength
    ensures s + Words(data, q, |data|, 2) == sum + Words(data, p, |data|, 2)
    ensures 2 * s <= 2 * sum + (q - p) * 0xFFFF
  {
    s, q, left := sum, p, blocklength;
    while left > 1
      invariant q + left == p + blocklength && left % 2 == blocklength % 2
      invariant 2 * s <= 2 * sum + (q - p) * 0xFFFF
      invariant s + Words(data, q, |data|, 2) == sum + Words(data, p, |data|, 2)
    {
      Word2(data, q);
      s := s + data[q] as int * 0x100;
      s := s + data[q + 1] as int;
      q := q + 2;
      left := left - 2;
    }
  }

  /**
    onesum16_checksum: blocks of at most 508 bytes, the carry folded away after
    each block. Only the last block can have odd length, because the block
    limit is even, so the lone byte is the last byte of the data.
   */
  method OneSum16(data: seq<Byte>) returns (r: nat)
    ensures r == Checksum(data, 2)
  {
    var len: nat := |data|;
    var p: nat := 0;
    var sum: nat := 0;
    ConsumedNothing(data, |data|, 2, 0xFFFF);
    while len > 0
      invariant p + len == |data| && Consumed(data, p, |data|, sum, 2, 0xFFFF)
    {
      var blocklength := if len > 508 then 508 else len;
      len := len - blocklength;
      ghost var before, from := sum, p;
      var left;
      sum, p, left := AddBlock16(data, p, blocklength, sum);
      if left == 1 {
        OddByte(data, p);
        sum := sum + data[p] as int * 0x100;
        p := p + 1;
      }
      assert sum < 0x100_0000;
      ghost var added := sum;
      sum := FoldCarries(sum, 0x1_0000);
      BlockStep(data, from, p, |data|, 2, 0xFFFF, before, added, sum);
    }
    Result16(data, sum);
    r := 0xFFFF - sum % 0x1_0000;
  }

  // ---------------------------------------------------------------------
  // 32-bit

  const M32: nat := 0xFFFF_FFFF
  const B32: nat := 0x1_0000_0000

  /**
    What the remainder loop of both 32-bit versions adds: the data pointer
    is not advanced inside the loop, so the byte at q is added at each of the
    top `modulus` byte positions of a 32-bit word.
   */
  function RepeatedTail(data: seq<Byte>, q: nat, modulus: nat): nat
    requires modulus < 4 && (modulus > 0 ==> q < |data|)
  {
    if modulus == 0 then 0 else RepeatedTail(data, q, modulus - 1) + data[q] as int * Pow256(4 - modulus)
  }

  lemma RepeatedTailBound(data: seq<Byte>, q: nat, modulus: nat)
    requires modulus < 4 && (modulus > 0 ==> q < |data|)
    ensures RepeatedTail(data, q, modulus) <= 0xFFFF_FF00
  {
    if modulus > 0 {
      var x := data[q] as int;
      Pow256Values();
      assert RepeatedTail(data, q, 1) == x * 0x100_0000;
      if modulus > 1 {
        assert RepeatedTail(data, q, 2) == x * 0x100_0000 + x * 0x1_0000;
        if modulus > 2 {
          assert RepeatedTail(data, q, 3) == x * 0x100_0000 + x * 0x1_0000 + x * 0x100;
        }
      }
    }
  }

  /** The remainder loop as written. */
  method AddRepeatedTail(data: seq<Byte>, q: nat, modulus: nat, sum: nat) returns (s: nat)
    requires modulus < 4 && (modulus > 0 ==> q < |data|)
    ensures s == sum + RepeatedTail(data, q, modulus)
  {
    s := sum;
    var i := 0;
    while i < modulus
      invariant i <= modulus && s == sum + RepeatedTail(data, q, i)
    {
      s := s + data[q] as int * Pow256(3 - i);
      i := i + 1;
    }
  }

  /** The remainder loop as intended, trailing byte i shifted to byte position 3 - i: the zero-padded trailing group. */
  method AddTailBytes(data: seq<Byte>, q: nat, modulus: nat, sum: nat) returns (s: nat)
    requires modulus < 4 && q + modulus <= |data|
    ensures s == sum + Padded(data, q, modulus, 4)
  {
    s := sum;
    var i := 0;
    PaddedEmpty(data, q, 4);
    while i < modulus
      invariant i <= modulus && s == sum + Padded(data, q, i, 4)
    {
      PaddedStep(data, q, i, 4);
      s := s + data[q + i] as int * Pow256(3 - i);
      i := i + 1;
    }
  }

  /**
    What onesum32_checksum_textbook computes: the one's complement sum of the
    whole 4-byte words plus the remainder word of the repeated byte, complemented.
   */
  function Textbook32AsWritten(data: seq<Byte>): (r: nat)
    ensures r <= M32
  {
    var modulus := |data| % 4;
    var q := |data| - modulus;
    M32 - EndAround(Words(data, 0, q, 4) + RepeatedTail(data, q, modulus), M32)
  }

  /** The word loop of onesum32_checksum_textbook: it stops at the last whole word. */
  method TextbookWords32(data: seq<Byte>) returns (p: nat, sum: nat)
    ensures p == |data| - |data| % 4 && Consumed(data, p, p, sum, 4, M32)
  {
    var len: nat := |data|;
    ghost var e := |data| - |data| % 4;
    p, sum := 0, 0;
    ConsumedNothing(data, e, 4, M32);
    while len > 3
      invariant p + len == |data| && p % 4 == 0 && p <= e
      invariant Consumed(data, p, e, sum, 4, M32)
    {
      ghost var before := sum;
      var b0 := data[p] as int * 0x100_0000;
      var b1 := data[p + 1] as int * 0x1_0000;
      var b2 := data[p + 2] as int * 0x100;
      var b3 := data[p + 3] as int;
      sum := sum + (b0 + b1 + b2 + b3);
      Step32(data, p, e, before, sum, sum / B32 + sum % B32);
      p := p + 4;
      sum := sum / B32 + sum % B32;
      len := len - 4;
    }
    LastWholeWord(|data|, p);
  }

  lemma LastWholeWord(n: nat, p: nat)
    requires p % 4 == 0 && p <= n - n % 4 && n - p <= 3
    ensures p == n - n % 4
  {
  }

  /** One round of the word loop of onesum32_checksum_textbook. */
  lemma Step32(data: seq<Byte>, p: nat, e: nat, sum: nat, s: nat, f: nat)
    requires e == |data| - |data| % 4 && p % 4 == 0 && p <= e && p + 4 <= |data|
    requires Consumed(data, p, e, sum, 4, M32)
    requires s == sum + (data[p] as int * 0x100_0000 + data[p + 1] as int * 0x1_0000 + data[p + 2] as int * 0x100 + data[p + 3] as int)
    requires f == s / B32 + s % B32
    ensures (p + 4) % 4 == 0 && p + 4 <= e && Consumed(data, p + 4, e, f, 4, M32)
  {
    Word4(data, p);
    WordStep(data, p, e, 4, M32, sum, s, f);
  }

  /** Once everything up to p is consumed, the accumulator is the one's complement sum of the words before p. */
  lemma ConsumedAll(data: seq<Byte>, p: nat, sum: nat, k: nat, m: nat)
    requires k >= 1 && m >= 1 && p <= |data| && Consumed(data, p, p, sum, k, m)
    ensures sum == EndAround(Words(data, 0, p, k), m)
  {
    WordsEmpty(data, p, k);
  }

  /** The end of onesum32_checksum_textbook as written: the repeated-byte remainder and one fold. */
  lemma TextbookTail32(data: seq<Byte>, p: nat, before: nat, sum: nat)
    requires p == |data| - |data| % 4 && Consumed(data, p, p, before, 4, M32)
    requires sum == before + RepeatedTail(data, p, |data| % 4)
    ensures M32 - (sum / B32 + sum % B32) % B32 == Textbook32AsWritten(data)
  {
    ConsumedAll(data, p, before, 4, M32);
    RepeatedTailBound(data, p, |data| % 4);
    FoldOnce32(Words(data, 0, p, 4), before, RepeatedTail(data, p, |data| % 4), sum);
  }

  /** Adding a remainder word to a folded sum and folding once more gives the one's complement sum. */
  lemma FoldOnce32(w: nat, before: nat, tail: nat, sum: nat)
    requires before == EndAround(w, M32) && tail <= M32 && sum == before + tail
    ensures M32 - (sum / B32 + sum % B32) % B32 == M32 - EndAround(w + tail, M32)
  {
    AbsorbInto(w, before, tail, w + tail, M32);
    FoldIsEndAround(sum, B32, M32);
    Arith.ModSmall(sum / B32 + sum % B32, B32);
  }

  /** onesum32_checksum_textbook as written. */
  method OneSum32Textbook(data: seq<Byte>) returns (r: nat)
    ensures r == Textbook32AsWritten(data)
  {
    var modulus := |data| % 4;
    var p, sum := TextbookWords32(data);
    ghost var before := sum;
    sum := AddRepeatedTail(data, p, modulus, sum);
    TextbookTail32(data, p, before, sum);
    sum := sum / B32 + sum % B32;
    r := M32 - sum % B32;
  }

  /** The end of onesum32_checksum_textbook with the remainder bytes taken in turn. */
  lemma TextbookTail32Corrected(data: seq<Byte>, p: nat, before: nat, sum: nat)
    requires p == |data| - |data| % 4 && Consumed(data, p, p, before, 4, M32)
    requires sum == before + Padded(data, p, |data| % 4, 4)
    ensures M32 - (sum / B32 + sum % B32) % B32 == Checksum(data, 4)
  {
    ConsumedAll(data, p, before, 4, M32);
    PaddedBound(data, p, |data| % 4, 4);
    WordsLast(data, p, 4);
    FoldOnce32(Words(data, 0, p, 4), before, Padded(data, p, |data| % 4, 4), sum);
    Checksum32(data);
  }

  lemma Checksum32(data: seq<Byte>)
    ensures Checksum(data, 4) == M32 - EndAround(Words(data, 0, |data|, 4), M32)
  {
    Pow256Values();
  }

  /** onesum32_checksum_textbook with the remainder loop adding data[i] instead of *data. */
  method OneSum32TextbookCorrected(data: seq<Byte>) returns (r: nat)
    ensures r == Checksum(data, 4)
  {
    var modulus := |data| % 4;
    var p, sum := TextbookWords32(data);
    ghost var before := sum;
    sum := AddTailBytes(data, p, modulus, sum);
    TextbookTail32Corrected(data, p, before, sum);
    sum := sum / B32 + sum % B32;
    r := M32 - sum % B32;
  }

  /** The whole-word loop inside one block of onesum32_checksum. */
  method AddBlock32(data: seq<Byte>, p: nat, blocklength: nat, sum: nat) returns (s: nat, q: nat)
    requires p + blocklength <= |data|
    ensures q == p + blocklength - blocklength % 4 && WholeWords(q - p, 4)
    ensures s == sum + Words(data, p, q, 4)
    ensures 4 * s <= 4 * sum + (q - p) * M32
  {
    s, q := sum, p;
    var left := blocklength;
    WordsEmpty(data, p, 4);
    while left > 3
      invariant q + left == p + blocklength && left % 4 == blocklength % 4
      invariant WholeWords(q - p, 4)
      invariant s == sum + Words(data, p, q, 4)
      invariant 4 * s <= 4 * sum + (q - p) * M32
    {
      var b0 := data[q] as int * 0x100_0000;
      var b1 := data[q + 1] as int * 0x1_0000;
      var b2 := data[q + 2] as int * 0x100;
      var b3 := data[q + 3] as int;
      BlockWord32(data, p, q, sum, s, b0 + b1 + b2 + b3);
      s := s + (b0 + b1 + b2 + b3);
      q := q + 4;
      left := left - 4;
    }
  }

  /** One round of the inner loop of onesum32_checksum. */
  lemma BlockWord32(data: seq<Byte>, p: nat, q: nat, sum: nat, s: nat, w: nat)
    requires p <= q && q + 4 <= |data| && WholeWords(q - p, 4)
    requires s == sum + Words(data, p, q, 4) && 4 * s <= 4 * sum + (q - p) * M32
    requires w == data[q] as int * 0x100_0000 + data[q + 1] as int * 0x1_0000 + data[q + 2] as int * 0x100 + data[q + 3] as int
    ensures WholeWords(q + 4 - p, 4) && s + w == sum + Words(data, p, q + 4, 4)
    ensures 4 * (s + w) <= 4 * sum + (q + 4 - p) * M32
  {
    WordsExtend(data, p, q, 4);
    Word4(data, q);
  }

  /**
    The blocks of onesum32_checksum: every block but the last is 1016 bytes
    long, so only the last one leaves bytes over, as many as the whole input.
   */
  lemma BlockEnds32(n: nat, p: nat, blocklength: nat)
    requires p % 4 == 0 && p + blocklength <= n
    requires blocklength == if n - p > 1016 then 1016 else n - p
    ensures p + blocklength == n ==> blocklength % 4 == n % 4
    ensures p + blocklength < n ==> blocklength % 4 == 0 && (p + blocklength) % 4 == 0
  {
  }

  /**
    What onesum32_checksum computes from offset p on with accumulator sum:
    each block adds its whole words and then the remainder loop, which reads
    the byte just after the block's whole words (the first byte of the next
    block, or of the leftover bytes in the last one), and folds the carries.
   */
  function Blocks32(data: seq<Byte>, p: nat, sum: nat): (r: nat)
    requires p <= |data| && (p % 4 == 0 || p == |data|) && sum <= M32
    ensures r <= M32
    decreases |data| - p
  {
    if p == |data| then sum
    else
      var blocklength := if |data| - p > 1016 then 1016 else |data| - p;
      var q := p + blocklength - blocklength % 4;
      BlockEnds32(|data|, p, blocklength);
      Blocks32(data, p + blocklength, Carried(sum + Words(data, p, q, 4) + RepeatedTail(data, q, |data| % 4), B32))
  }

  /** One block of onesum32_checksum, with the sum before its carries are folded kept below 2^40. */
  lemma Blocks32Step(data: seq<Byte>, p: nat, sum: nat, blocklength: nat, q: nat, words: nat, s: nat)
    requires p < |data| && p % 4 == 0 && sum <= M32
    requires blocklength == (if |data| - p > 1016 then 1016 else |data| - p)
    requires q == p + blocklength - blocklength % 4
    requires words == sum + Words(data, p, q, 4) && 4 * words <= 4 * sum + (q - p) * M32
    requires s == words + RepeatedTail(data, q, |data| % 4)
    ensures s < 0x100_0000_0000
    ensures (p + blocklength) % 4 == 0 || p + blocklength == |data|
    ensures Blocks32(data, p, sum) == Blocks32(data, p + blocklength, Carried(s, B32))
  {
    BlockEnds32(|data|, p, blocklength);
    RepeatedTailBound(data, q, |data| % 4);
  }

  /** What onesum32_checksum returns. */
  function Optimized32AsWritten(data: seq<Byte>): (r: nat)
    ensures r <= M32
  {
    M32 - Blocks32(data, 0, 0)
  }

  /** onesum32_checksum as written. */
  method OneSum32(data: seq<Byte>) returns (r: nat)
    ensures r == Optimized32AsWritten(data)
  {
    var len: nat := |data|;
    var p: nat := 0;
    var sum: nat := 0;
    var modulus := len % 4;
    while len > 0
      invariant p + len == |data| && (p % 4 == 0 || len == 0) && sum <= M32
      invariant Blocks32(data, p, sum) == Blocks32(data, 0, 0)
    {
      var blocklength := if len > 1016 then 1016 else len;
      len := len - blocklength;
      BlockEnds32(|data|, p, blocklength);
      ghost var before := sum;
      var q;
      sum, q := AddBlock32(data, p, blocklength, sum);
      ghost var words := sum;
      sum := AddRepeatedTail(data, q, modulus, sum);
      Blocks32Step(data, p, before, blocklength, q, words, sum);
      sum := FoldCarries(sum, B32);
      p := p + blocklength;
    }
    Arith.ModSmall(sum, B32);
    r := M32 - sum % B32;
  }

  /**
    One block of onesum32_checksum with the remainder bytes taken in turn and
    only in the last block.
   */
  lemma CorrectedBlock32(data: seq<Byte>, p: nat, blocklength: nat, q: nat, sum: nat, s: nat)
    requires p < |data| && p % 4 == 0
    requires blocklength == (if |data| - p > 1016 then 1016 else |data| - p)
    requires q == p + blocklength - blocklength % 4
    requires s == sum + Words(data, p, q, 4) + (if p + blocklength == |data| then Padded(data, q, |data| % 4, 4) else 0)
    ensures (p + blocklength) % 4 == 0 || p + blocklength == |data|
    ensures s + Words(data, p + blocklength, |data|, 4) == sum + Words(data, p, |data|, 4)
  {
    BlockEnds32(|data|, p, blocklength);
    WholeWordsEnd(blocklength, 4);
    WordsSplit(data, p, q, |data|, 4);
    if p + blocklength == |data| {
      WordsEmpty(data, |data|, 4);
    }
  }

  /** The additions of one block of the corrected onesum32_checksum. */
  method CorrectedBlockSum32(data: seq<Byte>, p: nat, blocklength: nat, modulus: nat, last: bool, sum: nat)
    returns (s: nat)
    requires p < |data| && p % 4 == 0 && modulus == |data| % 4
    requires blocklength == (if |data| - p > 1016 then 1016 else |data| - p)
    requires last <==> p + blocklength == |data|
    ensures (p + blocklength) % 4 == 0 || p + blocklength == |data|
    ensures s + Words(data, p + blocklength, |data|, 4) == sum + Words(data, p, |data|, 4)
  {
    var q;
    s, q := AddBlock32(data, p, blocklength, sum);
    if last {
      BlockEnds32(|data|, p, blocklength);
      s := AddTailBytes(data, q, modulus, s);
    }
    CorrectedBlock32(data, p, blocklength, q, sum, s);
  }

  /**
    onesum32_checksum with the remainder loop run once, after the last block,
    on the bytes that are left over.
   */
  method OneSum32Corrected(data: seq<Byte>) returns (r: nat)
    ensures r == Checksum(data, 4)
  {
    var len: nat := |data|;
    var p: nat := 0;
    var sum: nat := 0;
    var modulus := len % 4;
    ConsumedNothing(data, |data|, 4, M32);
    while len > 0
      invariant p + len == |data| && (p % 4 == 0 || len == 0)
      invariant Consumed(data, p, |data|, sum, 4, M32)
    {
      var blocklength := if len > 1016 then 1016 else len;
      len := len - blocklength;
      ghost var before := sum;
      sum := CorrectedBlockSum32(data, p, blocklength, modulus, len == 0, sum);
      ghost var added := sum;
      sum := FoldCarries(sum, B32);
      BlockStep(data, p, p + blocklength, |data|, 4, M32, before, added, sum);
      p := p + blocklength;
    }
    Result32(data, sum);
    r := M32 - sum % B32;
  }

  lemma Result32(data: seq<Byte>, sum: nat)
    requires Consumed(data, |data|, |data|, sum, 4, M32)
    ensures M32 - sum % B32 == Checksum(data, 4)
  {
    Finish(data, 4, M32, sum);
    Checksum32(data);
  }

  // ---------------------------------------------------------------------
  // How far the 32-bit versions as written are right

  /** With at most one byte left over, repeating the byte is harmless: the textbook version is right. */
  lemma TextbookAsWrittenAgrees(data: seq<Byte>)
    requires |data| % 4 <= 1
    ensures Textbook32AsWritten(data) == Checksum(data, 4)
  {
    var q, r := |data| - |data| % 4, |data| % 4;
    WordsLast(data, q, 4);
    PaddedEmpty(data, q, 4);
    if r == 1 {
      PaddedStep(data, q, 0, 4);
      assert RepeatedTail(data, q, 1) == RepeatedTail(data, q, 0) + data[q] as int * Pow256(3);
    }
    assert RepeatedTail(data, q, r) == Padded(data, q, r, 4);
    Checksum32(data);
  }

  /** Two bytes left over: the first is added twice and the second never. */
  lemma TextbookAsWrittenDiffers()
    ensures Textbook32AsWritten([1, 2]) == 0xFEFE_FFFF
    ensures Checksum([1, 2], 4) == 0xFEFD_FFFF
  {
    var data: seq<Byte> := [1, 2];
    WordsEmpty(data, 0, 4);
    Pow256Values();
    assert RepeatedTail(data, 0, 2) == 0x101_0000;
    Checksum32(data);
    PaddedEmpty(data, 0, 4);
    PaddedStep(data, 0, 0, 4);
    PaddedStep(data, 0, 1, 4);
    assert Words(data, 0, 2, 4) == 0x102_0000;
  }

  /** Input of a single block: the optimized version computes what the textbook version computes. */
  lemma OptimizedAgreesWhenShort(data: seq<Byte>)
    requires |data| <= 1016
    ensures Optimized32AsWritten(data) == Textbook32AsWritten(data)
  {
    if |data| > 0 {
      var q := |data| - |data| % 4;
      var x := Words(data, 0, q, 4) + RepeatedTail(data, q, |data| % 4);
      assert Blocks32(data, 0, 0) == Carried(x, B32);
      CarriedIsEndAround(x, B32, M32);
    } else {
      WordsEmpty(data, 0, 4);
    }
  }

  /** Without leftover bytes the blocks of the optimized version add up to the one's complement sum. */
  lemma {:induction false} BlocksOfWholeWords(data: seq<Byte>, p: nat, sum: nat)
    requires |data| % 4 == 0 && p % 4 == 0 && p <= |data| && sum <= M32
    ensures Blocks32(data, p, sum) == EndAround(sum + Words(data, p, |data|, 4), M32)
    decreases |data| - p
  {
    if p == |data| {
      WordsEmpty(data, p, 4);
    } else {
      var blocklength := if |data| - p > 1016 then 1016 else |data| - p;
      BlockEnds32(|data|, p, blocklength);
      var q := p + blocklength;
      assert RepeatedTail(data, q, 0) == 0;
      var x := sum + Words(data, p, q, 4) + RepeatedTail(data, q, 0);
      var c := Carried(x, B32);
      assert Blocks32(data, p, sum) == Blocks32(data, q, c);
      BlocksOfWholeWords(data, q, c);
      WholeWordsEnd(blocklength, 4);
      WholeBlock(data, p, q, sum, x, c);
    }
  }

  /** Folding the carries of a block of whole words keeps the one's complement sum of the rest. */
  lemma WholeBlock(data: seq<Byte>, p: nat, q: nat, sum: nat, x: nat, c: nat)
    requires p <= q <= |data| && WholeWords(q - p, 4)
    requires x == sum + Words(data, p, q, 4) && c == Carried(x, B32)
    ensures EndAround(c + Words(data, q, |data|, 4), M32) == EndAround(sum + Words(data, p, |data|, 4), M32)
  {
    CarriedIsEndAround(x, B32, M32);
    WordsSplit(data, p, q, |data|, 4);
    AbsorbInto(x, c, Words(data, q, |data|, 4), sum + Words(data, p, |data|, 4), M32);
  }

  /** When the length is a multiple of 4 the optimized version is right. */
  lemma OptimizedAgreesWhenWhole(data: seq<Byte>)
    requires |data| % 4 == 0
    ensures Optimized32AsWritten(data) == Checksum(data, 4)
  {
    BlocksOfWholeWords(data, 0, 0);
    Checksum32(data);
  }

  /**
    1016 zero bytes and a 1: the remainder loop runs in the first block too,
    reading the first byte of the second block, so the 1 is added twice.
   */
  lemma OptimizedAsWrittenDiffers()
    ensures Optimized32AsWritten(Zeros(1016) + [1]) == 0xFDFF_FFFF
    ensures Textbook32AsWritten(Zeros(1016) + [1]) == 0xFEFF_FFFF
    ensures Checksum(Zeros(1016) + [1], 4) == 0xFEFF_FFFF
  {
    var data := Zeros(1016) + [1];
    assert Words(data, 0, 1016, 4) == 0 by {
      WordsOfPrefix(Zeros(1016), [1], 4);
      WordsOfZeros(1016, 0, 4);
    }
    assert RepeatedTail(data, 1016, 1) == 0x100_0000 by {
      Pow256Values();
    }
    FirstBlockOfExample(data);
    SecondBlockOfExample(data);
    TextbookOfExample(data);
    TextbookAsWrittenAgrees(data);
  }

  lemma TextbookOfExample(data: seq<Byte>)
    requires |data| == 1017 && Words(data, 0, 1016, 4) == 0 && RepeatedTail(data, 1016, 1) == 0x100_0000
    ensures Textbook32AsWritten(data) == 0xFEFF_FFFF
  {
    assert EndAround(0x100_0000, M32) == 0x100_0000;
  }

  /** The first block of the example: zero words, then the byte after them added once. */
  lemma FirstBlockOfExample(data: seq<Byte>)
    requires |data| == 1017 && Words(data, 0, 1016, 4) == 0 && RepeatedTail(data, 1016, 1) == 0x100_0000
    ensures Blocks32(data, 0, 0) == Blocks32(data, 1016, 0x100_0000)
  {
    assert Carried(0x100_0000, B32) == 0x100_0000;
    assert Blocks32(data, 0, 0) == Blocks32(data, 1016, Carried(0 + Words(data, 0, 1016, 4) + RepeatedTail(data, 1016, 1), B32));
  }

  /** The last block of the example: no whole word, and the byte added a second time. */
  lemma SecondBlockOfExample(data: seq<Byte>)
    requires |data| == 1017 && RepeatedTail(data, 1016, 1) == 0x100_0000
    ensures Blocks32(data, 1016, 0x100_0000) == 0x200_0000
  {
    WordsEmpty(data, 1016, 4);
    assert Carried(0x200_0000, B32) == 0x200_0000;
    assert Blocks32(data, 1017, 0x200_0000) == 0x200_0000;
    assert Blocks32(data, 1016, 0x100_0000) == Blocks32(data, 1017, Carried(0x100_0000 + Words(data, 1016, 1016, 4) + RepeatedTail(data, 1016, 1), B32));
  }
}
