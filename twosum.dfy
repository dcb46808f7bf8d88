/**
  Two's complement sums (bm_checksum_twosum.cpp): the input is read as
  big-endian words of 1, 2, 4 or 8 bytes, a trailing partial word left-aligned
  and zero-padded, and the words are added with wrap-around.
 */
module TwoSum {
  import Arith
  import opened Bytes

  /** Reference definition: the sum of the k-byte words modulo 2^(8k). */
  function Sum(data: seq<Byte>, k: nat): (r: nat)
    requires k >= 1
    ensures r < Pow256(k)
  {
    Words(data, 0, |data|, k) % Pow256(k)
  }

  lemma SumOfEmpty(k: nat)
    requires k >= 1
    ensures Sum([], k) == 0
  {
    WordsEmpty([], 0, k);
  }

  /**
    Concatenation after a whole number of words adds the two sums: the sum
    of a message can be computed piecewise.
   */
  lemma SumAppend(a: seq<Byte>, b: seq<Byte>, k: nat)
    requires k >= 1 && |a| % k == 0
    ensures Sum(a + b, k) == (Sum(a, k) + Sum(b, k)) % Pow256(k)
  {
    var m := Pow256(k);
    assert Words(a + b, 0, |a + b|, k) == Words(a, 0, |a|, k) + Words(b, 0, |b|, k) by {
      WholeWordsEnd(|a|, k);
      WordsSplit(a + b, 0, |a|, |a + b|, k);
      WordsOfPrefix(a, b, k);
      WordsShift(a, b, 0, k);
    }
    Arith.ModOfSum(Words(a, 0, |a|, k), Words(b, 0, |b|, k), m);
    Arith.ModOfSum(Words(b, 0, |b|, k), Sum(a, k), m);
  }

  /** One loop round: adding the next word to the wrapped sum keeps it the wrapped sum of the words so far. */
  lemma AddWord(data: seq<Byte>, p: nat, k: nat, m: nat, sum: nat, w: nat)
    requires k >= 1 && m >= 1 && p + k <= |data| && WholeWords(p, k)
    requires sum == Words(data, 0, p, k) % m && w == Word(data, p, k)
    ensures (sum + w) % m == Words(data, 0, p + k, k) % m && WholeWords(p + k, k)
  {
    WordsExtend(data, 0, p, k);
    Arith.ModOfSum(Words(data, 0, p, k), w, m);
  }

  /**
    The end: adding the padded remainder to the accumulator, whose modulus
    `wide` is a multiple of the result modulus pk, and truncating to the
    result width.
   */
  lemma AddTail(data: seq<Byte>, e: nat, k: nat, pk: nat, n: nat, wide: nat, sum: nat, tail: nat, r: nat)
    requires k >= 1 && pk == Pow256(k) && n >= 1 && wide == pk * n
    requires e == |data| - |data| % k && sum == Words(data, 0, e, k) % wide
    requires tail == Padded(data, e, |data| % k, k) && r == ((sum + tail) % wide) % pk
    ensures r == Sum(data, k)
  {
    WordsLast(data, e, k);
    Arith.ModOfSumMod(Words(data, 0, e, k), tail, pk, n, wide);
  }

  /** The trailing partial word, built byte by byte: trailing byte i goes to byte position k-1-i of the word. */
  method ReadTail(data: seq<Byte>, q: nat, n: nat, k: nat) returns (addend: nat)
    requires n < k && q + n <= |data|
    ensures addend == Padded(data, q, n, k)
  {
    addend := 0;
    PaddedEmpty(data, q, k);
    var i := 0;
    while i < n
      invariant i <= n && addend == Padded(data, q, i, k)
    {
      PaddedStep(data, q, i, k);
      addend := addend + data[q + i] as int * Pow256(k - 1 - i);
      i := i + 1;
    }
  }

  /** sum8_checksum: the uint_fast8_t accumulator wraps at 256 on every addition. */
  method Sum8(data: seq<Byte>) returns (r: Byte)
    ensures r == Sum(data, 1)
  {
    var sum: Byte := 0;
    var p: nat := 0;
    WordsEmpty(data, 0, 1);
    while p < |data|
      invariant p <= |data| && WholeWords(p, 1) && sum == Words(data, 0, p, 1) % 0x100
    {
      Word1(data, p);
      AddWord(data, p, 1, 0x100, sum, data[p]);
      sum := (sum + data[p]) % 0x100;
      p := p + 1;
    }
    Pow256Values();
    WordsEmpty(data, |data|, 1);
    r := sum;
  }

  /** The whole-word loop of sum16_checksum; the uint_fast16_t accumulator is 64 bits wide. */
  method Words16(data: seq<Byte>) returns (p: nat, sum: nat)
    ensures p == |data| - |data| % 2 && sum == Words(data, 0, p, 2) % FAST_MOD
  {
    var end := |data| - |data| % 2;
    p, sum := 0, 0;
    WordsEmpty(data, 0, 2);
    WholeWordsEnd(|data|, 2);
    while p < end
      invariant p <= end && WholeWords(p, 2) && sum == Words(data, 0, p, 2) % FAST_MOD
    {
      WholeWordsNext(p, end, 2);
      var msb := data[p] as int * 0x100;
      var lsb := data[p + 1] as int;
      Word2(data, p);
      AddWord(data, p, 2, FAST_MOD, sum, msb + lsb);
      sum := (sum + (msb + lsb)) % FAST_MOD;
      p := p + 2;
    }
  }

  /** sum16_checksum. */
  method Sum16(data: seq<Byte>) returns (r: nat)
    ensures r == Sum(data, 2)
  {
    var modulus := |data| % 2;
    var p, sum := Words16(data);
    var tail := 0;
    if modulus == 1 {
      tail := data[p] as int * 0x100;
    }
    assert tail == Padded(data, p, modulus, 2) by {
      PaddedEmpty(data, p, 2);
      if modulus == 1 {
        PaddedStep(data, p, 0, 2);
      }
    }
    Pow256Values();
    AddTail(data, p, 2, 0x1_0000, 0x1_0000_0000_0000, FAST_MOD, sum, tail, ((sum + tail) % FAST_MOD) % 0x1_0000);
    sum := (sum + tail) % FAST_MOD;
    r := sum % 0x1_0000;
  }

  /** The whole-word loop of sum32_checksum; the uint_fast32_t accumulator is 64 bits wide. */
  method Words32(data: seq<Byte>) returns (p: nat, sum: nat)
    ensures p == |data| - |data| % 4 && sum == Words(data, 0, p, 4) % FAST_MOD
  {
    var end := |data| - |data| % 4;
    p, sum := 0, 0;
    WordsEmpty(data, 0, 4);
    WholeWordsEnd(|data|, 4);
    while p < end
      invariant p <= end && WholeWords(p, 4) && sum == Words(data, 0, p, 4) % FAST_MOD
    {
      WholeWordsNext(p, end, 4);
      var addend := data[p] as int * 0x100_0000 + data[p + 1] as int * 0x1_0000
                    + data[p + 2] as int * 0x100 + data[p + 3] as int;
      Word4(data, p);
      AddWord(data, p, 4, FAST_MOD, sum, addend);
      sum := (sum + addend) % FAST_MOD;
      p := p + 4;
    }
  }

  /** sum32_checksum. */
  method Sum32(data: seq<Byte>) returns (r: nat)
    ensures r == Sum(data, 4)
  {
    var modulus := |data| % 4;
    var p, sum := Words32(data);
    var addend := ReadTail(data, p, modulus, 4);
    Pow256Values();
    AddTail(data, p, 4, 0x1_0000_0000, 0x1_0000_0000, FAST_MOD, sum, addend, ((sum + addend) % FAST_MOD) % 0x1_0000_0000);
    sum := (sum + addend) % FAST_MOD;
    r := sum % 0x1_0000_0000;
  }

  /** The whole-word loop of sum64_checksum. */
  method Words64(data: seq<Byte>) returns (p: nat, sum: nat)
    ensures p == |data| - |data| % 8 && sum == Words(data, 0, p, 8) % FAST_MOD
  {
    var end := |data| - |data| % 8;
    p, sum := 0, 0;
    WordsEmpty(data, 0, 8);
    WholeWordsEnd(|data|, 8);
    while p < end
      invariant p <= end && WholeWords(p, 8) && sum == Words(data, 0, p, 8) % FAST_MOD
    {
      WholeWordsNext(p, end, 8);
      var addend := data[p] as int * 0x100_0000_0000_0000 + data[p + 1] as int * 0x1_0000_0000_0000
                    + data[p + 2] as int * 0x100_0000_0000 + data[p + 3] as int * 0x1_0000_0000
                    + data[p + 4] as int * 0x100_0000 + data[p + 5] as int * 0x1_0000
                    + data[p + 6] as int * 0x100 + data[p + 7] as int;
      Word8(data, p);
      AddWord(data, p, 8, FAST_MOD, sum, addend);
      sum := (sum + addend) % FAST_MOD;
      p := p + 8;
    }
  }

  /** sum64_checksum up to its return statement: the 64-bit sum of all words. */
  method WordSum64(data: seq<Byte>) returns (sum: nat)
    ensures sum == Sum(data, 8)
  {
    var modulus := |data| % 8;
    var p;
    p, sum := Words64(data);
    var addend := ReadTail(data, p, modulus, 8);
    Pow256Values();
    AddTail(data, p, 8, FAST_MOD, 1, FAST_MOD, sum, addend, ((sum + addend) % FAST_MOD) % FAST_MOD);
    sum := (sum + addend) % FAST_MOD;
    Arith.ModSmall(sum, FAST_MOD);
  }

  /** What sum64_checksum returns: the final mask keeps only the low 32 bits of the word sum. */
  function Sum64AsWritten(data: seq<Byte>): (r: nat)
    ensures r < 0x1_0000_0000
  {
    Words(data, 0, |data|, 8) % 0x1_0000_0000
  }

  /** The result as written is the low half of the 64-bit sum. */
  lemma Sum64AsWrittenIsLowHalf(data: seq<Byte>)
    ensures Sum64AsWritten(data) == Sum(data, 8) % 0x1_0000_0000
  {
    Pow256Values();
    Arith.ModOfMod(Words(data, 0, |data|, 8), 0x1_0000_0000, 0x1_0000_0000, FAST_MOD);
  }

  /** sum64_checksum as written: the 64-bit sum is masked to its low 32 bits before it is returned. */
  method Sum64(data: seq<Byte>) returns (r: nat)
    ensures r == Sum64AsWritten(data)
  {
    var sum := WordSum64(data);
    Sum64AsWrittenIsLowHalf(data);
    r := sum % 0x1_0000_0000;
  }

  /** A word with a bit above the low 32 makes the two differ. */
  lemma Sum64AsWrittenDiffers()
    ensures Sum64AsWritten([0, 0, 0, 1, 0, 0, 0, 0]) == 0
    ensures Sum([0, 0, 0, 1, 0, 0, 0, 0], 8) == 0x1_0000_0000
  {
    var data: seq<Byte> := [0, 0, 0, 1, 0, 0, 0, 0];
    Word8(data, 0);
    WordsEmpty(data, 8, 8);
    Pow256Values();
  }

  /** sum64_checksum returning the whole 64-bit sum. */
  method Sum64Corrected(data: seq<Byte>) returns (r: nat)
    ensures r == Sum(data, 8)
  {
    r := WordSum64(data);
  }
}
