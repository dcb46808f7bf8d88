/**
  Luhn's mod-N checksum (bm_checksum_luhn.cpp). Counting from the end, the
  bytes are weighted 2, 1, 2, 1, ...; a weighted byte x counts as
  x / N + x % N (for x < N * N the sum of its two base-N digits); the check
  digit brings the total to a multiple of N. A base byte of 0 stands for N = 256.
 */
module Luhn {
  import Arith
  import opened Bytes

  /** The working base: a base byte of 0 stands for 256. */
  function IntBase(base: Byte): (b: nat)
    ensures 1 <= b <= 256
  {
    if base == 0 then 256 else base
  }

  // ---------------------------------------------------------------------
  // Remainder and quotient by the base, by repeated subtraction

  /** The remainder of x by b (RemQuot: it is x % b). */
  function Rem(x: nat, b: nat): (r: nat)
    requires b >= 1
    ensures r < b
    decreases x
  {
    if x < b then x else Rem(x - b, b)
  }

  /** The quotient of x by b (RemQuot: it is x / b). */
  function Quot(x: nat, b: nat): nat
    requires b >= 1
    decreases x
  {
    if x < b then 0 else Quot(x - b, b) + 1
  }

  /** Repeated subtraction gives Euclidean remainder and quotient. */
  lemma {:induction false} RemQuot(x: nat, b: nat)
    requires b >= 1
    ensures Rem(x, b) == x % b && Quot(x, b) == x / b
    decreases x
  {
    if x < b {
      Arith.DivModUnique(x, b, 0, x);
    } else {
      RemQuot(x - b, b);
      Arith.DivModStep(x, b);
    }
  }

  /** Reducing the first summand does not change the remainder of a sum. */
  lemma {:induction false} RemOfSum(a: nat, c: nat, b: nat)
    requires b >= 1
    ensures Rem(Rem(a, b) + c, b) == Rem(a + c, b)
    decreases a
  {
    if a >= b {
      RemOfSum(a - b, c, b);
      assert a + c - b == a - b + c;
    }
  }

  /** Congruent summands give congruent sums. */
  lemma RemAddCong(a: nat, a': nat, c: nat, c': nat, b: nat)
    requires b >= 1 && Rem(a, b) == Rem(a', b) && Rem(c, b) == Rem(c', b)
    ensures Rem(a + c, b) == Rem(a' + c', b)
  {
    RemOfSum(a, c, b);
    RemOfSum(a', c, b);
    RemOfSum(c, a', b);
    RemOfSum(c', a', b);
    assert a' + c == c + a';
    assert a' + c' == c' + a';
  }

  /** A running remainder s of a, plus a term congruent to c, is congruent to a + c. */
  lemma RemAccumulate(a: nat, s: nat, c: nat, c': nat, b: nat)
    requires b >= 1 && s == Rem(a, b) && Rem(c, b) == Rem(c', b)
    ensures Rem(s + c, b) == Rem(a + c', b)
  {
    RemOfSum(a, c, b);
    RemAddCong(a, a, c, c', b);
  }

  /** The same, with the term added in two parts and the sum reduced after each. */
  lemma RemAccumulatePair(a: nat, s: nat, x: nat, y: nat, c: nat, b: nat)
    requires b >= 1 && s == Rem(a, b) && Rem(x + y, b) == Rem(c, b)
    ensures Rem(Rem(s + x, b) + y, b) == Rem(a + c, b)
  {
    RemOfSum(s + x, y, b);
    assert s + x + y == s + (x + y);
    RemAccumulate(a, s, x + y, c, b);
  }

  /** A reduced partial sum p, continued with w2, gives the remainder of the whole sum s + w1 + w2. */
  lemma RemChain(s: nat, w1: nat, w2: nat, w: nat, p: nat, r: nat, b: nat)
    requires b >= 1 && Rem(p, b) == Rem(s + w1, b) && r == Rem(Rem(p, b) + w2, b) && w == w1 + w2
    ensures r == Rem(s + w, b)
  {
    RemOfSum(s + w1, w2, b);
    assert s + w1 + w2 == s + w;
  }

  // ---------------------------------------------------------------------
  // Parity, by steps of two

  /** n is even; stated by steps of two, so that reasoning about it needs no division (EvenIsMod). */
  predicate Even(n: nat)
    decreases n
  {
    if n < 2 then n == 0 else Even(n - 2)
  }

  lemma {:induction false} EvenIsMod(n: nat)
    ensures Even(n) <==> n % 2 == 0
    decreases n
  {
    if n >= 2 {
      EvenIsMod(n - 2);
      Arith.DivModStep(n, 2);
    }
  }

  /** The successor of an even number is odd, and the successor of an odd number even. */
  lemma {:induction false} EvenSucc(n: nat)
    ensures Even(n + 1) <==> !Even(n)
    decreases n
  {
    if n >= 2 {
      EvenSucc(n - 2);
      assert n + 1 - 2 == n - 2 + 1;
    }
  }

  /** A sum is even exactly when its summands have the same parity. */
  lemma {:induction false} EvenSum(a: nat, c: nat)
    ensures Even(a + c) <==> (Even(a) <==> Even(c))
    decreases a
  {
    if a == 1 {
      EvenSucc(c);
      assert 1 + c == c + 1;
    } else if a >= 2 {
      EvenSum(a - 2, c);
      assert a + c - 2 == a - 2 + c;
    }
  }

  /** Clearing the lowest bit leaves an even number. */
  lemma EvenDropLowBit(n: nat)
    ensures Even(n - n % 2)
  {
    EvenIsMod(n - n % 2);
  }

  /** A block of Min(limit, j - m) bytes cut from an even stretch with an even limit leaves an even stretch. */
  lemma BlockSplit(m: nat, j: nat, limit: nat)
    requires m <= j && Even(j - m) && Even(limit)
    ensures Even(Min(limit, j - m)) && Even(j - Min(limit, j - m) - m)
  {
    var n := Min(limit, j - m);
    EvenSum(n, j - n - m);
    assert n + (j - n - m) == j - m;
  }

  // ---------------------------------------------------------------------
  // The reference definition

  /** The weight of the byte at distance dist from the end, the last byte being at distance 1. */
  function Factor(dist: nat): nat
  {
    if Even(dist) then 1 else 2
  }

  /** data[i] times its weight. */
  function Addend(data: seq<Byte>, i: nat): nat
    requires i < |data|
  {
    if Factor(|data| - i) == 2 then data[i] as int * 2 else data[i]
  }

  /**
    Quotient plus remainder of x by b (DigitSumIs): each subtraction of b
    moves one unit into the quotient.
   */
  function DigitSum(x: nat, b: nat): nat
    requires b >= 1
    decreases x
  {
    if x < b then x else DigitSum(x - b, b) + 1
  }

  lemma {:induction false} DigitSumIs(x: nat, b: nat)
    requires b >= 1
    ensures DigitSum(x, b) == x / b + x % b
    decreases x
  {
    if x >= b {
      DigitSumIs(x - b, b);
      Arith.DivModStep(x, b);
    } else {
      Arith.DivModUnique(x, b, 0, x);
    }
  }

  /** The term of data[i]. */
  function Term(data: seq<Byte>, i: nat, b: nat): nat
    requires i < |data| && b >= 1
  {
    DigitSum(Addend(data, i), b)
  }

  /** The sum of the terms of data[p..q), unreduced. */
  function Weighted(data: seq<Byte>, p: nat, q: nat, b: nat): nat
    requires p <= q <= |data| && b >= 1
    decreases data, q
  {
    if q == p then 0 else Weighted(data, p, q - 1, b) + Term(data, q - 1, b)
  }

  /** Reference definition: the check digit, the complement of the weighted sum modulo the base. */
  function CheckDigit(data: seq<Byte>, base: Byte): (r: nat)
    ensures r < IntBase(base)
  {
    var b := IntBase(base);
    Rem(b - Rem(Weighted(data, 0, |data|, b), b), b)
  }

  /** Every byte is a digit of base b. */
  predicate AllBelow(data: seq<Byte>, b: nat)
  {
    forall i :: 0 <= i < |data| ==> data[i] < b
  }

  /**
    The check digit is the one digit that completes the weighted sum to a
    multiple of the base: a digit c does so exactly when it is the check digit.
   */
  lemma CheckDigitCompletes(data: seq<Byte>, base: Byte, c: nat)
    requires c < IntBase(base)
    ensures (Weighted(data, 0, |data|, IntBase(base)) + c) % IntBase(base) == 0 <==> c == CheckDigit(data, base)
  {
    var b := IntBase(base);
    var w := Weighted(data, 0, |data|, b);
    var m := Rem(w, b);
    RemQuot(w + c, b);
    RemOfSum(w, c, b);
    if m == 0 {
      assert Rem(b, b) == Rem(0, b) == 0;
    } else {
      assert Rem(b - m, b) == b - m;
      if m + c >= b {
        assert Rem(m + c, b) == Rem(m + c - b, b);
      }
    }
  }

  /** Running over [p, q) and then [q, r) is running over [p, r). */
  lemma {:induction false} WeightedSplit(data: seq<Byte>, p: nat, q: nat, r: nat, b: nat)
    requires p <= q <= r <= |data| && b >= 1
    ensures Weighted(data, p, r, b) == Weighted(data, p, q, b) + Weighted(data, q, r, b)
    decreases r
  {
    if r > q {
      WeightedSplit(data, p, q, r - 1, b);
    }
  }

  /** A byte in front shifts positions but not distances from the end, so no term changes. */
  lemma {:induction false} WeightedShift(x: Byte, data: seq<Byte>, p: nat, q: nat, b: nat)
    requires p <= q <= |data| && b >= 1
    ensures Weighted([x] + data, p + 1, q + 1, b) == Weighted(data, p, q, b)
    decreases q
  {
    if q > p {
      WeightedShift(x, data, p, q - 1, b);
      assert ([x] + data)[q] == data[q - 1];
    }
  }

  /** Weights count from the end: a leading zero byte leaves the check digit unchanged. */
  lemma LeadingZero(data: seq<Byte>, base: Byte)
    ensures CheckDigit([0] + data, base) == CheckDigit(data, base)
  {
    var b := IntBase(base);
    WeightedSplit([0] + data, 0, 1, |data| + 1, b);
    WeightedShift(0, data, 0, |data|, b);
    assert Term([0] + data, 0, b) == 0;
    assert Weighted([0] + data, 0, |[0] + data|, b) == Weighted(data, 0, |data|, b);
  }

  // ---------------------------------------------------------------------
  // luhn_checksum_textbook: forward, reducing after every byte

  /** One textbook round: adding the term and reducing keeps the reduced weighted sum of the prefix. */
  lemma TextbookStep(data: seq<Byte>, i: nat, b: nat, factor: nat, addend: nat, sum: nat)
    requires i < |data| && b >= 1 && factor == Factor(|data| - i)
    requires addend == if factor == 2 then data[i] as int * 2 else data[i]
    requires sum == Rem(Weighted(data, 0, i, b), b)
    ensures (sum + (addend / b + addend % b)) % b == Rem(Weighted(data, 0, i + 1, b), b)
  {
    assert addend == Addend(data, i);
    DigitSumIs(addend, b);
    RemQuot(sum + (addend / b + addend % b), b);
    RemOfSum(Weighted(data, 0, i, b), Term(data, i, b), b);
  }

  /** luhn_checksum_textbook; the sum stays below 256 + 510, so the 64-bit accumulator never wraps. */
  method LuhnChecksumTextbook(data: seq<Byte>, base: Byte) returns (r: Byte)
    ensures r == CheckDigit(data, base)
  {
    var intbase: nat := if base == 0 then 256 else base;
    var factor: nat := if |data| % 2 == 0 then 1 else 2;
    EvenIsMod(|data|);
    var sum := 0;
    var i := 0;
    while i < |data|
      invariant i <= |data| && factor == Factor(|data| - i)
      invariant sum == Rem(Weighted(data, 0, i, intbase), intbase)
    {
      // factor * data[i], the factor being 1 or 2
      var addend: nat := if factor == 2 then data[i] as int * 2 else data[i];
      TextbookStep(data, i, intbase, factor, addend, sum);
      sum := sum + (addend / intbase + addend % intbase);
      sum := sum % intbase;
      factor := if factor == 2 then 1 else 2;
      EvenSucc(|data| - (i + 1));
      assert |data| - (i + 1) + 1 == |data| - i;
      i := i + 1;
    }
    RemQuot(intbase - sum, intbase);
    r := (intbase - sum) % intbase;
  }

  // ---------------------------------------------------------------------
  // luhn_checksum: backward in pairs, reducing after every block

  /**
    The block limit of luhn_checksum: (2^64-1) / (2 * (b - 1)), less one,
    with its lowest bit cleared.
   */
  function BlockLimit(b: nat): nat
    requires 2 <= b <= 256
  {
    (FAST_MAX / (2 * (b - 1)) - 1) - (FAST_MAX / (2 * (b - 1)) - 1) % 2
  }

  /**
    The block limit is even and at least 2, and a block of that many terms
    below b, added to a sum below b, stays within 64 bits.
   */
  lemma BlockLimitFacts(b: nat)
    requires 2 <= b <= 256
    ensures BlockLimit(b) >= 2 && Even(BlockLimit(b))
    ensures (b - 1) * (BlockLimit(b) + 1) <= FAST_MAX
  {
    var d := 2 * (b - 1);
    var q := FAST_MAX / d;
    Arith.DivModUnique(FAST_MAX, d, q, FAST_MAX % d);
    if q <= 3 {
      Arith.MulMono(d, q, 510, 3);
      assert false;
    }
    Arith.MulMono(b - 1, BlockLimit(b) + 1, b - 1, q);
    assert (b - 1) * q * 2 == d * q;
    EvenDropLowBit(q - 1);
  }

  /** c added n times, that is c * n (TimesIsProduct), unfolded one addition at a time. */
  function Times(c: nat, n: nat): nat
    decreases n
  {
    if n == 0 then 0 else Times(c, n - 1) + c
  }

  lemma {:induction false} TimesIsProduct(c: nat, n: nat)
    ensures Times(c, n) == c * n
    decreases n
  {
    if n > 0 {
      TimesIsProduct(c, n - 1);
      Arith.MulStep(c, n);
    }
  }

  lemma {:induction false} TimesMono(c: nat, n: nat, m: nat)
    requires n <= m
    ensures Times(c, n) <= Times(c, m)
    decreases m
  {
    if n < m {
      TimesMono(c, n, m - 1);
    }
  }

  /**
    The term luhn_checksum adds for a byte of weight 2: the doubled byte,
    less b - 1 once it reaches b. The corrected loop adds the textbook term
    reduced below b instead.
   */
  function Doubled(d: nat, b: nat, corrected: bool): nat
    requires b >= 1
  {
    if corrected then Rem(DigitSum(d * 2, b), b)
    else if d * 2 < b then d * 2 else d * 2 - (b - 1)
  }

  /** The term luhn_checksum adds for a byte of weight 1: the byte itself, or in the corrected loop its textbook term reduced below b. */
  function Single(d: nat, b: nat, corrected: bool): nat
    requires b >= 1
  {
    if corrected then Rem(DigitSum(d, b), b) else d
  }

  /** The two terms of the pair data[j-2], data[j-1], the second of weight 2. */
  function PairTerm(data: seq<Byte>, j: nat, b: nat, corrected: bool): nat
    requires 2 <= j <= |data| && b >= 1
  {
    Doubled(data[j - 1], b, corrected) + Single(data[j - 2], b, corrected)
  }

  /** The 64-bit sum after the pair data[j-2], data[j-1] is added to s, the weight-2 byte first. */
  function AddPair(data: seq<Byte>, j: nat, b: nat, s: nat, corrected: bool): nat
    requires 2 <= j <= |data| && b >= 1
  {
    Rem(Rem(s + Doubled(data[j - 1], b, corrected), FAST_MOD) + Single(data[j - 2], b, corrected), FAST_MOD)
  }

  /** The 64-bit sum after the pairs of data[k..top) are added to s from the end backward. */
  function Pairs(data: seq<Byte>, k: nat, top: nat, b: nat, s: nat, corrected: bool): nat
    requires k <= top <= |data| && Even(top - k) && b >= 1
    decreases data, top - k
  {
    if k == top then s else AddPair(data, k + 2, b, Pairs(data, k + 2, top, b, s, corrected), corrected)
  }

  /** The same terms added without a width limit. */
  function PairSum(data: seq<Byte>, k: nat, top: nat, b: nat, corrected: bool): nat
    requires k <= top <= |data| && Even(top - k) && b >= 1
    decreases data, top - k
  {
    if k == top then 0 else PairTerm(data, k + 2, b, corrected) + PairSum(data, k + 2, top, b, corrected)
  }

  /**
    The sum after data[m..j) is taken in blocks of at most limit bytes from
    the end backward, each block in 64 bits and reduced modulo b after it.
   */
  function Blocks(data: seq<Byte>, m: nat, j: nat, b: nat, s: nat, limit: nat, corrected: bool): nat
    requires m <= j <= |data| && Even(j - m) && b >= 1 && limit >= 2 && Even(limit)
    decreases data, j - m
  {
    if j == m then s
    else
      BlockSplit(m, j, limit);
      Blocks(data, m, j - Min(limit, j - m), b,
             Rem(Pairs(data, j - Min(limit, j - m), j, b, s, corrected), b), limit, corrected)
  }

  /** The sum after the odd first byte, if there is one: added with weight 2, then one subtraction of b. */
  function Tail(data: seq<Byte>, b: nat, s: nat, corrected: bool): nat
    requires b >= 1
  {
    if |data| % 2 == 1 then
      var t := Rem(s + Doubled(data[0], b, corrected), FAST_MOD);
      if t < b then t else t - b
    else s
  }

  /** The end of luhn_checksum: the tail, then the complement taken in 64 bits and reduced. */
  function Finish(data: seq<Byte>, b: nat, s: nat, corrected: bool): (r: nat)
    requires b >= 1
    ensures r < b
  {
    Rem((b - Tail(data, b, s, corrected)) % FAST_MOD, b)
  }

  /** What luhn_checksum returns; with `corrected`, what the corrected loop returns. */
  function Blocked(data: seq<Byte>, base: Byte, corrected: bool): (r: nat)
    requires base != 1
    ensures r < IntBase(base)
  {
    BlockLimitFacts(IntBase(base));
    EvenDropLowBit(|data|);
    Finish(data, IntBase(base), Blocks(data, |data| % 2, |data|, IntBase(base), 0, BlockLimit(IntBase(base)), corrected), corrected)
  }

  /** The weight-2 term: below b, and congruent modulo b to the textbook term, when the byte is a digit or the loop is corrected. */
  lemma DoubledTerm(d: nat, b: nat, corrected: bool)
    requires b >= 1 && (corrected || d < b)
    ensures Doubled(d, b, corrected) < b
    ensures Rem(Doubled(d, b, corrected), b) == Rem(DigitSum(d * 2, b), b)
  {
    if !corrected && d * 2 >= b {
      assert DigitSum(d * 2, b) == DigitSum(d * 2 - b, b) + 1;
    }
  }

  /** The weight-1 term, likewise. */
  lemma SingleTerm(d: nat, b: nat, corrected: bool)
    requires b >= 1 && (corrected || d < b)
    ensures Single(d, b, corrected) < b
    ensures Rem(Single(d, b, corrected), b) == Rem(DigitSum(d, b), b)
  {
    if !corrected {
      assert DigitSum(d, b) == d;
    }
  }

  /** A pair whose top is an even distance from the end: its loop terms against the textbook terms. */
  lemma PairTerms(data: seq<Byte>, j: nat, b: nat, corrected: bool)
    requires 2 <= j <= |data| && Even(|data| - j) && b >= 1
    requires corrected || AllBelow(data, b)
    ensures Doubled(data[j - 1], b, corrected) < b && Single(data[j - 2], b, corrected) < b
    ensures Rem(PairTerm(data, j, b, corrected), b) == Rem(Weighted(data, j - 2, j, b), b)
  {
    DoubledTerm(data[j - 1], b, corrected);
    SingleTerm(data[j - 2], b, corrected);
    assert Term(data, j - 1, b) == DigitSum(data[j - 1] as int * 2, b) by {
      EvenSucc(|data| - j);
      assert |data| - j + 1 == |data| - (j - 1);
    }
    assert Term(data, j - 2, b) == DigitSum(data[j - 2], b) by {
      assert |data| - (j - 2) - 2 == |data| - j;
    }
    RemAddCong(Doubled(data[j - 1], b, corrected), Term(data, j - 1, b),
               Single(data[j - 2], b, corrected), Term(data, j - 2, b), b);
    assert Weighted(data, j - 2, j - 1, b) == Term(data, j - 2, b) by {
      assert j - 1 - 1 == j - 2;
    }
    assert Term(data, j - 1, b) + Term(data, j - 2, b) == Weighted(data, j - 2, j, b);
  }

  /** Two additions that fit leave the 64-bit sum unwrapped. */
  lemma PairAddition(p: nat, x: nat, y: nat)
    requires p + x + y <= FAST_MAX
    ensures Rem(Rem(p + x, FAST_MOD) + y, FAST_MOD) == p + (x + y)
  {
  }

  /** Two pairs' worth of room is the room of the rest plus 2 * c. */
  lemma TimesTwoMore(c: nat, k: nat, top: nat)
    requires k + 2 <= top
    ensures Times(c, top - k) == Times(c, top - (k + 2)) + 2 * c
  {
    assert Times(c, top - k) == Times(c, top - k - 1) + c;
    assert top - k - 1 - 1 == top - (k + 2);
  }

  /** The pair below one that starts an even distance from the end does too. */
  lemma PairParity(k: nat, top: nat, len: nat)
    requires k < top <= len && Even(top - k) && Even(len - top)
    ensures k + 2 <= top && Even(top - (k + 2)) && Even(len - (k + 2))
  {
    assert top - k - 2 == top - (k + 2);
    EvenSum(len - top, top - (k + 2));
    assert len - top + (top - (k + 2)) == len - (k + 2);
  }

  /** The unbounded sum of the loop terms is at most b - 1 per byte. */
  lemma {:induction false} PairSumBound(data: seq<Byte>, k: nat, top: nat, b: nat, corrected: bool)
    requires k <= top <= |data| && Even(top - k) && Even(|data| - top) && b >= 1
    requires corrected || AllBelow(data, b)
    ensures PairSum(data, k, top, b, corrected) <= Times(b - 1, top - k)
    decreases top - k
  {
    if k < top {
      PairParity(k, top, |data|);
      TimesTwoMore(b - 1, k, top);
      PairSumBound(data, k + 2, top, b, corrected);
      PairTerms(data, k + 2, b, corrected);
      PairSumStep(data, k + 2, top, b, corrected);
    }
  }

  /** One pair of the congruence, given the pairs above it. */
  lemma PairCongruentStep(data: seq<Byte>, j: nat, top: nat, b: nat, corrected: bool)
    requires 2 <= j <= top <= |data| && Even(top - j) && Even(|data| - j) && b >= 1
    requires corrected || AllBelow(data, b)
    requires Rem(PairSum(data, j, top, b, corrected), b) == Rem(Weighted(data, j, top, b), b)
    ensures Rem(PairSum(data, j - 2, top, b, corrected), b) == Rem(Weighted(data, j - 2, top, b), b)
  {
    PairTerms(data, j, b, corrected);
    WeightedSplit(data, j - 2, j, top, b);
    PairSumStep(data, j, top, b, corrected);
    RemAddCong(PairTerm(data, j, b, corrected), Weighted(data, j - 2, j, b),
               PairSum(data, j, top, b, corrected), Weighted(data, j, top, b), b);
  }

  /** The unbounded sum of the loop terms is congruent to the weighted sum modulo b. */
  lemma {:induction false} PairSumCongruent(data: seq<Byte>, k: nat, top: nat, b: nat, corrected: bool)
    requires k <= top <= |data| && Even(top - k) && Even(|data| - top) && b >= 1
    requires corrected || AllBelow(data, b)
    ensures Rem(PairSum(data, k, top, b, corrected), b) == Rem(Weighted(data, k, top, b), b)
    decreases top - k
  {
    if k < top {
      PairParity(k, top, |data|);
      PairSumCongruent(data, k + 2, top, b, corrected);
      PairCongruentStep(data, k + 2, top, b, corrected);
      assert k + 2 - 2 == k;
    }
  }

  /** A pair added to a sum with room for it does not wrap: it adds its two terms. */
  lemma AddPairUnwrapped(data: seq<Byte>, j: nat, b: nat, p: nat, corrected: bool)
    requires 2 <= j <= |data| && b >= 1
    requires corrected || (data[j - 1] < b && data[j - 2] < b)
    requires p + 2 * (b - 1) <= FAST_MAX
    ensures AddPair(data, j, b, p, corrected) == p + PairTerm(data, j, b, corrected)
  {
    DoubledTerm(data[j - 1], b, corrected);
    SingleTerm(data[j - 2], b, corrected);
    PairAddition(p, Doubled(data[j - 1], b, corrected), Single(data[j - 2], b, corrected));
  }

  /**
    Within a block, started from s with room for b - 1 per byte, the 64-bit
    sum never wraps: it is s plus the unbounded sum of the loop terms.
   */
  lemma {:induction false} PairsUnwrapped(data: seq<Byte>, k: nat, top: nat, b: nat, s: nat, corrected: bool)
    requires k <= top <= |data| && Even(top - k) && Even(|data| - top) && b >= 1
    requires corrected || AllBelow(data, b)
    requires s + Times(b - 1, top - k) <= FAST_MAX
    ensures Pairs(data, k, top, b, s, corrected) == s + PairSum(data, k, top, b, corrected)
    decreases top - k
  {
    if k < top {
      PairParity(k, top, |data|);
      var j := k + 2;
      TimesTwoMore(b - 1, k, top);
      PairsUnwrapped(data, j, top, b, s, corrected);
      PairSumBound(data, j, top, b, corrected);
      AddPairUnwrapped(data, j, b, Pairs(data, j, top, b, s, corrected), corrected);
      PairsStep(data, j, top, b, s, corrected);
      PairSumStep(data, j, top, b, corrected);
    }
  }

  /** One block, started from a reduced sum: its 64-bit sum is congruent to the sum plus the block's weighted sum. */
  lemma BlockFact(data: seq<Byte>, i: nat, j: nat, b: nat, s: nat, limit: nat, corrected: bool)
    requires i <= j <= |data| && Even(j - i) && Even(|data| - j) && b >= 1
    requires j - i <= limit && Times(b - 1, limit + 1) <= FAST_MAX
    requires s < b && (corrected || AllBelow(data, b))
    ensures Rem(Pairs(data, i, j, b, s, corrected), b) == Rem(s + Weighted(data, i, j, b), b)
  {
    TimesMono(b - 1, j - i, limit);
    assert Times(b - 1, limit + 1) == Times(b - 1, limit) + (b - 1) by {
      assert limit + 1 - 1 == limit;
    }
    PairsUnwrapped(data, i, j, b, s, corrected);
    PairSumCongruent(data, i, j, b, corrected);
    RemAddCong(s, s, PairSum(data, i, j, b, corrected), Weighted(data, i, j, b), b);
  }

  /** A block of the loop starts and ends an even distance from the end. */
  lemma BlockParity(m: nat, i: int, j: nat, len: nat, limit: nat, n: nat)
    requires m <= j <= len && Even(j - m) && Even(len - j) && Even(limit)
    requires n == Min(limit, j - m) && i == j - n
    ensures m <= i && Even(i - m) && Even(j - i) && Even(len - i)
  {
    BlockSplit(m, j, limit);
    EvenSum(len - j, n);
    assert len - j + n == len - i;
  }

  /** One block of the loop, given that the blocks before it give their weighted sum modulo b. */
  lemma BlockReduces(data: seq<Byte>, m: nat, i: nat, j: nat, b: nat, s: nat, limit: nat, corrected: bool)
    requires m <= i < j <= |data| && Even(j - m) && Even(i - m) && Even(j - i) && Even(|data| - j) && b >= 1
    requires limit >= 2 && Even(limit) && Times(b - 1, limit + 1) <= FAST_MAX
    requires i == j - Min(limit, j - m)
    requires s < b && (corrected || AllBelow(data, b))
    requires Blocks(data, m, i, b, Rem(Pairs(data, i, j, b, s, corrected), b), limit, corrected)
          == Rem(Rem(Pairs(data, i, j, b, s, corrected), b) + Weighted(data, m, i, b), b)
    ensures Blocks(data, m, j, b, s, limit, corrected) == Rem(s + Weighted(data, m, j, b), b)
  {
    var p := Pairs(data, i, j, b, s, corrected);
    BlocksStep(data, m, i, j, b, s, limit, corrected);
    BlockFact(data, i, j, b, s, limit, corrected);
    WeightedSplit(data, m, i, j, b);
    RemChain(s, Weighted(data, i, j, b), Weighted(data, m, i, b), Weighted(data, m, j, b), p,
             Blocks(data, m, i, b, Rem(p, b), limit, corrected), b);
  }

  /** With the sum below b and blocks within the limit, the blocks give the weighted sum modulo b. */
  lemma {:induction false} BlocksReduce(data: seq<Byte>, m: nat, j: nat, b: nat, s: nat, limit: nat, corrected: bool)
    requires m <= j <= |data| && Even(j - m) && Even(|data| - j) && b >= 1
    requires limit >= 2 && Even(limit) && Times(b - 1, limit + 1) <= FAST_MAX
    requires s < b && (corrected || AllBelow(data, b))
    ensures Blocks(data, m, j, b, s, limit, corrected) == Rem(s + Weighted(data, m, j, b), b)
    decreases j - m
  {
    if j > m {
      var i := j - Min(limit, j - m);
      BlockParity(m, i, j, |data|, limit, Min(limit, j - m));
      BlocksReduce(data, m, i, b, Rem(Pairs(data, i, j, b, s, corrected), b), limit, corrected);
      BlockReduces(data, m, i, j, b, s, limit, corrected);
    }
  }

  /** With s below b, the tail is the sum with the first byte's term reduced modulo b. */
  lemma TailIsRem(data: seq<Byte>, b: nat, s: nat, corrected: bool)
    requires 1 <= b <= 256 && |data| % 2 == 1 && s < b && (corrected || data[0] < b)
    ensures Tail(data, b, s, corrected) == Rem(s + Doubled(data[0], b, corrected), b)
  {
    var x := Doubled(data[0], b, corrected);
    DoubledTerm(data[0], b, corrected);
    if s + x >= b {
      assert Rem(s + x, b) == Rem(s + x - b, b);
    }
  }

  /** The tail completes the weighted sum: it adds the odd first byte, if any, and keeps the sum reduced. */
  lemma TailReduces(data: seq<Byte>, b: nat, s: nat, corrected: bool)
    requires 1 <= b <= 256 && (corrected || AllBelow(data, b))
    requires s == Rem(Weighted(data, |data| % 2, |data|, b), b)
    ensures Tail(data, b, s, corrected) == Rem(Weighted(data, 0, |data|, b), b)
  {
    if |data| % 2 == 1 {
      var x := Doubled(data[0], b, corrected);
      var rest := Weighted(data, 1, |data|, b);
      var t := Term(data, 0, b);
      TailIsRem(data, b, s, corrected);
      assert Rem(x, b) == Rem(t, b) by {
        DoubledTerm(data[0], b, corrected);
        EvenIsMod(|data|);
        assert t == DigitSum(data[0] as int * 2, b);
      }
      RemAccumulate(rest, s, x, t, b);
      assert rest + t == Weighted(data, 0, |data|, b) by {
        WeightedSplit(data, 0, 1, |data|, b);
      }
    }
  }

  /** With the blocks' sum reduced, the tail and the complement give the check digit. */
  lemma FinishIsCheckDigit(data: seq<Byte>, base: Byte, s: nat, corrected: bool)
    requires base != 1 && (corrected || AllBelow(data, IntBase(base)))
    requires s == Rem(Weighted(data, |data| % 2, |data|, IntBase(base)), IntBase(base))
    ensures Finish(data, IntBase(base), s, corrected) == CheckDigit(data, base)
  {
    var b := IntBase(base);
    var m := Rem(Weighted(data, 0, |data|, b), b);
    TailReduces(data, b, s, corrected);
    FinishOf(data, b, s, corrected, m);
  }

  /** With the tail reduced to m, the complement b - m does not wrap in 64 bits. */
  lemma FinishOf(data: seq<Byte>, b: nat, s: nat, corrected: bool, m: nat)
    requires 1 <= b <= 256 && m < b && Tail(data, b, s, corrected) == m
    ensures Finish(data, b, s, corrected) == Rem(b - m, b)
  {
    Arith.ModSmall(b - m, FAST_MOD);
  }

  /** The blocked loop gives the check digit when it is corrected, or when every byte is a digit of the base. */
  lemma BlockedIsCheckDigit(data: seq<Byte>, base: Byte, corrected: bool)
    requires base != 1 && (corrected || AllBelow(data, IntBase(base)))
    ensures Blocked(data, base, corrected) == CheckDigit(data, base)
  {
    var b := IntBase(base);
    BlockLimitFacts(b);
    TimesIsProduct(b - 1, BlockLimit(b) + 1);
    EvenDropLowBit(|data|);
    BlocksReduce(data, |data| % 2, |data|, b, 0, BlockLimit(b), corrected);
    assert 0 + Weighted(data, |data| % 2, |data|, b) == Weighted(data, |data| % 2, |data|, b);
    FinishIsCheckDigit(data, base, Blocks(data, |data| % 2, |data|, b, 0, BlockLimit(b), corrected), corrected);
  }

  /** `x % m`: the reduction by the base, or the wrap-around of a 64-bit addition when m is FAST_MOD. */
  method Reduce(x: nat, m: nat) returns (r: nat)
    requires m >= 1
    ensures r == Rem(x, m)
  {
    RemQuot(x, m);
    r := x % m;
  }

  /** The corrected loop's term for a weighted byte x: the textbook term of x reduced below the base. */
  method ReducedTerm(x: nat, intbase: nat) returns (t: nat)
    requires intbase >= 1
    ensures t == Rem(DigitSum(x, intbase), intbase)
  {
    DigitSumIs(x, intbase);
    RemQuot(x / intbase + x % intbase, intbase);
    t := (x / intbase + x % intbase) % intbase;
  }

  /** The weight-2 term as the loop computes it: subtracted once, or in the corrected loop reduced. */
  lemma DoubledIs(d: Byte, b: nat, corrected: bool, addend: nat, term: nat)
    requires b >= 1 && addend == d as int * 2
    requires term == if corrected then Rem(DigitSum(addend, b), b)
                     else if addend < b then addend else addend - (b - 1)
    ensures term == Doubled(d, b, corrected)
  {
  }

  /** The weight-1 term as the loop computes it. */
  lemma SingleIs(d: Byte, b: nat, corrected: bool, term: nat)
    requires b >= 1
    requires term == if corrected then Rem(DigitSum(d, b), b) else d as int
    ensures term == Single(d, b, corrected)
  {
  }

  /** One step of the inner loop, from the pair ending at j. */
  lemma PairsStep(data: seq<Byte>, j: nat, top: nat, b: nat, s: nat, corrected: bool)
    requires 2 <= j <= top <= |data| && Even(top - j) && b >= 1
    ensures Pairs(data, j - 2, top, b, s, corrected) == AddPair(data, j, b, Pairs(data, j, top, b, s, corrected), corrected)
  {
    assert j - 2 + 2 == j;
  }

  /** One pair of the unbounded sum, from the pair ending at j. */
  lemma PairSumStep(data: seq<Byte>, j: nat, top: nat, b: nat, corrected: bool)
    requires 2 <= j <= top <= |data| && Even(top - j) && b >= 1
    ensures PairSum(data, j - 2, top, b, corrected) == PairTerm(data, j, b, corrected) + PairSum(data, j, top, b, corrected)
  {
    assert j - 2 + 2 == j;
  }

  /** One step of the block loop, for a block of n bytes ending at j. */
  lemma BlocksStep(data: seq<Byte>, m: nat, i: nat, j: nat, b: nat, s: nat, limit: nat, corrected: bool)
    requires m < j <= |data| && Even(j - m) && b >= 1 && limit >= 2 && Even(limit)
    requires i == j - Min(limit, j - m) && Even(i - m) && Even(j - i)
    ensures Blocks(data, m, j, b, s, limit, corrected)
         == Blocks(data, m, i, b, Rem(Pairs(data, i, j, b, s, corrected), b), limit, corrected)
  {
  }

  /** The inner loop of luhn_checksum over the pairs of data[k..top), walking backward from the end. */
  method PairLoop(data: seq<Byte>, k: nat, top: nat, intbase: nat, s: nat, corrected: bool) returns (sum: nat)
    requires k <= top <= |data| && Even(top - k) && intbase >= 1
    ensures sum == Pairs(data, k, top, intbase, s, corrected)
  {
    sum := s;
    var end := top;
    var blocklength := top - k;
    while blocklength > 0
      invariant k <= end <= top && blocklength == end - k && Even(blocklength) && Even(top - end)
      invariant sum == Pairs(data, end, top, intbase, s, corrected)
    {
      var addend: nat := data[end - 1] as int * 2;
      var term: nat;
      if corrected {
        term := ReducedTerm(addend, intbase);
      } else {
        term := if addend < intbase then addend else addend - (intbase - 1);
      }
      DoubledIs(data[end - 1], intbase, corrected, addend, term);
      sum := Reduce(sum + term, FAST_MOD);
      var term1: nat := data[end - 2];
      if corrected {
        term1 := ReducedTerm(term1, intbase);
      }
      SingleIs(data[end - 2], intbase, corrected, term1);
      sum := Reduce(sum + term1, FAST_MOD);
      PairsStep(data, end, top, intbase, s, corrected);
      end := end - 2;
      blocklength := blocklength - 2;
    }
  }

  /** The block loop of luhn_checksum: blocks of at most limit bytes from the end, each reduced after it. */
  method BlockLoop(data: seq<Byte>, modulus: nat, intbase: nat, limit: nat, corrected: bool) returns (sum: nat)
    requires modulus <= |data| && Even(|data| - modulus) && intbase >= 1 && limit >= 2 && Even(limit)
    ensures sum == Blocks(data, modulus, |data|, intbase, 0, limit, corrected)
  {
    sum := 0;
    var end := |data|;
    var length: nat := |data| - modulus;
    while length > 0
      invariant end == modulus + length && end <= |data| && Even(end - modulus) && Even(|data| - end)
      invariant Blocks(data, modulus, end, intbase, sum, limit, corrected)
             == Blocks(data, modulus, |data|, intbase, 0, limit, corrected)
    {
      var blocklength := if length > limit then limit else length;
      BlockParity(modulus, end - blocklength, end, |data|, limit, blocklength);
      BlocksStep(data, modulus, end - blocklength, end, intbase, sum, limit, corrected);
      length := length - blocklength;
      sum := PairLoop(data, end - blocklength, end, intbase, sum, corrected);
      end := end - blocklength;
      sum := Reduce(sum, intbase);
    }
  }

  /** The odd first byte of luhn_checksum, added with weight 2 and brought below the base by one subtraction. */
  method AddFirstByte(data: seq<Byte>, intbase: nat, s: nat, corrected: bool) returns (sum: nat)
    requires intbase >= 1
    ensures sum == Tail(data, intbase, s, corrected)
  {
    sum := s;
    if |data| % 2 == 1 {
      var addend: nat := data[0] as int * 2;
      var term: nat;
      if corrected {
        term := ReducedTerm(addend, intbase);
      } else {
        term := if addend < intbase then addend else addend - (intbase - 1);
      }
      DoubledIs(data[0], intbase, corrected, addend, term);
      sum := Reduce(sum + term, FAST_MOD);
      sum := if sum < intbase then sum else sum - intbase;
    }
  }

  /** luhn_checksum, as written or with every term reduced: the block loop, the tail and the complement. */
  method BlockedLoop(data: seq<Byte>, base: Byte, corrected: bool) returns (r: Byte)
    requires base != 1
    ensures r == Blocked(data, base, corrected)
  {
    var intbase := IntBase(base);
    var modulus := |data| % 2;
    BlockLimitFacts(intbase);
    var blocksizeLimit := BlockLimit(intbase);
    EvenDropLowBit(|data|);
    var sum := BlockLoop(data, modulus, intbase, blocksizeLimit, corrected);
    sum := AddFirstByte(data, intbase, sum, corrected);
    r := Reduce((intbase - sum) % FAST_MOD, intbase);
  }

  /** luhn_checksum as written: the check digit whenever every byte is a digit of the base. */
  method LuhnChecksum(data: seq<Byte>, base: Byte) returns (r: Byte)
    requires base != 1
    ensures r == Blocked(data, base, false)
    ensures AllBelow(data, IntBase(base)) ==> r == CheckDigit(data, base)
  {
    r := BlockedLoop(data, base, false);
    if AllBelow(data, IntBase(base)) {
      BlockedIsCheckDigit(data, base, false);
    }
  }

  /** luhn_checksum with every term reduced below the base: the check digit for every input. */
  method LuhnChecksumCorrected(data: seq<Byte>, base: Byte) returns (r: Byte)
    requires base != 1
    ensures r == CheckDigit(data, base)
  {
    r := BlockedLoop(data, base, true);
    BlockedIsCheckDigit(data, base, true);
  }

  /**
    A byte at or above the base breaks luhn_checksum: for [25, 0] in base 10
    the weight-1 byte 25 counts as 25 instead of 2 + 5, and the result is 5
    where the check digit is 3.
   */
  lemma LuhnChecksumDiffers(data: seq<Byte>)
    requires data == [25, 0]
    ensures Blocked(data, 10, false) == 5 && CheckDigit(data, 10) == 3
  {
    BlockLimitFacts(10);
    var limit := BlockLimit(10);
    assert Pairs(data, 0, 2, 10, 0, false) == 25 by {
      assert Pairs(data, 2, 2, 10, 0, false) == 0;
      assert Doubled(0, 10, false) == 0;
    }
    assert Rem(25, 10) == 5;
    assert Blocks(data, 0, 2, 10, 0, limit, false) == 5 by {
      assert Min(limit, 2) == 2;
      assert Blocks(data, 0, 0, 10, 5, limit, false) == 5;
    }
    assert Tail(data, 10, 5, false) == 5;
    assert Finish(data, 10, 5, false) == 5 by {
      assert Rem(5, 10) == 5;
    }
    assert Term(data, 0, 10) == 7 by {
      assert Addend(data, 0) == 25;
      assert DigitSum(25, 10) == 7 by {
        assert DigitSum(15, 10) == 6;
      }
    }
    assert Term(data, 1, 10) == 0;
    assert Weighted(data, 0, 1, 10) == 7 by {
      assert Weighted(data, 0, 0, 10) == 0;
    }
    assert Weighted(data, 0, 2, 10) == 7;
    assert Rem(7, 10) == 7 && Rem(3, 10) == 3;
  }

  /** All three functions give 0 for empty input. */
  lemma LuhnOfEmpty(base: Byte)
    ensures CheckDigit([], base) == 0
    ensures base != 1 ==> Blocked([], base, false) == 0
  {
    var b := IntBase(base);
    assert Rem(b, b) == 0 by {
      assert Rem(b, b) == Rem(b - b, b);
    }
    assert CheckDigit([], base) == Rem(b - 0, b);
    if base != 1 {
      BlockLimitFacts(b);
      assert Blocked([], base, false) == Finish([], b, 0, false);
      assert (b - 0) % FAST_MOD == b;
    }
  }

  // ---------------------------------------------------------------------
  // luhn256_checksum: base 256 in an 8-bit accumulator

  /** One pair of luhn256_checksum: both additions wrap at 256 and keep the weighted sum of the suffix modulo 256. */
  lemma Luhn256Pair(data: seq<Byte>, j: nat, sum: nat, term: nat)
    requires 2 <= j <= |data| && Even(|data| - j) && sum == Rem(Weighted(data, j, |data|, 256), 256)
    requires term == Doubled(data[j - 1], 256, false)
    ensures Rem(Rem(sum + term, 256) + data[j - 2], 256) == Rem(Weighted(data, j - 2, |data|, 256), 256)
  {
    assert AllBelow(data, 256);
    PairTerms(data, j, 256, false);
    var y: nat := data[j - 2];
    var rest := Weighted(data, j, |data|, 256);
    var pair := Weighted(data, j - 2, j, 256);
    assert Rem(term + y, 256) == Rem(pair, 256);
    RemAccumulatePair(rest, sum, term, y, pair, 256);
    WeightedSplit(data, j - 2, j, |data|, 256);
    assert rest + pair == Weighted(data, j - 2, |data|, 256);
  }

  /** The odd first byte of luhn256_checksum. */
  lemma Luhn256First(data: seq<Byte>, sum: nat, term: nat)
    requires !Even(|data|) && sum == Rem(Weighted(data, 1, |data|, 256), 256)
    requires term == Doubled(data[0], 256, false)
    ensures Rem(sum + term, 256) == Rem(Weighted(data, 0, |data|, 256), 256)
  {
    DoubledTerm(data[0], 256, false);
    var rest := Weighted(data, 1, |data|, 256);
    var t := Term(data, 0, 256);
    assert t == DigitSum(data[0] as int * 2, 256);
    RemAccumulate(rest, sum, term, t, 256);
    WeightedSplit(data, 0, 1, |data|, 256);
    assert rest + t == Weighted(data, 0, |data|, 256);
  }

  /** luhn256_checksum: the check digit in base 256 for every input, so it equals luhn_checksum and the textbook with base 0. */
  method Luhn256Checksum(data: seq<Byte>) returns (r: Byte)
    ensures r == CheckDigit(data, 0)
  {
    var sum: Byte := 0;
    var length: nat := |data|;
    while length > 1
      invariant length <= |data| && Even(|data| - length)
      invariant sum == Rem(Weighted(data, length, |data|, 256), 256)
    {
      var addend: nat := 2 * (data[length - 1] as int);
      var term: nat := if addend < 256 then addend else addend - 0xFF;
      Luhn256Pair(data, length, sum, term);
      sum := Reduce(sum + term, 256);
      sum := Reduce(sum + data[length - 2], 256);
      assert |data| - (length - 2) - 2 == |data| - length;
      length := length - 2;
    }
    if length == 1 {
      var addend: nat := 2 * (data[0] as int);
      var term: nat := if addend < 256 then addend else addend - 0xFF;
      EvenSucc(|data| - 1);
      assert |data| - 1 + 1 == |data|;
      Luhn256First(data, sum, term);
      sum := Reduce(sum + term, 256);
    }
    r := Reduce(256 - sum, 256);
  }

  /** With base 0 every byte is a digit, so luhn_checksum and luhn256_checksum agree with the textbook. */
  lemma Base256Agrees(data: seq<Byte>)
    ensures Blocked(data, 0, false) == CheckDigit(data, 0)
  {
    BlockedIsCheckDigit(data, 0, false);
  }
}
