/**
  Fletcher checksums (bm_checksum_fletcher.cpp): two running sums, sum1 of
  the digits and sum2 of the successive values of sum1, both modulo a base
  (15 over nibbles, 255 over bytes, 65535 over 16-bit words), packed as
  sum2 in the high half and sum1 in the low half.
 */
module Fletcher {
  import Arith
  import opened Bytes

  /** The two running sums. */
  datatype Sums = Sums(sum1: nat, sum2: nat)

  /** Both sums reduced modulo base. */
  function Reduce(s: Sums, base: nat): (r: Sums)
    requires base >= 1
    ensures r.sum1 < base && r.sum2 < base
  {
    Sums(s.sum1 % base, s.sum2 % base)
  }

  /** One digit with no modulus: sum1 += digit; sum2 += sum1. */
  function Add(s: Sums, digit: nat): Sums
  {
    var s1 := s.sum1 + digit;
    Sums(s1, s.sum2 + s1)
  }

  /** The sums after digits[p..q), started from s, in unbounded accumulators. */
  function Run(digits: seq<nat>, p: nat, q: nat, s: Sums): Sums
    requires p <= q <= |digits|
    decreases digits, q
  {
    if q == p then s else Add(Run(digits, p, q - 1, s), digits[q - 1])
  }

  /** One digit in accumulators reduced modulo base: sum1 = (sum1 + digit) % base; sum2 = (sum2 + sum1) % base. */
  function Step(s: Sums, digit: nat, base: nat): (r: Sums)
    requires base >= 1
    ensures r.sum1 < base && r.sum2 < base
  {
    var s1 := (s.sum1 + digit) % base;
    Sums(s1, (s.sum2 + s1) % base)
  }

  /** The sums after digits[p..q), started from s, reduced modulo base after every digit. */
  function Steps(digits: seq<nat>, p: nat, q: nat, s: Sums, base: nat): (r: Sums)
    requires p <= q <= |digits| && base >= 1
    ensures s.sum1 < base && s.sum2 < base ==> r.sum1 < base && r.sum2 < base
    decreases digits, q
  {
    if q == p then s else Step(Steps(digits, p, q - 1, s, base), digits[q - 1], base)
  }

  /** Reference definition: the sums over digits[0..n) from zero, reduced after every digit. */
  function Reference(digits: seq<nat>, n: nat, base: nat): (r: Sums)
    requires n <= |digits| && base >= 1
    ensures r.sum1 < base && r.sum2 < base
  {
    Steps(digits, 0, n, Sums(0, 0), base)
  }

  /** Sums computed as one reduced step are that step. */
  lemma IsStep(s: Sums, digit: nat, base: nat, sum1: nat, sum2: nat)
    requires base >= 1 && sum1 == (s.sum1 + digit) % base && sum2 == (s.sum2 + sum1) % base
    ensures Sums(sum1, sum2) == Step(s, digit, base)
  {
  }

  /** One more digit is one more reduced step. */
  lemma ReferenceStep(digits: seq<nat>, n: nat, base: nat)
    requires n < |digits| && base >= 1
    ensures Reference(digits, n + 1, base) == Step(Reference(digits, n, base), digits[n], base)
  {
  }

  /**
    The result puts sum2 in the high half and sum1 in the low half
    (sum2 << bits | sum1). Packing is reversible: the high half is sum2, the
    low half sum1, and the result fits in two halves.
   */
  lemma PackParts(s: Sums, half: nat)
    requires s.sum1 < half && s.sum2 < half
    ensures s.sum2 * half + s.sum1 < half * half
    ensures (s.sum2 * half + s.sum1) / half == s.sum2 && (s.sum2 * half + s.sum1) % half == s.sum1
  {
    Arith.DivModUnique(s.sum2 * half + s.sum1, half, s.sum2, s.sum1);
    Arith.MulMono(s.sum2 + 1, half, half, half);
  }

  /** The sums over digits[p..q) in 64-bit accumulators: every addition wraps modulo 2^64. */
  function WrapRun(digits: seq<nat>, p: nat, q: nat, s: Sums): Sums
    requires p <= q <= |digits|
  {
    Steps(digits, p, q, s, FAST_MOD)
  }

  /**
    Deferred modulus: digits[p..e) in blocks of at most limit digits, each
    block added in 64-bit accumulators and both sums reduced modulo base after it.
   */
  function Blocks(digits: seq<nat>, p: nat, e: nat, s: Sums, limit: nat, base: nat): (r: Sums)
    requires p <= e <= |digits| && limit >= 1 && base >= 1 && s.sum1 < base && s.sum2 < base
    ensures r.sum1 < base && r.sum2 < base
    decreases digits, e - p
  {
    if p == e then s
    else
      var q := p + Min(limit, e - p);
      Blocks(digits, q, e, Reduce(WrapRun(digits, p, q, s), base), limit, base)
  }

  // ---------------------------------------------------------------------
  // Deferring the modulus

  /** Running over [p, q) and then [q, r) is running over [p, r). */
  lemma {:induction false} RunSplit(digits: seq<nat>, p: nat, q: nat, r: nat, s: Sums)
    requires p <= q <= r <= |digits|
    ensures Run(digits, p, r, s) == Run(digits, q, r, Run(digits, p, q, s))
    decreases r
  {
    if r > q {
      RunSplit(digits, p, q, r - 1, s);
    }
  }

  /** Reducing after one digit is adding the digit and then reducing. */
  lemma StepReduces(s: Sums, u: Sums, digit: nat, base: nat)
    requires base >= 1 && s == Reduce(u, base)
    ensures Step(s, digit, base) == Reduce(Add(u, digit), base)
  {
    var s1, u1 := (s.sum1 + digit) % base, u.sum1 + digit;
    assert s1 == u1 % base by { Arith.ModOfSum(u.sum1, digit, base); }
    assert (s.sum2 + s1) % base == (u.sum2 + u1) % base by {
      Arith.ModSmall(s.sum2, base);
      Arith.ModSmall(s1, base);
      Arith.ModAddCong(s.sum2, u.sum2, s1, u1, base);
    }
  }

  /** Reducing after every digit gives the unbounded sums reduced once at the end. */
  lemma {:induction false} StepsDefer(digits: seq<nat>, p: nat, q: nat, s: Sums, u: Sums, base: nat)
    requires p <= q <= |digits| && base >= 1 && s == Reduce(u, base)
    ensures Steps(digits, p, q, s, base) == Reduce(Run(digits, p, q, u), base)
    decreases q
  {
    if q > p {
      StepsDefer(digits, p, q - 1, s, u, base);
      StepReduces(Steps(digits, p, q - 1, s, base), Run(digits, p, q - 1, u), digits[q - 1], base);
    }
  }

  /** The reference sums are the unbounded sums reduced once at the end. */
  lemma ReferenceDefers(digits: seq<nat>, n: nat, base: nat)
    requires n <= |digits| && base >= 1
    ensures Reference(digits, n, base) == Reduce(Run(digits, 0, n, Sums(0, 0)), base)
  {
    StepsDefer(digits, 0, n, Sums(0, 0), Sums(0, 0), base);
  }

  /** Starting states congruent modulo base give final states congruent modulo base. */
  lemma RunCongruent(digits: seq<nat>, p: nat, q: nat, s: Sums, s': Sums, base: nat)
    requires p <= q <= |digits| && base >= 1 && Reduce(s, base) == Reduce(s', base)
    ensures Reduce(Run(digits, p, q, s), base) == Reduce(Run(digits, p, q, s'), base)
  {
    StepsDefer(digits, p, q, Reduce(s, base), s, base);
    StepsDefer(digits, p, q, Reduce(s, base), s', base);
  }

  /** While nothing overflows, the 64-bit accumulators hold the unbounded sums. */
  lemma WrapRunIsRun(digits: seq<nat>, p: nat, q: nat, s: Sums)
    requires p <= q <= |digits| && s.sum1 < FAST_MOD && s.sum2 < FAST_MOD
    ensures WrapRun(digits, p, q, s) == Reduce(Run(digits, p, q, s), FAST_MOD)
  {
    Arith.ModSmall(s.sum1, FAST_MOD);
    Arith.ModSmall(s.sum2, FAST_MOD);
    StepsDefer(digits, p, q, s, s, FAST_MOD);
  }

  // ---------------------------------------------------------------------
  // Bounds within a block

  /** The triangular number 1 + 2 + ... + n. */
  function Tri(n: nat): nat
  {
    if n == 0 then 0 else Tri(n - 1) + n
  }

  lemma {:induction false} TriClosed(n: nat)
    ensures 2 * Tri(n) == n * (n + 1)
  {
    if n > 0 {
      TriClosed(n - 1);
      assert (n - 1) * n + 2 * n == n * (n + 1);
    }
  }

  lemma {:induction false} TriMono(n: nat, m: nat)
    requires n <= m
    ensures n <= Tri(n) <= Tri(m)
    decreases m
  {
    if n < m {
      TriMono(n, m - 1);
    } else if n > 0 {
      TriMono(n - 1, n - 1);
    }
  }

  /** All digits of [p, q) are at most m. */
  predicate DigitsAtMost(digits: seq<nat>, p: nat, q: nat, m: nat)
    requires p <= q <= |digits|
  {
    forall j :: p <= j < q ==> digits[j] <= m
  }

  /** Arithmetic of one digit for RunBound. */
  lemma BoundStep(a1: int, a2: int, b1: int, b2: int, d: int, m: int, n: int, tri: int)
    requires n >= 1 && a1 <= b1 + m * (n - 1) && a2 <= b2 + b1 * (n - 1) + m * tri && d <= m
    ensures a1 + d <= b1 + m * n && a2 + (a1 + d) <= b2 + b1 * n + m * (tri + n)
  {
    Arith.MulStep(m, n);
    Arith.MulStep(b1, n);
    Arith.MulAdd(m, tri, n);
  }

  /** After n digits of at most m: sum1 grows by at most m*n and sum2 by at most n*sum1 + m*Tri(n). */
  lemma {:induction false} RunBound(digits: seq<nat>, p: nat, q: nat, s: Sums, m: nat)
    requires p <= q <= |digits| && DigitsAtMost(digits, p, q, m)
    ensures Run(digits, p, q, s).sum1 <= s.sum1 + m * (q - p)
    ensures Run(digits, p, q, s).sum2 <= s.sum2 + s.sum1 * (q - p) + m * Tri(q - p)
    decreases q
  {
    if q > p {
      var n := q - p;
      RunBound(digits, p, q - 1, s, m);
      var t := Run(digits, p, q - 1, s);
      BoundStep(t.sum1, t.sum2, s.sum1, s.sum2, digits[q - 1], m, n, Tri(n - 1));
    }
  }

  /**
    The largest value a block of `limit` digits of at most m can reach when it
    starts from residues below base stays below 2^64.
   */
  predicate Fits(limit: nat, base: nat, m: nat)
    requires base >= 1
  {
    (base - 1) + (base - 1) * limit + m * Tri(limit) < FAST_MOD
  }

  /** Sums below 2^64 are left alone by the wrap-around. */
  lemma NoWrap(u: Sums)
    requires u.sum1 < FAST_MOD && u.sum2 < FAST_MOD
    ensures Reduce(u, FAST_MOD) == u
  {
    Arith.ModSmall(u.sum1, FAST_MOD);
    Arith.ModSmall(u.sum2, FAST_MOD);
  }

  /** Arithmetic of BlockFits: the bounds of RunBound stay below the bound of Fits. */
  lemma FitsBound(a1: int, a2: int, b1: int, b2: int, n: int, tri: int, limit: int, triLimit: int, base: int, m: int)
    requires 0 <= b1 < base && 0 <= b2 < base && 0 <= m && 0 <= n <= limit && n <= tri <= triLimit
    requires a1 <= b1 + m * n && a2 <= b2 + b1 * n + m * tri
    requires (base - 1) + (base - 1) * limit + m * triLimit < FAST_MOD
    ensures a1 < FAST_MOD && a2 < FAST_MOD && b1 < FAST_MOD && b2 < FAST_MOD
  {
    Arith.MulMono(0, 0, base - 1, limit);
    Arith.MulMono(b1, n, base - 1, limit);
    Arith.MulMono(0, 0, m, n);
    Arith.MulMono(m, tri, m, triLimit);
    Arith.MulMono(m, n, m, tri);
    LinearFits(a1, a2, b1, b2, base, b1 * n, (base - 1) * limit, m * n, m * tri, m * triLimit);
  }

  lemma LinearFits(a1: int, a2: int, b1: int, b2: int, base: int, bn: int, bl: int, mn: int, mt: int, ml: int)
    requires 0 <= b1 < base && 0 <= b2 < base && 0 <= bn <= bl && 0 <= mn <= mt <= ml
    requires a1 <= b1 + mn && a2 <= b2 + bn + mt && (base - 1) + bl + ml < FAST_MOD
    ensures a1 < FAST_MOD && a2 < FAST_MOD && b1 < FAST_MOD && b2 < FAST_MOD
  {
  }

  /**
    A block that fits does not wrap: the 64-bit accumulators hold the unbounded
    sums. The block starts from sums below base (the residues of the previous block).
   */
  lemma BlockFits(digits: seq<nat>, p: nat, q: nat, s: Sums, limit: nat, base: nat, m: nat)
    requires p <= q <= |digits| && q - p <= limit && DigitsAtMost(digits, p, q, m)
    requires base >= 1 && s.sum1 < base && s.sum2 < base && Fits(limit, base, m)
    ensures WrapRun(digits, p, q, s) == Run(digits, p, q, s)
  {
    var n, u := q - p, Run(digits, p, q, s);
    RunBound(digits, p, q, s, m);
    TriMono(n, limit);
    FitsBound(u.sum1, u.sum2, s.sum1, s.sum2, n, Tri(n), limit, Tri(limit), base, m);
    WrapRunIsRun(digits, p, q, s);
    NoWrap(u);
  }

  /** One block that fits, from a state congruent to the sums so far, ends congruent to the sums so far. */
  lemma BlockStep(digits: seq<nat>, p: nat, q: nat, s: Sums, limit: nat, base: nat, m: nat)
    requires p <= q <= |digits| && q - p <= limit && DigitsAtMost(digits, p, q, m)
    requires base >= 1 && s.sum1 < base && s.sum2 < base && Fits(limit, base, m)
    requires s == Reduce(Run(digits, 0, p, Sums(0, 0)), base)
    ensures Reduce(WrapRun(digits, p, q, s), base) == Reduce(Run(digits, 0, q, Sums(0, 0)), base)
  {
    BlockFits(digits, p, q, s, limit, base, m);
    var before := Run(digits, 0, p, Sums(0, 0));
    assert Reduce(s, base) == Reduce(before, base) by {
      Arith.ModSmall(s.sum1, base);
      Arith.ModSmall(s.sum2, base);
    }
    RunCongruent(digits, p, q, s, before, base);
    RunSplit(digits, 0, p, q, Sums(0, 0));
  }

  /** The first block of Blocks. */
  lemma BlocksFirst(digits: seq<nat>, p: nat, e: nat, s: Sums, limit: nat, base: nat, k: nat, t: Sums)
    requires p < e <= |digits| && limit >= 1 && base >= 1 && s.sum1 < base && s.sum2 < base
    requires k == Min(limit, e - p) && t == WrapRun(digits, p, p + k, s)
    ensures Blocks(digits, p, e, s, limit, base) == Blocks(digits, p + k, e, Reduce(t, base), limit, base)
  {
  }

  /** Blocks that fit compute the sums reduced once at the end. */
  lemma {:induction false} BlocksDefer(digits: seq<nat>, p: nat, e: nat, s: Sums, limit: nat, base: nat, m: nat)
    requires p <= e <= |digits| && limit >= 1 && base >= 1 && DigitsAtMost(digits, p, e, m)
    requires s.sum1 < base && s.sum2 < base && Fits(limit, base, m)
    requires s == Reduce(Run(digits, 0, p, Sums(0, 0)), base)
    ensures Blocks(digits, p, e, s, limit, base) == Reduce(Run(digits, 0, e, Sums(0, 0)), base)
    decreases e - p
  {
    if p < e {
      var q := p + Min(limit, e - p);
      var next := Reduce(WrapRun(digits, p, q, s), base);
      assert Blocks(digits, p, e, s, limit, base) == Blocks(digits, q, e, next, limit, base);
      BlockStep(digits, p, q, s, limit, base, m);
      BlocksDefer(digits, q, e, next, limit, base, m);
    }
  }

  /** With a block limit that fits, the deferred-modulus sums are the reference sums. */
  lemma BlocksAreReference(digits: seq<nat>, e: nat, limit: nat, base: nat, m: nat)
    requires e <= |digits| && limit >= 1 && base >= 1 && DigitsAtMost(digits, 0, e, m) && Fits(limit, base, m)
    ensures Blocks(digits, 0, e, Sums(0, 0), limit, base) == Reference(digits, e, base)
  {
    ReferenceDefers(digits, 0, base);
    BlocksDefer(digits, 0, e, Sums(0, 0), limit, base, m);
    ReferenceDefers(digits, e, base);
  }

  /** The sum of the first n digits. */
  function DigitSum(digits: seq<nat>, n: nat): nat
    requires n <= |digits|
  {
    if n == 0 then 0 else DigitSum(digits, n - 1) + digits[n - 1]
  }

  /** The sum of the running digit sums after each of the first n digits. */
  function RunningSum(digits: seq<nat>, n: nat): nat
    requires n <= |digits|
  {
    if n == 0 then 0 else RunningSum(digits, n - 1) + DigitSum(digits, n)
  }

  /**
    Fletcher's sums in closed form: sum1 is the digit sum and sum2 the sum of
    the running sums (each digit weighted by the number of positions from it
    to the end), both modulo the base.
   */
  lemma {:induction false} ReferenceClosedForm(digits: seq<nat>, n: nat, base: nat)
    requires n <= |digits| && base >= 1
    ensures Reference(digits, n, base) == Sums(DigitSum(digits, n) % base, RunningSum(digits, n) % base)
  {
    if n > 0 {
      var d, r, x := DigitSum(digits, n - 1), RunningSum(digits, n - 1), digits[n - 1];
      ReferenceClosedForm(digits, n - 1, base);
      ReferenceStep(digits, n - 1, base);
      Arith.ModOfSum(d, x, base);
      Arith.ModOfSum(r, (d + x) % base, base);
      Arith.ModOfSum(d + x, r, base);
    }
  }

  // ---------------------------------------------------------------------
  // fletcher8_checksum: nibbles modulo 15

  /** The digits of Fletcher-8: each byte's high nibble, then its low nibble. */
  function Nibbles(data: seq<Byte>): (r: seq<nat>)
    ensures |r| == 2 * |data|
  {
    seq(2 * |data|, j requires 0 <= j < 2 * |data| => if j % 2 == 0 then data[j / 2] / 16 else data[j / 2] % 16)
  }

  /** Byte i gives digits 2i (its high nibble) and 2i + 1 (its low nibble). */
  lemma NibblesOf(data: seq<Byte>, i: nat)
    requires i < |data|
    ensures Nibbles(data)[2 * i] == data[i] / 16 && Nibbles(data)[2 * i + 1] == data[i] % 16
  {
  }

  /** The Fletcher-8 checksum: the sums of the nibbles modulo 15, sum2 in the high nibble. */
  function Checksum8(data: seq<Byte>): (r: nat)
    ensures r < 0x100
  {
    PackParts(Reference(Nibbles(data), 2 * |data|, 15), 16);
    Reference(Nibbles(data), 2 * |data|, 15).sum2 * 16
      + Reference(Nibbles(data), 2 * |data|, 15).sum1
  }

  /** The sum of the first n nibbles of data (two per byte). */
  function NibbleTotal(data: seq<Byte>, n: nat): nat
    requires n <= |data|
  {
    if n == 0 then 0 else NibbleTotal(data, n - 1) + data[n - 1] / 16 + data[n - 1] % 16
  }

  /** The sum of the running totals after each of the first 2n nibbles of data. */
  function NibbleWeighted(data: seq<Byte>, n: nat): nat
    requires n <= |data|
  {
    if n == 0 then 0
    else NibbleWeighted(data, n - 1) + 2 * NibbleTotal(data, n - 1) + 2 * (data[n - 1] / 16) + data[n - 1] % 16
  }

  /** Byte by byte is nibble by nibble: the totals of the bytes are those of their nibbles. */
  lemma {:induction false} NibbleTotals(data: seq<Byte>, n: nat)
    requires n <= |data|
    ensures NibbleTotal(data, n) == DigitSum(Nibbles(data), 2 * n)
    ensures NibbleWeighted(data, n) == RunningSum(Nibbles(data), 2 * n)
  {
    if n > 0 {
      var digits, m := Nibbles(data), 2 * (n - 1);
      NibbleTotals(data, n - 1);
      NibblesOf(data, n - 1);
      assert m + 2 == 2 * n;
    }
  }

  /**
    fletcher8_checksum: the reference Fletcher-8 checksum, byte by byte. The
    sums are 8-bit (uint_fast8_t): every assignment stays below 256, so the
    deferred high-nibble step never truncates.
   */
  method Fletcher8(data: seq<Byte>) returns (r: Byte)
    ensures r == Checksum8(data)
  {
    var sum1: Byte, sum2: Byte := 0, 0;
    var i: nat := 0;
    while i < |data|
      invariant i <= |data|
      invariant sum1 == NibbleTotal(data, i) % 15 && sum2 == NibbleWeighted(data, i) % 15
    {
      var b := data[i];
      ghost var before1, before2 := sum1, sum2;
      sum1 := sum1 + b / 16;
      sum2 := sum2 + sum1;
      ghost var mid1, mid2 := sum1, sum2;
      sum1 := (sum1 + b % 16) % 15;
      sum2 := (sum2 + sum1) % 15;
      NibbleRound(data, i, before1, before2, mid1, mid2, sum1, sum2);
      i := i + 1;
    }
    Fletcher8Result(data, sum1, sum2);
    r := sum2 * 16 + sum1;
  }

  /**
    One byte of fletcher8_checksum keeps its loop invariant: the high nibble
    added with the modulus deferred, then the low nibble with the modulus,
    leaves the totals of one more byte modulo 15.
   */
  lemma NibbleRound(data: seq<Byte>, i: nat, s1: nat, s2: nat, x1: nat, x2: nat, y1: nat, y2: nat)
    requires i < |data| && s1 == NibbleTotal(data, i) % 15 && s2 == NibbleWeighted(data, i) % 15
    requires x1 == s1 + data[i] / 16 && x2 == s2 + x1
    requires y1 == (x1 + data[i] % 16) % 15 && y2 == (x2 + y1) % 15
    ensures y1 == NibbleTotal(data, i + 1) % 15 && y2 == NibbleWeighted(data, i + 1) % 15
  {
    var t, w, hi, lo := NibbleTotal(data, i), NibbleWeighted(data, i), data[i] / 16, data[i] % 16;
    Arith.ModOfSum(t, hi + lo, 15);
    assert y1 == (t + hi + lo) % 15;
    Arith.ModOfSum(w, t % 15 + hi + y1, 15);
    Arith.ModOfSum(t, w + hi + y1, 15);
    Arith.ModOfSum(t + hi + lo, t + w + hi, 15);
    assert y2 == (w + 2 * t + 2 * hi + lo) % 15;
  }

  /** The sums after the last byte, packed, are the Fletcher-8 checksum. */
  lemma Fletcher8Result(data: seq<Byte>, sum1: nat, sum2: nat)
    requires sum1 == NibbleTotal(data, |data|) % 15 && sum2 == NibbleWeighted(data, |data|) % 15
    ensures sum2 * 16 + sum1 == Checksum8(data)
  {
    NibbleTotals(data, |data|);
    ReferenceClosedForm(Nibbles(data), 2 * |data|, 15);
  }

  // ---------------------------------------------------------------------
  // fletcher16_checksum: bytes modulo 255, modulus deferred per block

  /** The block limit of fletcher16_checksum for 64-bit accumulators. */
  const LIMIT16: nat := 380368696
  /** The largest block that cannot overflow once the residues of the previous block are counted. */
  const SAFE_LIMIT16: nat := 380368695

  /** The Fletcher-16 checksum: the sums of the bytes modulo 255, sum2 in the high byte. */
  function Checksum16(data: seq<Byte>): (r: nat)
    ensures r < 0x1_0000
  {
    PackParts(Reference(data, |data|, 255), 256);
    Reference(data, |data|, 255).sum2 * 256
      + Reference(data, |data|, 255).sum1
  }

  /** What fletcher16_checksum returns: blocks of LIMIT16 bytes in 64-bit accumulators. */
  function Fletcher16AsWritten(data: seq<Byte>): (r: nat)
    ensures r < 0x1_0000
  {
    PackParts(Blocks(data, 0, |data|, Sums(0, 0), LIMIT16, 255), 256);
    Blocks(data, 0, |data|, Sums(0, 0), LIMIT16, 255).sum2 * 256
      + Blocks(data, 0, |data|, Sums(0, 0), LIMIT16, 255).sum1
  }

  /** The inner loop of fletcher16_checksum over data[p..q). */
  method ByteBlock(data: seq<Byte>, p: nat, q: nat, s: Sums) returns (t: Sums)
    requires p <= q <= |data|
    ensures t == WrapRun(data, p, q, s)
  {
    var sum1: nat, sum2: nat := s.sum1, s.sum2;
    var i := p;
    while i < q
      invariant p <= i <= q && Sums(sum1, sum2) == WrapRun(data, p, i, s)
    {
      sum1 := (sum1 + data[i]) % FAST_MOD;
      sum2 := (sum2 + sum1) % FAST_MOD;
      i := i + 1;
    }
    t := Sums(sum1, sum2);
  }

  /** The outer loop of fletcher16_checksum with block limit `limit`. */
  method ByteBlocks(data: seq<Byte>, limit: nat) returns (s: Sums)
    requires limit >= 1
    ensures s == Blocks(data, 0, |data|, Sums(0, 0), limit, 255)
  {
    var sum1: nat, sum2: nat := 0, 0;
    var p: nat, length: nat := 0, |data|;
    while length > 0
      invariant p + length == |data| && sum1 < 255 && sum2 < 255
      invariant Blocks(data, p, |data|, Sums(sum1, sum2), limit, 255) == Blocks(data, 0, |data|, Sums(0, 0), limit, 255)
    {
      var blocksize := if length > limit then limit else length;
      length := length - blocksize;
      var t := ByteBlock(data, p, p + blocksize, Sums(sum1, sum2));
      sum1 := t.sum1 % 255;
      sum2 := t.sum2 % 255;
      p := p + blocksize;
    }
    s := Sums(sum1, sum2);
  }

  /** fletcher16_checksum as written. */
  method Fletcher16(data: seq<Byte>) returns (r: nat)
    ensures r == Fletcher16AsWritten(data)
  {
    var s := ByteBlocks(data, LIMIT16);
    r := s.sum2 * 256 + s.sum1;
  }

  /** fletcher16_checksum with the block limit lowered to SAFE_LIMIT16: the reference checksum. */
  method Fletcher16Corrected(data: seq<Byte>) returns (r: nat)
    ensures r == Checksum16(data)
  {
    var s := ByteBlocks(data, SAFE_LIMIT16);
    BlockLimits();
    BlocksAreReference(data, |data|, SAFE_LIMIT16, 255, 255);
    r := s.sum2 * 256 + s.sum1;
  }

  /**
    The block limits against the overflow bound: LIMIT16 meets the bound that
    leaves out the residues of the previous block but not the one that counts
    them; SAFE_LIMIT16 and the Fletcher-32 word limit meet it.
   */
  lemma BlockLimits()
    ensures 255 * Tri(LIMIT16) <= FAST_MAX && Fits(LIMIT16, 1, 255)
    ensures !Fits(LIMIT16, 255, 255) && Fits(SAFE_LIMIT16, 255, 255)
    ensures Fits(LIMIT32_WORDS, 65535, 65535)
  {
    TriClosed(LIMIT16);
    TriClosed(SAFE_LIMIT16);
    TriClosed(LIMIT32_WORDS);
  }

  /** Input no longer than one block: fletcher16_checksum returns the reference checksum. */
  lemma Fletcher16OneBlock(data: seq<Byte>)
    requires |data| <= LIMIT16
    ensures Fletcher16AsWritten(data) == Checksum16(data)
  {
    var n := |data|;
    ReferenceDefers(data, n, 255);
    if n > 0 {
      BlockLimits();
      BlockFits(data, 0, n, Sums(0, 0), LIMIT16, 1, 255);
      assert Blocks(data, 0, n, Sums(0, 0), LIMIT16, 255) == Blocks(data, n, n, Reduce(WrapRun(data, 0, n, Sums(0, 0)), 255), LIMIT16, 255);
    }
  }

  // ---------------------------------------------------------------------
  // fletcher16_checksum: an input on which the block limit overflows

  /** digits[p..q) all equal c. */
  predicate ConstantOn(digits: seq<nat>, p: nat, q: nat, c: nat)
    requires p <= q <= |digits|
  {
    forall k :: p <= k < q ==> digits[k] == c
  }

  lemma ConstantStep(s1: int, s2: int, c: int, n: int, tri: int)
    ensures (s1 + c * (n - 1)) + c == s1 + c * n
    ensures (s2 + s1 * (n - 1) + c * tri) + (s1 + c * n) == s2 + s1 * n + c * (tri + n)
  {
    Arith.MulStep(c, n);
    Arith.MulStep(s1, n);
    Arith.MulAdd(c, tri, n);
  }

  /** A run of equal digits c: sum1 grows by c * n and sum2 by sum1 * n + c * Tri(n), for n = q - p. */
  lemma {:induction false} RunConstant(digits: seq<nat>, p: nat, q: nat, s: Sums, c: nat)
    requires p <= q <= |digits| && ConstantOn(digits, p, q, c)
    ensures Run(digits, p, q, s).sum1 == s.sum1 + c * (q - p)
    ensures Run(digits, p, q, s).sum2 == s.sum2 + s.sum1 * (q - p) + c * Tri(q - p)
    decreases q
  {
    if q > p {
      RunConstant(digits, p, q - 1, s, c);
      ConstantStep(s.sum1, s.sum2, c, q - p, Tri(q - p - 1));
    }
  }

  /** LIMIT16 - 1 zero bytes, one byte 254, then LIMIT16 bytes 255: two full blocks. */
  predicate IsOverflowInput(data: seq<Byte>)
  {
    |data| == 2 * LIMIT16
    && (forall k :: 0 <= k < LIMIT16 - 1 ==> data[k] == 0)
    && data[LIMIT16 - 1] == 254
    && (forall k :: LIMIT16 <= k < 2 * LIMIT16 ==> data[k] == 255)
  }

  /** Such an input exists. */
  lemma OverflowInputExists()
    ensures IsOverflowInput(Zeros(LIMIT16 - 1) + [254] + Repeat(255, LIMIT16))
  {
    var data := Zeros(LIMIT16 - 1) + [254] + Repeat(255, LIMIT16);
    forall k | LIMIT16 <= k < 2 * LIMIT16
      ensures data[k] == 255
    {
      assert data[k] == Repeat(255, LIMIT16)[k - LIMIT16];
    }
  }

  /** The first block leaves both sums at 254. */
  lemma OverflowFirstBlock(data: seq<Byte>)
    requires IsOverflowInput(data)
    ensures Run(data, 0, LIMIT16, Sums(0, 0)) == Sums(254, 254)
  {
    assert ConstantOn(data, 0, LIMIT16 - 1, 0);
    RunConstant(data, 0, LIMIT16 - 1, Sums(0, 0), 0);
  }

  /** The second block takes sum2 past 2^64. */
  lemma OverflowSecondBlock(data: seq<Byte>)
    requires IsOverflowInput(data)
    ensures Run(data, LIMIT16, 2 * LIMIT16, Sums(254, 254)) == Sums(96994017734, 18446744119445060818)
    ensures 18446744119445060818 >= FAST_MOD
  {
    assert ConstantOn(data, LIMIT16, 2 * LIMIT16, 255);
    RunConstant(data, LIMIT16, 2 * LIMIT16, Sums(254, 254), 255);
    TriClosed(LIMIT16);
  }

  /**
    On that input fletcher16_checksum loses 2^64 in sum2 during the second
    block and returns 3326 where the Fletcher-16 checksum is 3582.
   */
  lemma Fletcher16AsWrittenDiffers(data: seq<Byte>)
    requires IsOverflowInput(data)
    ensures Fletcher16AsWritten(data) == 3326 && Checksum16(data) == 3582
  {
    var L := LIMIT16;
    OverflowFirstBlock(data);
    OverflowSecondBlock(data);
    WrapRunIsRun(data, 0, L, Sums(0, 0));
    WrapRunIsRun(data, L, 2 * L, Sums(254, 254));
    assert Blocks(data, 0, 2 * L, Sums(0, 0), L, 255) == Blocks(data, L, 2 * L, Sums(254, 254), L, 255);
    assert Blocks(data, L, 2 * L, Sums(254, 254), L, 255) == Sums(254, 12);
    ReferenceDefers(data, 2 * L, 255);
    RunSplit(data, 0, L, 2 * L, Sums(0, 0));
    assert Reference(data, 2 * L, 255) == Sums(254, 13);
  }

  // ---------------------------------------------------------------------
  // fletcher32_checksum: big-endian 16-bit words modulo 65535

  /** The block limit of fletcher32_checksum in bytes for 64-bit accumulators; it is even. */
  const LIMIT32: nat := 23726746
  /** The same limit in 16-bit words: LIMIT32 is even, so no word straddles two blocks. */
  const LIMIT32_WORDS: nat := 11863373

  /** The j-th big-endian 16-bit word of data; a missing low byte is zero. */
  function WordAt(data: seq<Byte>, j: nat): (w: nat)
    requires 2 * j < |data|
    ensures w <= 65535
  {
    var lo: nat := if 2 * j + 1 < |data| then data[2 * j + 1] else 0;
    data[2 * j] * 256 + lo
  }

  /** The digits of Fletcher-32: big-endian 16-bit words, an odd last byte as the high byte of a zero-padded word. */
  function Words16(data: seq<Byte>): (r: seq<nat>)
    ensures |r| == (|data| + 1) / 2
  {
    seq((|data| + 1) / 2, j requires 0 <= j < (|data| + 1) / 2 => WordAt(data, j))
  }

  /** The Fletcher-32 checksum: the sums of the words modulo 65535, sum2 in the high half. */
  function Checksum32(data: seq<Byte>): (r: nat)
    ensures r < 0x1_0000_0000
  {
    PackParts(Reference(Words16(data), |Words16(data)|, 65535), 65536);
    Reference(Words16(data), |Words16(data)|, 65535).sum2 * 65536
      + Reference(Words16(data), |Words16(data)|, 65535).sum1
  }

  /** Word j is bytes i = 2j and i + 1, big-endian. */
  lemma WordOf(data: seq<Byte>, i: nat, j: nat)
    requires i == 2 * j && i + 1 < |data|
    ensures j < |Words16(data)| && Words16(data)[j] == data[i] as nat * 256 + data[i + 1] as nat
  {
  }

  /** The inner loop of fletcher32_checksum: words w .. w+k of data, read two bytes at a time from byte p = 2w. */
  method WordBlock(data: seq<Byte>, p: nat, blocksize: nat, s: Sums, ghost w: nat, ghost k: nat) returns (t: Sums)
    requires p == 2 * w && blocksize == 2 * k && p + blocksize <= |data|
    ensures w + k <= |Words16(data)| && t == WrapRun(Words16(data), w, w + k, s)
  {
    ghost var words := Words16(data);
    var sum1: nat, sum2: nat := s.sum1, s.sum2;
    var i: nat, left: nat := p, blocksize;
    ghost var j: nat := w;
    while left > 0
      invariant w <= j <= w + k <= |words| && i == 2 * j && left == 2 * (w + k - j)
      invariant Sums(sum1, sum2) == WrapRun(words, w, j, s)
    {
      WordOf(data, i, j);
      var number16: nat := data[i] as nat * 256;
      number16 := number16 + data[i + 1] as nat;
      sum1 := (sum1 + number16) % FAST_MOD;
      sum2 := (sum2 + sum1) % FAST_MOD;
      i, left := i + 2, left - 2;
      j := j + 1;
    }
    t := Sums(sum1, sum2);
  }

  /** The block loop of fletcher32_checksum over the first `even` = 2e bytes. */
  method WordBlocks(data: seq<Byte>, even: nat, ghost e: nat) returns (s: Sums)
    requires even == 2 * e && even <= |data|
    ensures e <= |Words16(data)| && s == Blocks(Words16(data), 0, e, Sums(0, 0), LIMIT32_WORDS, 65535)
  {
    ghost var words := Words16(data);
    var sum1: nat, sum2: nat := 0, 0;
    var p: nat, length: nat := 0, even;
    ghost var w: nat := 0;
    while length > 1
      invariant w <= e <= |words| && p == 2 * w && length == 2 * (e - w)
      invariant sum1 < 65535 && sum2 < 65535
      invariant Blocks(words, w, e, Sums(sum1, sum2), LIMIT32_WORDS, 65535)
             == Blocks(words, 0, e, Sums(0, 0), LIMIT32_WORDS, 65535)
    {
      var blocksize := if length > LIMIT32 then LIMIT32 else length;
      ghost var k := Min(LIMIT32_WORDS, e - w);
      assert blocksize == 2 * k;
      length := length - blocksize;
      var t := WordBlock(data, p, blocksize, Sums(sum1, sum2), w, k);
      BlocksFirst(words, w, e, Sums(sum1, sum2), LIMIT32_WORDS, 65535, k, t);
      sum1 := t.sum1 % 65535;
      sum2 := t.sum2 % 65535;
      p := p + blocksize;
      w := w + k;
    }
    s := Sums(sum1, sum2);
  }

  /** The number of words: one per byte pair, and one more for an odd last byte. */
  lemma WordsLength(data: seq<Byte>)
    ensures 2 * (|data| / 2) + |data| % 2 == |data|
    ensures |Words16(data)| == |data| / 2 + |data| % 2
  {
  }

  /** The blocks over the byte pairs give the reference sums of the pairs. */
  lemma PairsReference(data: seq<Byte>)
    ensures |data| / 2 <= |Words16(data)|
    ensures Blocks(Words16(data), 0, |data| / 2, Sums(0, 0), LIMIT32_WORDS, 65535) == Reference(Words16(data), |data| / 2, 65535)
  {
    WordsLength(data);
    WordsAtMost(data);
    BlockLimits();
    BlocksAreReference(Words16(data), |data| / 2, LIMIT32_WORDS, 65535, 65535);
  }

  /** With an even length, the sums of the blocks, packed, are the Fletcher-32 checksum. */
  lemma EvenResult(data: seq<Byte>, s: Sums)
    requires |data| % 2 == 0
    requires |data| / 2 <= |Words16(data)| && s == Blocks(Words16(data), 0, |data| / 2, Sums(0, 0), LIMIT32_WORDS, 65535)
    ensures s.sum2 * 65536 + s.sum1 == Checksum32(data)
  {
    WordsLength(data);
    PairsReference(data);
  }

  /**
    With an odd length, the last byte is one more word (its value shifted into
    the high byte), added with the modulus; the result, packed, is the
    Fletcher-32 checksum.
   */
  lemma OddResult(data: seq<Byte>, s: Sums, sum1: nat, sum2: nat)
    requires |data| % 2 == 1
    requires |data| / 2 <= |Words16(data)| && s == Blocks(Words16(data), 0, |data| / 2, Sums(0, 0), LIMIT32_WORDS, 65535)
    requires sum1 == (s.sum1 + data[|data| - 1] as nat * 256) % 65535 && sum2 == (s.sum2 + sum1) % 65535
    ensures sum2 * 65536 + sum1 == Checksum32(data)
  {
    var words, e := Words16(data), |data| / 2;
    WordsLength(data);
    PairsReference(data);
    assert words[e] == WordAt(data, e);
    ReferenceStep(words, e, 65535);
    IsStep(Reference(words, e, 65535), data[|data| - 1] as nat * 256, 65535, sum1, sum2);
  }

  /** fletcher32_checksum: the reference Fletcher-32 checksum. */
  method Fletcher32(data: seq<Byte>) returns (r: nat)
    ensures r == Checksum32(data)
  {
    var modulus := |data| % 2;
    WordsLength(data);
    var s := WordBlocks(data, |data| - modulus, |data| / 2);
    var sum1: nat, sum2: nat := s.sum1, s.sum2;
    if modulus == 1 {
      sum1 := (sum1 + data[|data| - 1] as nat * 256) % 65535;
      sum2 := (sum2 + sum1) % 65535;
      OddResult(data, s, sum1, sum2);
    } else {
      EvenResult(data, s);
    }
    r := sum2 * 65536 + sum1;
  }

  /** Every word is at most 65535. */
  lemma WordsAtMost(data: seq<Byte>)
    ensures DigitsAtMost(Words16(data), 0, |Words16(data)|, 65535)
  {
  }
}
