/**
  The checksum functions a ByteMessageChecksum can be bound to: every
  checksum of the library with the signature T f(const uint8_t*, size_t).
  The function pointer becomes an enumeration, and calling through it
  becomes a dispatch to the methods that model each function.
 */
module Checksums {
  import opened Bytes
  import OneSum
  import TwoSum
  import XorSum
  import Fletcher
  import Luhn

  /**
    One constructor per two-argument checksum function. internet_checksum
    is OneSum16 and fletcher_checksum is Fletcher16.
   */
  datatype Algorithm =
    | OneSum8 | OneSum16 | OneSum32
    | OneSum8Textbook | OneSum16Textbook | OneSum32Textbook
    | Sum8 | Sum16 | Sum32 | Sum64
    | Xor8 | Xor16 | Xor32 | Xor64
    | Fletcher8 | Fletcher16 | Fletcher32
    | Luhn256

  /** The size in bytes of the function's return type. */
  function Width(a: Algorithm): nat
  {
    match a
    case OneSum8 | OneSum8Textbook | Sum8 | Xor8 | Fletcher8 | Luhn256 => 1
    case OneSum16 | OneSum16Textbook | Sum16 | Xor16 | Fletcher16 => 2
    case OneSum32 | OneSum32Textbook | Sum32 | Xor32 | Fletcher32 => 4
    case Sum64 | Xor64 => 8
  }

  /** The one's-complement sums, whose value for no data is all ones. */
  predicate OnesComplement(a: Algorithm)
  {
    a.OneSum8? || a.OneSum16? || a.OneSum32? || a.OneSum8Textbook? || a.OneSum16Textbook? || a.OneSum32Textbook?
  }

  /** The value the function returns for data, which always fits its return type. */
  function Compute(a: Algorithm, data: seq<Byte>): (r: nat)
    ensures r < Pow256(Width(a))
  {
    Pow256Values();
    match a
    case OneSum8 | OneSum8Textbook => OneSum.Checksum(data, 1)
    case OneSum16 | OneSum16Textbook => OneSum.Checksum(data, 2)
    case OneSum32 => OneSum.Optimized32AsWritten(data)
    case OneSum32Textbook => OneSum.Textbook32AsWritten(data)
    case Sum8 => TwoSum.Sum(data, 1)
    case Sum16 => TwoSum.Sum(data, 2)
    case Sum32 => TwoSum.Sum(data, 4)
    case Sum64 => TwoSum.Sum64AsWritten(data)
    case Xor8 => XorSum.Checksum(data, 1)
    case Xor16 => XorSum.Checksum(data, 2)
    case Xor32 => XorSum.Checksum(data, 4)
    case Xor64 => XorSum.Checksum(data, 8)
    case Fletcher8 => Fletcher.Checksum8(data)
    case Fletcher16 => Fletcher.Fletcher16AsWritten(data)
    case Fletcher32 => Fletcher.Checksum32(data)
    case Luhn256 => Luhn.CheckDigit(data, 0)
  }

  /** A call through the function pointer: runs the algorithm's loop. */
  method Run(a: Algorithm, data: seq<Byte>) returns (r: nat)
    ensures r == Compute(a, data) && r < Pow256(Width(a))
  {
    match a
    case OneSum8 => r := OneSum.OneSum8(data);
    case OneSum16 => r := OneSum.OneSum16(data);
    case OneSum32 => r := OneSum.OneSum32(data);
    case OneSum8Textbook => r := OneSum.OneSum8Textbook(data);
    case OneSum16Textbook => r := OneSum.OneSum16Textbook(data);
    case OneSum32Textbook => r := OneSum.OneSum32Textbook(data);
    case Sum8 => r := TwoSum.Sum8(data);
    case Sum16 => r := TwoSum.Sum16(data);
    case Sum32 => r := TwoSum.Sum32(data);
    case Sum64 => r := TwoSum.Sum64(data);
    case Xor8 => r := XorSum.Xor8(data);
    case Xor16 => r := XorSum.Xor16(data);
    case Xor32 => r := XorSum.Xor32(data);
    case Xor64 => r := XorSum.Xor64(data);
    case Fletcher8 => r := Fletcher.Fletcher8(data);
    case Fletcher16 => r := Fletcher.Fletcher16(data);
    case Fletcher32 => r := Fletcher.Fletcher32(data);
    case Luhn256 => r := Luhn.Luhn256Checksum(data);
  }

  /** No data gives all ones for the one's-complement sums and 0 for every other algorithm. */
  lemma ComputeOfEmpty(a: Algorithm)
    ensures Compute(a, []) == if OnesComplement(a) then Pow256(Width(a)) - 1 else 0
  {
    Pow256Values();
    match a
    case OneSum8 | OneSum8Textbook => OneSum.ChecksumOfEmpty(1);
    case OneSum16 | OneSum16Textbook => OneSum.ChecksumOfEmpty(2);
    case OneSum32 =>
      assert OneSum.Blocks32([], 0, 0) == 0;
    case OneSum32Textbook =>
      assert Words([], 0, 0, 4) == 0;
    case Sum8 => TwoSum.SumOfEmpty(1);
    case Sum16 => TwoSum.SumOfEmpty(2);
    case Sum32 => TwoSum.SumOfEmpty(4);
    case Sum64 =>
      assert Words([], 0, 0, 8) == 0;
    case Xor8 => XorSum.ChecksumOfEmpty(1);
    case Xor16 => XorSum.ChecksumOfEmpty(2);
    case Xor32 => XorSum.ChecksumOfEmpty(4);
    case Xor64 => XorSum.ChecksumOfEmpty(8);
    case Fletcher8 =>
      assert Fletcher.Reference(Fletcher.Nibbles([]), 0, 15) == Fletcher.Sums(0, 0);
    case Fletcher16 =>
      assert Fletcher.Blocks([], 0, 0, Fletcher.Sums(0, 0), Fletcher.LIMIT16, 255) == Fletcher.Sums(0, 0);
    case Fletcher32 =>
      assert Fletcher.Reference(Fletcher.Words16([]), 0, 65535) == Fletcher.Sums(0, 0);
    case Luhn256 => Luhn.LuhnOfEmpty(0);
  }
}
