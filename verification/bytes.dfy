/**
 Bytes and 32-bit register words as they travel over the PN5180 host interface.
 Every multi-byte register value is sent least-significant byte first; this module
 models Python's `int.to_bytes(n, 'little')` and `int.from_bytes(b, 'little')` and
 the bit-field extractions the driver performs on decoded words.
 */
module Bytes {

  type byte = x: int | 0 <= x < 256

  /** An unsigned 32-bit register value or mask. */
  type u32 = x: int | 0 <= x < 0x1_0000_0000

  function Pow256(n: nat): (r: nat)
    ensures r > 0
  {
    if n == 0 then 1 else 256 * Pow256(n - 1)
  }

  /** `int.from_bytes(b, 'little')`. */
  function FromLE(b: seq<byte>): (v: nat)
    ensures v < Pow256(|b|)
  {
    if |b| == 0 then 0 else b[0] + 256 * FromLE(b[1..])
  }

  /** `v.to_bytes(n, 'little')`; Python raises OverflowError when `v` does not fit. */
  function ToLE(v: nat, n: nat): (b: seq<byte>)
    requires v < Pow256(n)
    ensures |b| == n
    ensures FromLE(b) == v
  {
    if n == 0 then [] else
      var rest := ToLE(v / 256, n - 1);
      assert ([v % 256] + rest)[1..] == rest;
      [v % 256] + rest
  }

  /** The four bytes of a register value, least significant first. */
  function LE4(v: u32): (b: seq<byte>)
    ensures |b| == 4
    ensures FromLE(b) == v
  {
    assert Pow256(4) == 0x1_0000_0000;
    ToLE(v, 4)
  }

  /** Encoding after decoding gives the bytes back: little-endian is a bijection on n-byte strings. */
  lemma {:induction false} ToLEFromLE(b: seq<byte>)
    ensures ToLE(FromLE(b), |b|) == b
  {
    if |b| > 0 {
      var v, tail := FromLE(b), FromLE(b[1..]);
      ToLEFromLE(b[1..]);
      DigitSplit(b[0], tail);
      assert ToLE(v, |b|) == [b[0]] + ToLE(tail, |b| - 1);
      assert [b[0]] + b[1..] == b;
    }
  }

  /** Lowest base-256 digit and the rest of `d + 256 * x`. */
  lemma DigitSplit(d: byte, x: nat)
    ensures (d + 256 * x) % 256 == d && (d + 256 * x) / 256 == x
  {
  }

  /** A four-byte word written out as a weighted sum of its bytes. */
  lemma FromLE4(b: seq<byte>)
    requires |b| == 4
    ensures FromLE(b) == b[0] as int + 0x100 * b[1] as int + 0x1_0000 * b[2] as int + 0x100_0000 * b[3] as int
  {
    assert b[3..][1..] == [];
    assert FromLE(b[3..]) == b[3];
    assert b[2..][1..] == b[3..];
    assert FromLE(b[2..]) == b[2] + 0x100 * FromLE(b[3..]);
    assert b[1..][1..] == b[2..];
    assert FromLE(b[1..]) == b[1] + 0x100 * FromLE(b[2..]);
  }

  /**
   `f` is a single bit of a 32-bit word. The positive divisors of 2^31 are exactly the powers
   of two up to it.
   */
  predicate IsBit(f: nat)
  {
    0 < f && 0x8000_0000 % f == 0
  }

  /** `x & flag != 0` for a single-bit `flag`: that bit of `x` is set. */
  predicate HasFlag(x: nat, flag: nat)
    requires IsBit(flag)
    ensures HasFlag(x, flag) ==> flag <= x
  {
    (x / flag) % 2 == 1
  }
}
