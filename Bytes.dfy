/**
 * Fixed-width integers of the emulator (`u8` .. `u64`, `s32`, `s64`) as
 * subset types of `int`, two's-complement reinterpretation, and the
 * little-endian byte codec that the x86 host uses to lay integers out in
 * memory.
 */
module Bytes {

  type byte = x: int | 0 <= x < 0x100
  type u16 = x: int | 0 <= x < 0x1_0000
  type u32 = x: int | 0 <= x < 0x1_0000_0000
  type u64 = x: int | 0 <= x < 0x1_0000_0000_0000_0000
  type s8 = x: int | -0x80 <= x < 0x80
  type s16 = x: int | -0x8000 <= x < 0x8000
  type s32 = x: int | -0x8000_0000 <= x < 0x8000_0000
  type s64 = x: int | -0x8000_0000_0000_0000 <= x < 0x8000_0000_0000_0000

  const U32_LIMIT: int := 0x1_0000_0000
  const U64_LIMIT: int := 0x1_0000_0000_0000_0000

  /** 256^n: the number of distinct values of an n-byte integer. */
  function Pow256(n: nat): (p: nat)
    ensures p >= 1
  {
    if n == 0 then 1 else 256 * Pow256(n - 1)
  }

  /** The widths the emulator uses, in bytes: 1, 2, 4 and 8. */
  lemma Pow256Widths()
    ensures Pow256(1) == 0x100 && Pow256(2) == 0x1_0000
    ensures Pow256(4) == U32_LIMIT && Pow256(8) == U64_LIMIT
  {
    assert Pow256(2) == 256 * Pow256(1);
    assert Pow256(4) == 256 * 256 * Pow256(2);
    assert Pow256(8) == 256 * 256 * 256 * 256 * Pow256(4) by {
      assert Pow256(8) == 256 * Pow256(7);
      assert Pow256(7) == 256 * Pow256(6);
      assert Pow256(6) == 256 * Pow256(5);
    }
  }

  /** The unsigned value of a byte string read least significant byte first. */
  function LeValue(bs: seq<byte>): (v: nat)
    ensures v < Pow256(|bs|)
  {
    if bs == [] then 0 else bs[0] + 256 * LeValue(bs[1..])
  }

  /** The n-byte little-endian encoding of v. */
  function LeBytes(v: nat, n: nat): (bs: seq<byte>)
    requires v < Pow256(n)
    ensures |bs| == n && LeValue(bs) == v
  {
    if n == 0 then [] else [v % 256] + LeBytes(v / 256, n - 1)
  }

  /** Decoding then re-encoding a byte string gives it back: the codec is a bijection. */
  lemma {:induction false} LeBytesOfValue(bs: seq<byte>)
    ensures LeBytes(LeValue(bs), |bs|) == bs
  {
    if bs != [] {
      LeBytesOfValue(bs[1..]);
      assert LeValue(bs) % 256 == bs[0];
      assert LeValue(bs) / 256 == LeValue(bs[1..]);
    }
  }

  /** Two byte strings of one length are equal exactly when their values are. */
  lemma LeValueInjective(a: seq<byte>, b: seq<byte>)
    requires |a| == |b|
    ensures LeValue(a) == LeValue(b) <==> a == b
  {
    if LeValue(a) == LeValue(b) {
      LeBytesOfValue(a);
      LeBytesOfValue(b);
    }
  }

  /** A byte string reads as zero exactly when every byte is zero. */
  lemma {:induction false} LeValueZero(bs: seq<byte>)
    ensures LeValue(bs) == 0 <==> forall i :: 0 <= i < |bs| ==> bs[i] == 0
  {
    if bs != [] {
      LeValueZero(bs[1..]);
      assert forall i :: 1 <= i < |bs| ==> bs[i] == bs[1..][i - 1];
    }
  }

  /** The value of a concatenation: the second part supplies the high-order bytes. */
  lemma {:induction false} LeValueAppend(a: seq<byte>, b: seq<byte>)
    ensures LeValue(a + b) == LeValue(a) + Pow256(|a|) * LeValue(b)
  {
    if a != [] {
      assert (a + b)[1..] == a[1..] + b;
      LeValueAppend(a[1..], b);
      var x, p, w := LeValue(a[1..]), Pow256(|a| - 1), LeValue(b);
      assert LeValue(a + b) == a[0] + 256 * (x + p * w);
      ScaleSum(x, p, w);
    } else {
      assert a + b == b;
    }
  }

  lemma ScaleSum(x: nat, p: nat, w: nat)
    ensures 256 * (x + p * w) == 256 * x + (256 * p) * w
  {
  }

  /** Reinterprets the bits of an unsigned 8-bit value as a signed one. */
  function Signed8(x: byte): (r: s8)
    ensures (r as int) % 0x100 == x
  {
    if x < 0x80 then x else x - 0x100
  }

  /** Reinterprets the bits of an unsigned 16-bit value as a signed one. */
  function Signed16(x: u16): (r: s16)
    ensures (r as int) % 0x1_0000 == x
  {
    if x < 0x8000 then x else x - 0x1_0000
  }

  /** Reinterprets the bits of an unsigned 32-bit value as a signed one. */
  function Signed32(x: u32): (r: s32)
    ensures (r as int) % U32_LIMIT == x
  {
    if x < 0x8000_0000 then x else x - U32_LIMIT
  }

  /** Reinterprets the bits of an unsigned 64-bit value as a signed one. */
  function Signed64(x: u64): (r: s64)
    ensures (r as int) % U64_LIMIT == x
  {
    if x < 0x8000_0000_0000_0000 then x else x - U64_LIMIT
  }
}
