/**
 * The storage shared by the `u128` and `s128` unions: sixteen bytes that the
 * union members view as two 64-bit, four 32-bit, eight 16-bit or sixteen
 * 8-bit lanes. The host is x86, so lane k of width w occupies bytes
 * [w*k, w*k + w) least significant byte first.
 */
module Lanes {
  import opened Bytes

  type Bytes16 = s: seq<byte> | |s| == 16
    witness [0, 0, 0, 0, 0, 0, 0, 0, 0, 0, 0, 0, 0, 0, 0, 0]

  /** Lane k of width w bytes. */
  function Lane(b: Bytes16, w: nat, k: nat): (v: nat)
    requires w * k + w <= 16
    ensures v < Pow256(w)
  {
    LeValue(b[w * k .. w * k + w])
  }

  /** The value with lane k of width w set to v: a store to one union member. */
  function WithLane(b: Bytes16, w: nat, k: nat, v: nat): (r: Bytes16)
    requires w * k + w <= 16 && v < Pow256(w)
    ensures Lane(r, w, k) == v
    ensures forall i :: 0 <= i < 16 && !(w * k <= i < w * k + w) ==> r[i] == b[i]
  {
    var r := b[..w * k] + LeBytes(v, w) + b[w * k + w..];
    assert r[w * k .. w * k + w] == LeBytes(v, w);
    r
  }

  function Lane64(b: Bytes16, k: nat): u64
    requires k < 2
  {
    Pow256Widths();
    Lane(b, 8, k)
  }

  function Lane32(b: Bytes16, k: nat): u32
    requires k < 4
  {
    Pow256Widths();
    Lane(b, 4, k)
  }

  function Lane16(b: Bytes16, k: nat): u16
    requires k < 8
  {
    Pow256Widths();
    Lane(b, 2, k)
  }

  function Lane8(b: Bytes16, k: nat): byte
    requires k < 16
  {
    Pow256Widths();
    Lane(b, 1, k)
  }

  /** The two 64-bit lanes together determine all sixteen bytes. */
  lemma Lane64Determines(a: Bytes16, b: Bytes16)
    ensures Lane64(a, 0) == Lane64(b, 0) && Lane64(a, 1) == Lane64(b, 1) <==> a == b
  {
    if Lane64(a, 0) == Lane64(b, 0) && Lane64(a, 1) == Lane64(b, 1) {
      LeValueInjective(a[0..8], b[0..8]);
      LeValueInjective(a[8..16], b[8..16]);
      assert a == a[0..8] + a[8..16];
      assert b == b[0..8] + b[8..16];
    }
  }

  /** Every byte is zero. */
  predicate IsZero(b: Bytes16)
  {
    forall i :: 0 <= i < 16 ==> b[i] == 0
  }

  /** Both 64-bit lanes are zero exactly when every byte is zero. */
  lemma Lane64Zero(b: Bytes16)
    ensures Lane64(b, 0) == 0 && Lane64(b, 1) == 0 <==> IsZero(b)
  {
    LeValueZero(b[0..8]);
    LeValueZero(b[8..16]);
    assert forall i :: 0 <= i < 8 ==> b[0..8][i] == b[i] && b[8..16][i] == b[8 + i];
  }

  /** A 64-bit lane is made of two 32-bit lanes, the even one least significant. */
  lemma Lane64Halves(b: Bytes16, k: nat)
    requires k < 2
    ensures Lane64(b, k) == Lane32(b, 2 * k) + U32_LIMIT * Lane32(b, 2 * k + 1)
  {
    Pow256Widths();
    assert b[8 * k .. 8 * k + 8] == b[8 * k .. 8 * k + 4] + b[8 * k + 4 .. 8 * k + 8];
    LeValueAppend(b[8 * k .. 8 * k + 4], b[8 * k + 4 .. 8 * k + 8]);
  }

  /**
   * A narrow lane 0 is the low-order part of 64-bit lane 0: on a
   * little-endian host every union member starts at byte 0.
   */
  lemma NarrowLaneIsLowPart(b: Bytes16, w: nat)
    requires w == 1 || w == 2 || w == 4
    ensures Lane(b, w, 0) == Lane64(b, 0) % Pow256(w)
  {
    var lo, hi := b[0..w], b[w..8];
    assert b[0..8] == lo + hi;
    LeValueAppend(lo, hi);
    Pow256Widths();
    ModOfLowPart(LeValue(lo), LeValue(hi), Pow256(w));
  }

  lemma ModOfLowPart(x: nat, y: nat, p: nat)
    requires p == 0x100 || p == 0x1_0000 || p == U32_LIMIT || p == U64_LIMIT
    requires x < p
    ensures (x + p * y) % p == x
  {
  }

  /** The sixteen bytes as one little-endian number: lane 0 is the low half. */
  lemma LeValueOfLanes(b: Bytes16)
    ensures LeValue(b) == Lane64(b, 0) + U64_LIMIT * Lane64(b, 1)
  {
    Pow256Widths();
    assert b == b[0..8] + b[8..16];
    LeValueAppend(b[0..8], b[8..16]);
  }

  /** 64-bit lane 0 is the low 64 bits of the 128-bit little-endian value. */
  lemma Lane64IsLowPart(b: Bytes16)
    ensures Lane64(b, 0) == LeValue(b) % U64_LIMIT
  {
    LeValueOfLanes(b);
    ModOfLowPart(Lane64(b, 0), Lane64(b, 1), U64_LIMIT);
  }
}

/** The `u128` union: the anonymous struct {hi, lo} overlays _u64[0] and _u64[1]. */
module UInt128 {
  import opened Bytes
  import opened Lanes

  datatype U128 = U128(bytes: Bytes16)

  /** The struct member `hi`, the first eight bytes. */
  function Hi(x: U128): u64 { Lane64(x.bytes, 0) }

  /** The struct member `lo`, the last eight bytes. */
  function Lo(x: U128): u64 { Lane64(x.bytes, 1) }

  /**
   * `operator u64`: reads _u64[0], which is the member `hi`; on the
   * little-endian host that is the low 64 bits of the 128-bit value.
   */
  function ToU64(x: U128): (r: u64)
    ensures r == LeValue(x.bytes) % U64_LIMIT
  {
    Lane64IsLowPart(x.bytes);
    Lane64(x.bytes, 0)
  }

  /** `operator u32`: reads _u32[0], the low four bytes of `hi`. */
  function ToU32(x: U128): (r: u32)
    ensures r == Hi(x) % U32_LIMIT
  {
    NarrowLaneIsLowPart(x.bytes, 4);
    Lane32(x.bytes, 0)
  }

  /** `operator u16`: reads _u16[0], the low two bytes of `hi`. */
  function ToU16(x: U128): (r: u16)
    ensures r == Hi(x) % 0x1_0000
  {
    NarrowLaneIsLowPart(x.bytes, 2);
    Lane16(x.bytes, 0)
  }

  /** `operator u8`: reads _u8[0], the lowest byte of `hi`. */
  function ToU8(x: U128): (r: byte)
    ensures r == Hi(x) % 0x100
  {
    NarrowLaneIsLowPart(x.bytes, 1);
    Lane8(x.bytes, 0)
  }

  /** `operator bool`: false exactly for the all-zero value. */
  function ToBool(x: U128): (r: bool)
    ensures !r <==> IsZero(x.bytes)
  {
    Lane64Zero(x.bytes);
    Lane64(x.bytes, 0) != 0 || Lane64(x.bytes, 1) != 0
  }

  /** `operator ==`: compares `lo` and `hi`, which is equality of all sixteen bytes. */
  function Equal(a: U128, b: U128): (r: bool)
    ensures r <==> a == b
  {
    Lane64Determines(a.bytes, b.bytes);
    Lo(a) == Lo(b) && Hi(a) == Hi(b)
  }

  /** `operator !=`: the exact negation of `==`. */
  function NotEqual(a: U128, b: U128): (r: bool)
    ensures r <==> !Equal(a, b)
    ensures r <==> a != b
  {
    Lane64Determines(a.bytes, b.bytes);
    Lo(a) != Lo(b) || Hi(a) != Hi(b)
  }

  /**
   * `From64`: the brace initialiser fills the first union member, the struct,
   * so `hi` becomes 0 and `lo` becomes src. Since `operator u64` reads `hi`,
   * converting back yields 0, not src.
   */
  function From64(src: u64): (r: U128)
    ensures Hi(r) == 0 && Lo(r) == src
    ensures ToU64(r) == 0
  {
    Pow256Widths();
    var r := U128(LeBytes(0, 8) + LeBytes(src, 8));
    assert r.bytes[0..8] == LeBytes(0, 8);
    assert r.bytes[8..16] == LeBytes(src, 8);
    r
  }

  /** Converting From64(1) back to u64 does not give 1. */
  lemma From64DoesNotRoundTrip()
    ensures ToU64(From64(1)) != 1
  {
  }

  /**
   * The evidently intended `From64`: src in the lane that `operator u64`
   * reads, the other lane zero.
   */
  function From64Intended(src: u64): (r: U128)
    ensures ToU64(r) == src && Lo(r) == 0
    ensures ToU32(r) == src % U32_LIMIT
  {
    Pow256Widths();
    var r := U128(LeBytes(src, 8) + LeBytes(0, 8));
    assert r.bytes[0..8] == LeBytes(src, 8);
    assert r.bytes[8..16] == LeBytes(0, 8);
    r
  }

  /**
   * `From32`: starting from uninitialised storage `uninit`, stores src into
   * _u32[0] and zero into _u32[1], _u32[2] and _u32[3], in that order.
   */
  function From32(uninit: U128, src: u32): (r: U128)
    ensures Lane32(r.bytes, 0) == src
    ensures Lane32(r.bytes, 1) == 0 && Lane32(r.bytes, 2) == 0 && Lane32(r.bytes, 3) == 0
  {
    Pow256Widths();
    var b0 := WithLane(uninit.bytes, 4, 0, src);
    var b1 := WithLane(b0, 4, 1, 0);
    var b2 := WithLane(b1, 4, 2, 0);
    var b3 := WithLane(b2, 4, 3, 0);
    assert b3[0..4] == b2[0..4] == b1[0..4] == b0[0..4];
    assert b3[4..8] == b2[4..8] == b1[4..8];
    assert b3[8..12] == b2[8..12];
    U128(b3)
  }

  /** Every lane is written, so the uninitialised storage does not show through. */
  lemma From32Determined(u1: U128, u2: U128, src: u32)
    ensures From32(u1, src) == From32(u2, src)
  {
    var a, b := From32(u1, src).bytes, From32(u2, src).bytes;
    forall k | 0 <= k < 4
      ensures a[4 * k .. 4 * k + 4] == b[4 * k .. 4 * k + 4]
    {
      LeValueInjective(a[4 * k .. 4 * k + 4], b[4 * k .. 4 * k + 4]);
    }
    assert a == a[0..4] + a[4..8] + a[8..12] + a[12..16];
    assert b == b[0..4] + b[4..8] + b[8..12] + b[12..16];
  }

  /** Converting From32(src) to u32 gives back src, and the value is src as a 128-bit number. */
  lemma From32RoundTrip(uninit: U128, src: u32)
    ensures ToU32(From32(uninit, src)) == src
    ensures ToBool(From32(uninit, src)) <==> src != 0
    ensures LeValue(From32(uninit, src).bytes) == src
  {
    var r := From32(uninit, src);
    Lane64Halves(r.bytes, 0);
    Lane64Halves(r.bytes, 1);
    LeValueOfLanes(r.bytes);
  }
}

/**
 * The `s128` union: the struct {hi, lo} of signed 64-bit members overlays the
 * unsigned lanes _i64[0] and _i64[1].
 */
module SInt128 {
  import opened Bytes
  import opened Lanes

  datatype S128 = S128(bytes: Bytes16)

  /** The struct member `hi` (signed), the first eight bytes. */
  function Hi(x: S128): s64 { Signed64(Lane64(x.bytes, 0)) }

  /** The struct member `lo` (signed), the last eight bytes. */
  function Lo(x: S128): s64 { Signed64(Lane64(x.bytes, 1)) }

  /**
   * `operator s64`: _i64[0] reinterpreted as signed, which is `hi`: the low
   * 64 bits of the 128-bit value, read in two's complement.
   */
  function ToS64(x: S128): (r: s64)
    ensures (r as int) % U64_LIMIT == LeValue(x.bytes) % U64_LIMIT
  {
    Lane64IsLowPart(x.bytes);
    Signed64(Lane64(x.bytes, 0))
  }

  /** `operator s32`: _i32[0] reinterpreted as signed, the low four bytes of `hi`. */
  function ToS32(x: S128): (r: s32)
    ensures (r as int) % U32_LIMIT == Lane64(x.bytes, 0) % U32_LIMIT
  {
    NarrowLaneIsLowPart(x.bytes, 4);
    Signed32(Lane32(x.bytes, 0))
  }

  /** `operator s16`: _i16[0] reinterpreted as signed, the low two bytes of `hi`. */
  function ToS16(x: S128): (r: s16)
    ensures (r as int) % 0x1_0000 == Lane64(x.bytes, 0) % 0x1_0000
  {
    NarrowLaneIsLowPart(x.bytes, 2);
    Signed16(Lane16(x.bytes, 0))
  }

  /** `operator s8`: _i8[0] reinterpreted as signed, the lowest byte of `hi`. */
  function ToS8(x: S128): (r: s8)
    ensures (r as int) % 0x100 == Lane64(x.bytes, 0) % 0x100
  {
    NarrowLaneIsLowPart(x.bytes, 1);
    Signed8(Lane8(x.bytes, 0))
  }

  /** `operator bool`: false exactly for the all-zero value. */
  function ToBool(x: S128): (r: bool)
    ensures !r <==> IsZero(x.bytes)
  {
    Lane64Zero(x.bytes);
    Lane64(x.bytes, 0) != 0 || Lane64(x.bytes, 1) != 0
  }

  /** `operator ==`: compares the signed `lo` and `hi`, which is equality of all sixteen bytes. */
  function Equal(a: S128, b: S128): (r: bool)
    ensures r <==> a == b
  {
    Lane64Determines(a.bytes, b.bytes);
    Lo(a) == Lo(b) && Hi(a) == Hi(b)
  }

  /** `operator !=`: the exact negation of `==`. */
  function NotEqual(a: S128, b: S128): (r: bool)
    ensures r <==> !Equal(a, b)
    ensures r <==> a != b
  {
    Lane64Determines(a.bytes, b.bytes);
    Lo(a) != Lo(b) || Hi(a) != Hi(b)
  }

  /**
   * `From64`: the brace initialiser sets `hi` to src (its bits) and `lo` to 0,
   * so converting back to s64 gives src reinterpreted as signed.
   */
  function From64(src: u64): (r: S128)
    ensures ToS64(r) == Signed64(src) && Lo(r) == 0
    ensures Lane64(r.bytes, 0) == src
  {
    Pow256Widths();
    var r := S128(LeBytes(src, 8) + LeBytes(0, 8));
    assert r.bytes[0..8] == LeBytes(src, 8);
    assert r.bytes[8..16] == LeBytes(0, 8);
    r
  }

  /**
   * `From32` as written: starting from uninitialised storage, stores src into
   * _i32[0], zero into _i32[1], then zero into `hi`, which overlays both. The
   * last store erases src; `lo` is never assigned and keeps whatever the
   * storage held.
   */
  function From32(uninit: S128, src: u32): (r: S128)
    ensures Hi(r) == 0
    ensures r.bytes[8..16] == uninit.bytes[8..16]
    ensures ToS32(r) == 0
  {
    Pow256Widths();
    var b0 := WithLane(uninit.bytes, 4, 0, src);
    var b1 := WithLane(b0, 4, 1, 0);
    var b2 := WithLane(b1, 8, 0, 0);
    assert b2[0..4] == LeBytes(0, 8)[0..4];
    assert b2[8..16] == uninit.bytes[8..16];
    S128(b2)
  }

  /** From32(1) converted back to s32 is 0, not 1, whatever the storage held. */
  lemma From32DropsSource(uninit: S128)
    ensures ToS32(From32(uninit, 1)) != 1
  {
  }

  /**
   * Whether From32(src) is true depends only on the bytes left in the
   * unassigned `lo`, never on src.
   */
  lemma From32TruthIgnoresSource(uninit: S128, src: u32)
    ensures ToBool(From32(uninit, src)) <==> exists i :: 8 <= i < 16 && uninit.bytes[i] != 0
  {
    var r := From32(uninit, src);
    var lo := uninit.bytes[8..16];
    assert r.bytes[8..16] == lo;
    assert Lane64(r.bytes, 0) == 0;
    assert Lane64(r.bytes, 1) == LeValue(lo);
    assert ToBool(r) <==> LeValue(lo) != 0;
    LeValueZero(lo);
    assert (exists i :: 8 <= i < 16 && uninit.bytes[i] != 0) <==> (exists j :: 0 <= j < 8 && lo[j] != 0) by {
      assert forall i :: 8 <= i < 16 ==> uninit.bytes[i] == lo[i - 8];
    }
  }

  /**
   * The evidently intended `From32`: src in _i32[0] and every other lane
   * zero, as `u128::From32` does.
   */
  function From32Intended(src: u32): (r: S128)
    ensures ToS32(r) == Signed32(src)
    ensures Lane32(r.bytes, 0) == src
    ensures Lane32(r.bytes, 1) == 0 && Lo(r) == 0
    ensures ToBool(r) <==> src != 0
  {
    Pow256Widths();
    var r := S128(LeBytes(src, 4) + LeBytes(0, 4) + LeBytes(0, 8));
    assert r.bytes[0..4] == LeBytes(src, 4);
    assert r.bytes[4..8] == LeBytes(0, 4);
    assert r.bytes[8..16] == LeBytes(0, 8);
    Lane64Halves(r.bytes, 0);
    r
  }
}
