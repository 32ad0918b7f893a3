/**
 * Addresses of a raw SPU's problem-state register window (its MMIO
 * aperture). Unit `num` has its window at a fixed stride from a fixed
 * base; the arithmetic is done in `u32`, so it wraps modulo 2^32.
 */
module RawSpu {
  import opened Bytes

  /**
   * The three constants RAW_SPU_OFFSET (the per-unit stride),
   * RAW_SPU_BASE_ADDR and RAW_SPU_PROB_OFFSET, defined outside this model.
   */
  datatype Layout = Layout(stride: u32, baseAddr: u32, probOffset: u32)

  /** `GetRawSPURegAddrByNum`: the u32 address of register `offset` of unit `num`. */
  function RegAddrByNum(l: Layout, num: s32, offset: s32): u32
  {
    (l.stride * num + l.baseAddr + l.probOffset + offset) % U32_LIMIT
  }

  /**
   * `GetRawSPURegAddrById`: the same address for the unit that the CPU
   * manager reports for thread `id`; `threadNum` stands for that lookup.
   */
  function RegAddrById(l: Layout, threadNum: s32 -> s32, id: s32, offset: s32): u32
  {
    RegAddrByNum(l, threadNum(id), offset)
  }

  /** The unwrapped address: the value before truncation to u32. */
  function Unwrapped(l: Layout, num: int, offset: int): int
  {
    l.stride * num + l.baseAddr + l.probOffset + offset
  }

  /** No 32-bit wrap-around: the unwrapped address is already a u32. */
  predicate NoWrap(l: Layout, num: int, offset: int)
  {
    0 <= Unwrapped(l, num, offset) < U32_LIMIT
  }

  /** The unit whose aperture contains address a (reference decoding). */
  function UnitOf(l: Layout, a: int): int
    requires l.stride > 0
  {
    (a - l.baseAddr - l.probOffset) / l.stride
  }

  /** The register offset of address a within its unit's aperture. */
  function OffsetOf(l: Layout, a: int): int
    requires l.stride > 0
  {
    (a - l.baseAddr - l.probOffset) % l.stride
  }

  /** Consecutive unit numbers give addresses exactly one stride apart (mod 2^32). */
  lemma NextUnitIsOneStride(l: Layout, num: s32, offset: s32)
    requires num + 1 < 0x8000_0000
    ensures RegAddrByNum(l, num + 1, offset) == (RegAddrByNum(l, num, offset) + l.stride) % U32_LIMIT
  {
    var u := Unwrapped(l, num, offset);
    assert Unwrapped(l, num + 1, offset) == u + l.stride;
    ModAddCongruent(u, l.stride);
  }

  /** For a fixed unit, moving the offset by d moves the address by d (mod 2^32). */
  lemma OffsetShiftsAddress(l: Layout, num: s32, offset: s32, d: int)
    requires -0x8000_0000 <= offset + d < 0x8000_0000
    ensures RegAddrByNum(l, num, offset + d) == (RegAddrByNum(l, num, offset) + d) % U32_LIMIT
  {
    ModAddCongruent(Unwrapped(l, num, offset), d);
  }

  lemma ModAddCongruent(u: int, d: int)
    ensures (u + d) % U32_LIMIT == (u % U32_LIMIT + d) % U32_LIMIT
  {
    var q := u / U32_LIMIT;
    assert u == q * U32_LIMIT + u % U32_LIMIT;
    assert u + d == (u % U32_LIMIT + d) + q * U32_LIMIT;
    ShiftByMultiple(u % U32_LIMIT + d, q);
  }

  lemma {:induction false} ShiftByMultiple(x: int, q: int)
    ensures (x + q * U32_LIMIT) % U32_LIMIT == x % U32_LIMIT
    decreases if q < 0 then -q else q
  {
    if q > 0 {
      ShiftByMultiple(x, q - 1);
      assert x + q * U32_LIMIT == (x + (q - 1) * U32_LIMIT) + U32_LIMIT;
    } else if q < 0 {
      ShiftByMultiple(x, q + 1);
      assert x + q * U32_LIMIT == (x + (q + 1) * U32_LIMIT) - U32_LIMIT;
    }
  }

  /**
   * Decoding an in-window address recovers its unit and register offset,
   * whenever the offset is below the stride and the sum does not wrap.
   */
  lemma DecodeRegAddr(l: Layout, num: s32, offset: s32)
    requires l.stride > 0 && 0 <= offset < l.stride
    requires NoWrap(l, num, offset)
    ensures UnitOf(l, RegAddrByNum(l, num, offset)) == num
    ensures OffsetOf(l, RegAddrByNum(l, num, offset)) == offset
  {
    var a := RegAddrByNum(l, num, offset);
    assert a == Unwrapped(l, num, offset);
    assert a - l.baseAddr - l.probOffset == l.stride * num + offset;
    DivModUnique(l.stride, num, offset);
  }

  lemma DivModUnique(p: nat, q: int, r: int)
    requires p > 0 && 0 <= r < p
    ensures (p * q + r) / p == q && (p * q + r) % p == r
  {
    var n := p * q + r;
    var q', r' := n / p, n % p;
    assert p * q' + r' == p * q + r;
    assert p * (q' - q) == r - r' by { MulSub(p, q', q); }
    if q' > q {
      MulAtLeast(p, q' - q);
    } else if q' < q {
      MulAtLeast(p, q - q');
      MulSub(p, q, q');
    }
  }

  lemma MulSub(p: int, a: int, b: int)
    ensures p * (a - b) == p * a - p * b
  {
  }

  lemma MulAtLeast(p: nat, k: int)
    requires k >= 1
    ensures p * k >= p
  {
  }

  /**
   * Apertures of different units never overlap: distinct (unit, offset)
   * pairs with the offset below the stride give distinct addresses, as long
   * as neither computation wraps.
   */
  lemma AperturesDisjoint(l: Layout, n1: s32, o1: s32, n2: s32, o2: s32)
    requires l.stride > 0 && 0 <= o1 < l.stride && 0 <= o2 < l.stride
    requires NoWrap(l, n1, o1) && NoWrap(l, n2, o2)
    requires n1 != n2 || o1 != o2
    ensures RegAddrByNum(l, n1, o1) != RegAddrByNum(l, n2, o2)
  {
    DecodeRegAddr(l, n1, o1);
    DecodeRegAddr(l, n2, o2);
  }

  /** Threads on different units get disjoint register windows. */
  lemma ThreadWindowsDisjoint(l: Layout, threadNum: s32 -> s32, id1: s32, id2: s32, o1: s32, o2: s32)
    requires l.stride > 0 && 0 <= o1 < l.stride && 0 <= o2 < l.stride
    requires NoWrap(l, threadNum(id1), o1) && NoWrap(l, threadNum(id2), o2)
    requires threadNum(id1) != threadNum(id2)
    ensures RegAddrById(l, threadNum, id1, o1) != RegAddrById(l, threadNum, id2, o2)
  {
    AperturesDisjoint(l, threadNum(id1), o1, threadNum(id2), o2);
  }
}
