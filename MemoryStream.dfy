/**
 * `vfsStreamMemory`: a seekable stream over the guest address range
 * [addr, addr + size). Reads and writes are cut short at the end of the
 * range, and a copy that guest memory refuses transfers nothing.
 */
module MemoryStream {
  import opened Bytes

  /** `~0ULL`, the size an unbounded stream records. */
  const UNBOUNDED: u64 := 0xFFFF_FFFF_FFFF_FFFF

  /** Guest memory after storing src at address a, one byte after another. */
  function Stored(m: map<int, byte>, a: int, src: seq<byte>): (r: map<int, byte>)
    ensures forall x :: a <= x < a + |src| ==> x in r && r[x] == src[x - a]
    ensures forall x :: x in m && !(a <= x < a + |src|) ==> x in r && r[x] == m[x]
    ensures forall x :: x in r ==> x in m || a <= x < a + |src|
    decreases |src|
  {
    if src == [] then m
    else
      Stored(m[a := src[0]], a + 1, src[1..])
  }

  /** Every address of [a, a + n) holds a byte. */
  ghost predicate Backed(m: map<int, byte>, a: int, n: int)
  {
    forall x :: a <= x < a + n ==> x in m
  }

  /** The n guest bytes starting at address a. */
  function Loaded(m: map<int, byte>, a: int, n: nat): (r: seq<byte>)
    requires forall x :: a <= x < a + n ==> x in m
    ensures |r| == n && forall i :: 0 <= i < n ==> r[i] == m[a + i]
  {
    seq(n, i requires 0 <= i < n => m[a + i])
  }

  /** Loading what was just stored gives it back. */
  lemma LoadAfterStore(m: map<int, byte>, a: int, src: seq<byte>)
    ensures Backed(Stored(m, a, src), a, |src|)
    ensures Loaded(Stored(m, a, src), a, |src|) == src
  {
    var r := Stored(m, a, src);
    assert forall i :: 0 <= i < |src| ==> a + i in r && r[a + i] == src[i];
  }

  /**
   * Guest memory as far as the stream sees it: a byte per backed address.
   * `Mapped` stands for the range checks of `Memory.CopyToReal` and
   * `Memory.CopyFromReal`.
   */
  class GuestMemory {
    var bytes: map<int, byte>

    constructor (initial: map<int, byte>)
      ensures bytes == initial
    {
      bytes := initial;
    }

    /** The whole range [addr, addr + n) is backed and lies below 2^64. */
    predicate Mapped(addr: int, n: int)
      reads this
    {
      0 <= addr && addr + n <= U64_LIMIT && forall x :: addr <= x < addr + n ==> x in bytes
    }

    /** `Memory.CopyFromReal`: copy n bytes of src to guest address addr, or fail. */
    method CopyFromReal(addr: u64, src: seq<byte>, n: u64) returns (ok: bool)
      requires n <= |src|
      modifies this
      ensures ok == old(Mapped(addr, n))
      ensures bytes == if ok then Stored(old(bytes), addr, src[..n]) else old(bytes)
    {
      ok := Mapped(addr, n);
      if ok {
        bytes := Stored(bytes, addr, src[..n]);
      }
    }

    /** `Memory.CopyToReal`: copy n guest bytes from addr into dst, or fail. */
    method CopyToReal(dst: array<byte>, addr: u64, n: u64) returns (ok: bool)
      requires n <= dst.Length
      modifies dst
      ensures ok == Mapped(addr, n)
      ensures ok ==> dst[..n] == Loaded(bytes, addr, n)
      ensures ok ==> dst[n..] == old(dst[n..])
      ensures !ok ==> dst[..] == old(dst[..])
    {
      ok := Mapped(addr, n);
      if ok {
        forall i | 0 <= i < n {
          dst[i] := bytes[addr + i];
        }
      }
    }
  }

  /** The size `Open` records: a size of 0 means unbounded. */
  function OpenedSize(size: u64): (r: u64)
    ensures r != 0
    ensures size != 0 ==> r == size
  {
    if size != 0 then size else UNBOUNDED
  }

  /**
   * The byte count `Read` and `Write` transfer for a request of `count` at
   * position `pos` of a stream of `size` bytes. The guard `Tell() + size >
   * GetSize()` and the new count `GetSize() - Tell()` are evaluated in u64,
   * so both wrap modulo 2^64.
   */
  function Clamp(pos: u64, count: u64, size: u64): (r: u64)
    ensures pos <= size ==> r <= count
    ensures pos <= size ==> (pos + r) % U64_LIMIT <= size
    ensures pos <= size && pos + count < U64_LIMIT ==> pos + r <= size && (r == count || pos + r == size)
    ensures pos == size && pos + count < U64_LIMIT ==> r == 0
    ensures pos > size && (pos + count) % U64_LIMIT > size ==> r == size - pos + U64_LIMIT
  {
    if (pos + count) % U64_LIMIT > size then (size - pos) % U64_LIMIT else count
  }

  /**
   * The guard wraps: one byte into a 100-byte stream, a request for
   * 2^64 - 1 bytes is not cut short.
   */
  lemma ClampSkippedOnWrap()
    ensures Clamp(1, UNBOUNDED, 100) == UNBOUNDED
  {
  }

  /**
   * Past the end the "clamp" enlarges the request: at position 10 of a
   * 5-byte stream, a request for one byte becomes one for 2^64 - 5 bytes.
   */
  lemma ClampGrowsPastEnd()
    ensures Clamp(10, 1, 5) == U64_LIMIT - 5
    ensures Clamp(10, 1, 5) > 1
  {
  }

  /**
   * The evidently intended count: what remains of the range, computed
   * without wrap-around, and nothing once the position is at or past the end.
   */
  function ClampIntended(pos: u64, count: u64, size: u64): (r: u64)
    ensures r <= count
    ensures pos >= size ==> r == 0
    ensures pos < size ==> pos + r <= size && (r == count || pos + r == size)
  {
    if pos >= size then 0
    else if count > size - pos then size - pos
    else count
  }

  /** Where the source's guard neither wraps nor starts past the end, it is the intended clamp. */
  lemma ClampAgreesWithoutWrap(pos: u64, count: u64, size: u64)
    requires pos <= size && pos + count < U64_LIMIT
    ensures Clamp(pos, count, size) == ClampIntended(pos, count, size)
  {
  }

  /**
   * The stream. `pos` is the position kept by the base class `vfsStream`
   * (its `Tell()`); the base class itself is not part of this model.
   */
  class StreamMemory {
    var addr: u64
    var size: u64
    var pos: u64

    /**
     * The position has not passed the recorded size: `Open` establishes it
     * and `Read` and `Write` keep it.
     */
    ghost predicate Valid()
      reads this
    {
      pos <= size
    }

    /** The default constructor: only the base stream is initialised. */
    constructor Empty()
      ensures Valid() && pos == 0
    {
      pos := 0;
    }

    /** The constructor that opens the range at once. */
    constructor (a: u64, s: u64)
      ensures Valid()
      ensures addr == a && size == OpenedSize(s) && pos == 0
    {
      new;
      Open(a, s);
    }

    /** `Open`: record the range and reset the base stream's position. */
    method Open(a: u64, s: u64)
      modifies this
      ensures Valid()
      ensures addr == a && size == OpenedSize(s) && pos == 0
    {
      addr := a;
      size := if s != 0 then s else UNBOUNDED;
      pos := 0;
    }

    function GetSize(): u64
      reads this
    {
      size
    }

    function Tell(): u64
      reads this
    {
      pos
    }

    /** The guest address the next transfer starts at, `m_addr + Tell()` in u64. */
    function Cursor(): u64
      reads this
    {
      (addr + pos) % U64_LIMIT
    }

    /** The base stream's `Write`/`Read`: advance the position by n and report n. */
    method Advance(n: u64) returns (moved: u64)
      modifies this
      ensures moved == n
      ensures pos == (old(pos) + n) % U64_LIMIT
      ensures addr == old(addr) && size == old(size)
    {
      pos := (pos + n) % U64_LIMIT;
      moved := n;
    }

    /**
     * `Write`: store up to count bytes of src at the cursor. The count is cut
     * to what remains of the range, as `Clamp` computes it (which enlarges it
     * past the end); if guest memory refuses the copy, nothing is written and
     * the position stays. The caller's buffer must hold the clamped count.
     */
    method Write(mem: GuestMemory, src: seq<byte>, count: u64) returns (written: u64)
      requires Clamp(pos, count, size) <= |src|
      modifies this, mem
      ensures old(Valid()) ==> Valid()
      ensures addr == old(addr) && size == old(size)
      ensures var n := Clamp(old(pos), count, size);
              var ok := old(mem.Mapped(Cursor(), n));
              && written == (if ok then n else 0)
              && pos == (if ok then (old(pos) + n) % U64_LIMIT else old(pos))
              && mem.bytes == (if ok then Stored(old(mem.bytes), old(Cursor()), src[..n]) else old(mem.bytes))
    {
      var n := count;
      if (Tell() + n) % U64_LIMIT > GetSize() {
        n := (GetSize() - Tell()) % U64_LIMIT;
      }
      assert n == Clamp(pos, count, size);
      var ok := mem.CopyFromReal(Cursor(), src, n);
      assert ok == old(mem.Mapped(Cursor(), n));
      if !ok {
        return 0;
      }
      written := Advance(n);
    }

    /**
     * `Read`: load up to count bytes from the cursor into dst, cut as `Clamp`
     * computes; a refused copy reads nothing and leaves the position and dst
     * as they were. The caller's buffer must hold the clamped count.
     */
    method Read(mem: GuestMemory, dst: array<byte>, count: u64) returns (read: u64)
      requires Clamp(pos, count, size) <= dst.Length
      modifies this, dst
      ensures old(Valid()) ==> Valid()
      ensures addr == old(addr) && size == old(size)
      ensures var n := Clamp(old(pos), count, size);
              var ok := mem.Mapped(old(Cursor()), n);
              && read == (if ok then n else 0)
              && pos == (if ok then (old(pos) + n) % U64_LIMIT else old(pos))
              && (ok ==> dst[..n] == Loaded(mem.bytes, old(Cursor()), n) && dst[n..] == old(dst[n..]))
              && (!ok ==> dst[..] == old(dst[..]))
    {
      var n := count;
      if (Tell() + n) % U64_LIMIT > GetSize() {
        n := (GetSize() - Tell()) % U64_LIMIT;
      }
      assert n == Clamp(pos, count, size);
      var ok := mem.CopyToReal(dst, Cursor(), n);
      if !ok {
        return 0;
      }
      read := Advance(n);
    }
  }
}
