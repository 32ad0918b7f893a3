/**
 * `getFunctionId`: the 32-bit id under which a guest binary imports a
 * library function. The export name is followed by a fixed 16-byte suffix,
 * hashed with SHA-1 (FIPS 180-4, section 6.1), and the first four digest
 * bytes are read as a native (little-endian) u32. SHA-1 itself is not part
 * of this model: it is a parameter that always yields 20 bytes.
 */
module FunctionIds {
  import opened Bytes

  /** A SHA-1 digest function: any message to a 20-byte digest. */
  type Sha1 = f: seq<byte> -> seq<byte> | forall msg :: |f(msg)| == 20
    witness (msg: seq<byte>) => [0, 0, 0, 0, 0, 0, 0, 0, 0, 0, 0, 0, 0, 0, 0, 0, 0, 0, 0, 0]

  /** The symbol name suffix, the 16 bytes of the C string literal. */
  const Suffix: seq<byte> :=
    [0x67, 0x59, 0x65, 0x99, 0x04, 0x25, 0x04, 0x90, 0x56, 0x64, 0x27, 0x49, 0x94, 0x89, 0x74, 0x1A]

  /** `strlen`: the number of bytes of lit before its first NUL (all of them if none). */
  function CStrLen(lit: seq<byte>): (k: nat)
    ensures k <= |lit|
    ensures forall i :: 0 <= i < k ==> lit[i] != 0
    ensures k < |lit| ==> lit[k] == 0
  {
    NulFrom(lit, 0)
  }

  /** The index of the first NUL of lit at or after i, or |lit| if there is none. */
  function NulFrom(lit: seq<byte>, i: nat): (k: nat)
    requires i <= |lit|
    ensures i <= k <= |lit|
    ensures forall j :: i <= j < k ==> lit[j] != 0
    ensures k < |lit| ==> lit[k] == 0
    decreases |lit| - i
  {
    if i == |lit| || lit[i] == 0 then i else NulFrom(lit, i + 1)
  }

  /** `std::string + const char*`: appends the literal up to its first NUL. */
  function CStrAppend(s: seq<byte>, lit: seq<byte>): seq<byte>
  {
    s + lit[..CStrLen(lit)]
  }

  /** None of the suffix bytes is NUL. */
  lemma SuffixHasNoNul()
    ensures |Suffix| == 16 && forall i :: 0 <= i < |Suffix| ==> Suffix[i] != 0
  {
  }

  /**
   * The message that is hashed, `name + suffix`: since the suffix has no NUL,
   * all 16 of its bytes follow the name.
   */
  function HashInput(name: seq<byte>): (msg: seq<byte>)
    ensures |msg| == |name| + 16
    ensures msg[..|name|] == name && msg[|name|..] == Suffix
  {
    SuffixHasNoNul();
    assert CStrLen(Suffix) == 16;
    CStrAppend(name, Suffix)
  }

  /** Distinct names give distinct hash inputs. */
  lemma HashInputInjective(n1: seq<byte>, n2: seq<byte>)
    ensures HashInput(n1) == HashInput(n2) <==> n1 == n2
  {
    if HashInput(n1) == HashInput(n2) {
      assert |n1| == |n2|;
      assert n1 == HashInput(n1)[..|n1|];
    }
  }

  /** `getFunctionId`: the first four digest bytes of name + suffix as a little-endian u32. */
  function GetFunctionId(sha1: Sha1, name: seq<byte>): (id: u32)
    ensures LeBytes(id, 4) == sha1(HashInput(name))[..4]
  {
    var digest := sha1(HashInput(name));
    LeBytesOfValue(digest[..4]);
    Pow256Widths();
    LeValue(digest[..4])
  }

  /**
   * Two names share an id exactly when their digests agree in the first
   * four bytes: the truncation is the only source of collisions besides
   * SHA-1 itself.
   */
  lemma SameIdIffSameDigestPrefix(sha1: Sha1, n1: seq<byte>, n2: seq<byte>)
    ensures GetFunctionId(sha1, n1) == GetFunctionId(sha1, n2)
        <==> sha1(HashInput(n1))[..4] == sha1(HashInput(n2))[..4]
  {
    Pow256Widths();
    var d1, d2 := sha1(HashInput(n1))[..4], sha1(HashInput(n2))[..4];
    LeValueInjective(d1, d2);
  }
}
