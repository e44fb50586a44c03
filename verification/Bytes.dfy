/** Octets and the big-endian layouts of Python's `struct` that the packet code uses. */
module Bytes {

  type Byte = b: int | 0 <= b < 256

  type Bytes = seq<Byte>

  predicate FitsByte(n: int) { 0 <= n < 256 }

  function U16(n: int): (b: Bytes)
    requires 0 <= n < 0x1_0000
    ensures |b| == 2
  {
    [n / 256, n % 256]
  }

  function U32(n: int): (b: Bytes)
    requires 0 <= n < 0x1_0000_0000
    ensures |b| == 4
  {
    [n / 0x100_0000, n / 0x1_0000 % 256, n / 256 % 256, n % 256]
  }

  /** Reads octets most significant first. */
  function Value(b: Bytes): nat {
    if b == [] then 0 else 256 * Value(b[..|b| - 1]) + b[|b| - 1]
  }

  lemma ValueOfU16(n: int)
    requires 0 <= n < 0x1_0000
    ensures Value(U16(n)) == n
  {
    var b := U16(n);
    assert b[..1] == [n / 256] && b[..1][..0] == [];
    assert Value(b[..1]) == n / 256;
  }

  lemma ValueOfTriple(a: Byte, b: Byte, c: Byte)
    ensures Value([a, b, c]) == 256 * (256 * a as int + b as int) + c as int
  {
    assert [a, b, c][..2] == [a, b] && [a, b][..1] == [a] && [a][..0] == [];
    assert Value([a]) == a;
    assert Value([a, b]) == 256 * a as int + b as int;
  }

  lemma ValueOfU32(n: int)
    requires 0 <= n < 0x1_0000_0000
    ensures Value(U32(n)) == n
  {
    var b := U32(n);
    assert b[..3][..2] == b[..2] && b[..2][..1] == b[..1] && b[..1][..0] == [];
    assert Value(b[..1]) == n / 0x100_0000;
    assert Value(b[..2]) == n / 0x1_0000;
    assert Value(b[..3]) == n / 256;
  }

  /** A Python slice: bounds past the end are pulled in, and a stop before the start is empty. */
  function Slice<T>(s: seq<T>, start: nat, stop: nat): seq<T> {
    var lo := if start < |s| then start else |s|;
    var hi := if stop < |s| then stop else |s|;
    if lo < hi then s[lo..hi] else []
  }
}
