/** Byte-level helpers of the envelope code: the byte type, the signed 32-bit
    big-endian codec of BinaryPrimitives, and the in-place copies and wipes of
    Buffer.BlockCopy and CryptographicOperations.ZeroMemory. */
module Bytes {

  type byte = b: int | 0 <= b < 256

  const Int32Min: int := -0x8000_0000
  const Int32Max: int := 0x7FFF_FFFF

  predicate IsInt32(x: int) {
    Int32Min <= x <= Int32Max
  }

  /** Unchecked C# `int` arithmetic: the 32-bit two's complement value of x. */
  function WrapInt32(x: int): (r: int)
    ensures IsInt32(r)
    ensures (r - x) % 0x1_0000_0000 == 0
    ensures IsInt32(x) ==> r == x
  {
    (x - Int32Min) % 0x1_0000_0000 + Int32Min
  }

  /** BinaryPrimitives.WriteInt32BigEndian: most significant byte first. */
  function WriteInt32BigEndian(x: int): (r: seq<byte>)
    requires IsInt32(x)
    ensures |r| == 4
  {
    var u: int := if x < 0 then x + 0x1_0000_0000 else x;
    var t1 := u / 0x100;
    var t2 := t1 / 0x100;
    [t2 / 0x100, t2 % 0x100, t1 % 0x100, u % 0x100]
  }

  /** BinaryPrimitives.ReadInt32BigEndian: the four bytes as a signed 32-bit value. */
  function ReadInt32BigEndian(b: seq<byte>): (r: int)
    requires |b| == 4
    ensures IsInt32(r)
    ensures r < 0 <==> b[0] >= 0x80
  {
    var u: int := b[0] as int * 0x100_0000 + b[1] as int * 0x1_0000 + b[2] as int * 0x100 + b[3] as int;
    if u >= 0x8000_0000 then u - 0x1_0000_0000 else u
  }

  lemma ReadWriteInt32(x: int)
    requires IsInt32(x)
    ensures ReadInt32BigEndian(WriteInt32BigEndian(x)) == x
  {
    var u: int := if x < 0 then x + 0x1_0000_0000 else x;
    var t1 := u / 0x100;
    var t2 := t1 / 0x100;
    assert u == t1 * 0x100 + u % 0x100;
    assert t1 == t2 * 0x100 + t1 % 0x100;
    assert t2 == (t2 / 0x100) * 0x100 + t2 % 0x100;
  }

  ghost predicate AllZero(s: seq<byte>) {
    forall i :: 0 <= i < |s| ==> s[i] == 0
  }

  /** A fresh array holding s (`new byte[n]` followed by a fill). */
  method FromSeq(s: seq<byte>) returns (a: array<byte>)
    ensures fresh(a) && a[..] == s
  {
    a := new byte[|s|](i requires 0 <= i < |s| => s[i]);
  }

  /** Buffer.BlockCopy on byte arrays: count bytes of src from srcOffset are
      written to dst at dstOffset; the rest of dst is untouched. The bytes are
      read before any is written, so src and dst may be the same array. */
  method BlockCopy(src: array<byte>, srcOffset: nat, dst: array<byte>, dstOffset: nat, count: nat)
    requires srcOffset + count <= src.Length && dstOffset + count <= dst.Length
    modifies dst
    ensures dst[..dstOffset] == old(dst[..dstOffset])
    ensures dst[dstOffset..dstOffset + count] == old(src[srcOffset..srcOffset + count])
    ensures dst[dstOffset + count..] == old(dst[dstOffset + count..])
  {
    var chunk := src[srcOffset..srcOffset + count];
    var i := 0;
    while i < count
      invariant 0 <= i <= count
      invariant forall k :: 0 <= k < i ==> dst[dstOffset + k] == chunk[k]
      invariant forall k :: 0 <= k < dst.Length && !(dstOffset <= k < dstOffset + i) ==> dst[k] == old(dst[k])
    {
      dst[dstOffset + i] := chunk[i];
      i := i + 1;
    }
    assert forall k :: 0 <= k < count ==> dst[dstOffset..dstOffset + count][k] == chunk[k];
  }

  /** CryptographicOperations.ZeroMemory: every byte of a becomes 0. */
  method ZeroMemory(a: array<byte>)
    modifies a
    ensures AllZero(a[..])
  {
    forall i | 0 <= i < a.Length {
      a[i] := 0;
    }
  }
}
