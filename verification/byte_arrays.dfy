/** Byte arrays as the codec uses them: the private sub-array copy of the
    message class and `Array.CopyTo`, over unbounded integers and, where the
    source's 32-bit arithmetic matters, over explicit 32-bit values. */
module ByteArrays {
  import opened Results

  /** One octet. */
  type byte = b: int | 0 <= b < 0x100

  const Int32Min: int := -0x8000_0000
  const Int32Max: int := 0x7FFF_FFFF

  /** A C# `int`. */
  type int32 = x: int | Int32Min <= x <= Int32Max

  /** Two's-complement wrap-around of an integer into 32 bits, which is what an
      unchecked C# `int` addition produces. */
  function Wrap32(x: int): (r: int32)
    ensures Int32Min <= x <= Int32Max ==> r == x
    ensures (r - x) % 0x1_0000_0000 == 0
  {
    (x - Int32Min) % 0x1_0000_0000 + Int32Min
  }

  /** A freshly allocated byte array of length n: all zero. */
  function Zeros(n: nat): (r: seq<byte>)
    ensures |r| == n
    ensures forall i :: 0 <= i < n ==> r[i] == 0
  {
    seq(n, _ => 0)
  }

  /** The copy loop of the sub-array helper: a new array of `count` bytes
      whose i-th byte is `a[index + i]` while that index is inside `a`, and
      stays zero past the end of `a`. */
  function CopyLoop(a: seq<byte>, index: nat, count: nat): seq<byte>
  {
    seq(count, i => if 0 <= index + i < |a| then a[index + i] else 0)
  }

  /** The sub-array helper as written: both bounds checks use the operands
      as given, except that `index + count` is a 32-bit sum and may wrap
      around. */
  function GetSubArrayAsWritten(a: seq<byte>, index: int32, count: int32): (r: Result<seq<byte>>)
    requires |a| <= Int32Max
    ensures r.Success? ==> 0 <= index < |a| && 0 <= count && |r.value| == count
    ensures r.Success? && count <= |a| - index ==> r.value == a[index..index + count]
  {
    if index >= |a| || index < 0 then Failure(IndexOutOfRange(StartIndex))
    else if Wrap32(index + count) > |a| then Failure(IndexOutOfRange(CopyBounds))
    else if count < 0 then Failure(Overflow)
    else Success(CopyLoop(a, index, count))
  }

  /** The sub-array helper with the bounds check on the exact sum: it copies
      `count` bytes starting at `index`, and throws when the start is outside
      the array, when the copy would run past the end, or when the count is
      negative. */
  function GetSubArray(a: seq<byte>, index: int, count: int): (r: Result<seq<byte>>)
    ensures r.Success? <==> 0 <= index < |a| && 0 <= count && index + count <= |a|
    ensures r.Success? ==> r.value == a[index..index + count]
    ensures !(0 <= index < |a|) ==> r == Failure(IndexOutOfRange(StartIndex))
    ensures 0 <= index < |a| && index + count > |a| ==> r == Failure(IndexOutOfRange(CopyBounds))
    ensures 0 <= index < |a| && index + count <= |a| && count < 0 ==> r == Failure(Overflow)
  {
    if index >= |a| || index < 0 then Failure(IndexOutOfRange(StartIndex))
    else if index + count > |a| then Failure(IndexOutOfRange(CopyBounds))
    else if count < 0 then Failure(Overflow)
    else Success(CopyLoop(a, index, count))
  }

  /** Whenever the 32-bit sum does not wrap, the helper as written and the
      corrected helper agree. */
  lemma AsWrittenAgreesWithoutWrap(a: seq<byte>, index: int32, count: int32)
    requires |a| <= Int32Max
    requires Int32Min <= index + count <= Int32Max
    ensures GetSubArrayAsWritten(a, index, count) == GetSubArray(a, index, count)
  {
  }

  /** A 58-byte array, start 57, count 0x7FFF_FFC7: the sum is 2^31, wraps to
      -2^31, passes the end-of-array check, and the helper as written returns
      an array of 0x7FFF_FFC7 bytes that is mostly zero padding. The
      corrected helper throws. */
  lemma AsWrittenAcceptsWrappedCount()
    ensures var a := Zeros(58);
            && GetSubArrayAsWritten(a, 57, 0x7FFF_FFC7).Success?
            && |GetSubArrayAsWritten(a, 57, 0x7FFF_FFC7).value| == 0x7FFF_FFC7
            && GetSubArray(a, 57, 0x7FFF_FFC7) == Failure(IndexOutOfRange(CopyBounds))
  {
    var a := Zeros(58);
    assert Wrap32(57 + 0x7FFF_FFC7) == Int32Min;
  }

  /** `src.CopyTo(dst, index)`: writes `src` into `dst` starting at `index`,
      leaving the rest of `dst` as it was; throws on a negative index and
      when `src` does not fit. */
  function CopyTo(src: seq<byte>, dst: seq<byte>, index: int): (r: Result<seq<byte>>)
    ensures r.Success? <==> 0 <= index && index + |src| <= |dst|
    ensures index < 0 ==> r == Failure(ArgumentOutOfRange)
    ensures 0 <= index && index + |src| > |dst| ==> r == Failure(Argument)
    ensures r.Success? ==> |r.value| == |dst|
    ensures r.Success? ==> r.value[..index] == dst[..index]
    ensures r.Success? ==> r.value[index..index + |src|] == src
    ensures r.Success? ==> r.value[index + |src|..] == dst[index + |src|..]
  {
    if index < 0 then Failure(ArgumentOutOfRange)
    else if index + |src| > |dst| then Failure(Argument)
    else Success(seq(|dst|, i requires 0 <= i < |dst| =>
                   if index <= i < index + |src| then src[i - index] else dst[i]))
  }
}
