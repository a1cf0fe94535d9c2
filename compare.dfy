/**
  The default comparator of the list (default_compare): NULL sorts first,
  then shorter buffers before longer ones, then equal-size buffers byte by
  byte as memcmp does. Only the sign of a comparison is modelled.
 */
module ByteCompare {
  import opened Buffers
  import opened ListSpec

  /** size_t is 64 bits wide on the targets the list is built for. */
  const SizeLimit: int := 0x1_0000_0000_0000_0000

  /** Sign of an integer: -1, 0 or 1. */
  function Sign(x: int): (r: int)
    ensures r == 0 <==> x == 0
    ensures r < 0 <==> x < 0
    ensures -1 <= r <= 1
  {
    if x < 0 then -1 else if x > 0 then 1 else 0
  }

  /**
    The sign memcmp returns for two buffers of the same size: the bytes are
    compared as unsigned values, and the first pair that differs decides.
   */
  function LexCompare(a: Buffer, b: Buffer): (r: int)
    requires |a| == |b|
    ensures -1 <= r <= 1
    ensures r == 0 <==> a == b
    decreases |a|
  {
    if a == [] then 0
    else if a[0] < b[0] then -1
    else if a[0] > b[0] then 1
    else
      var rest := LexCompare(a[1..], b[1..]);
      assert a == [a[0]] + a[1..] && b == [b[0]] + b[1..];
      rest
  }

  /**
    LexCompare is memcmp's order: when a and b agree on their first k bytes
    and differ at byte k, that byte alone decides the sign.
   */
  lemma {:induction false} LexCompareFirstDifference(a: Buffer, b: Buffer, k: nat)
    requires |a| == |b| && k < |a|
    requires a[..k] == b[..k] && a[k] != b[k]
    ensures LexCompare(a, b) < 0 <==> a[k] < b[k]
    ensures LexCompare(a, b) > 0 <==> a[k] > b[k]
  {
    if k > 0 {
      assert a[0] == a[..k][0] == b[..k][0] == b[0];
      assert a[1..][..k - 1] == a[..k][1..] == b[..k][1..] == b[1..][..k - 1];
      LexCompareFirstDifference(a[1..], b[1..], k - 1);
    }
  }

  /** Swapping the operands of memcmp flips the sign. */
  lemma {:induction false} LexCompareAntisymmetric(a: Buffer, b: Buffer)
    requires |a| == |b|
    ensures LexCompare(a, b) == -LexCompare(b, a)
    decreases |a|
  {
    if a != [] && a[0] == b[0] {
      LexCompareAntisymmetric(a[1..], b[1..]);
    }
  }

  /** memcmp's "not greater" is transitive. */
  lemma {:induction false} LexCompareTransitive(a: Buffer, b: Buffer, c: Buffer)
    requires |a| == |b| == |c|
    requires LexCompare(a, b) <= 0 && LexCompare(b, c) <= 0
    ensures LexCompare(a, c) <= 0
    decreases |a|
  {
    if a != [] && a[0] == b[0] == c[0] {
      LexCompareTransitive(a[1..], b[1..], c[1..]);
    }
  }

  /**
    default_compare with only the sign of its result kept. A NULL first
    operand sorts before everything, a NULL second operand after everything;
    buffers of different sizes are ordered by size and never by content;
    buffers of equal size are ordered by memcmp. The shortcut for the very
    same buffer returns 0, which memcmp would return anyway, so it needs no
    case of its own here.
   */
  function DefaultCompare(data1: Option<Buffer>, data2: Option<Buffer>): (r: int)
    ensures data1.None? ==> r == -1
    ensures data1.Some? && data2.None? ==> r == 1
    ensures data1.Some? && data2.Some? ==> (r == 0 <==> data1.value == data2.value)
    ensures data1.Some? && data2.Some? && |data1.value| != |data2.value| ==>
              (r < 0 <==> |data1.value| < |data2.value|)
    ensures -1 <= r <= 1
  {
    if data1.None? then -1
    else if data2.None? then 1
    else if |data1.value| != |data2.value| then Sign(|data1.value| - |data2.value|)
    else LexCompare(data1.value, data2.value)
  }

  /** The comparator the list falls back on when the caller passes NULL. */
  function DefaultComparator(): (cmp: Comparator)
    ensures forall a, b :: cmp(a, b) == 0 <==> a == b
    ensures forall a, b :: |a| != |b| ==> (cmp(a, b) < 0 <==> |a| < |b|)
  {
    (a: Buffer, b: Buffer) => DefaultCompare(Some(a), Some(b))
  }

  /** The default comparator orders all buffers totally: first by size, then by content. */
  lemma DefaultComparatorIsTotalPreorder()
    ensures IsTotalPreorder(DefaultComparator())
  {
    var cmp := DefaultComparator();
    forall a, b
      ensures cmp(a, b) > 0 <==> cmp(b, a) < 0
    {
      if |a| == |b| { LexCompareAntisymmetric(a, b); }
    }
    forall a, b, c | cmp(a, b) <= 0 && cmp(b, c) <= 0
      ensures cmp(a, c) <= 0
    {
      if |a| == |b| == |c| { LexCompareTransitive(a, b, c); }
    }
  }

  // ---------------------------------------------------------------------
  // default_compare exactly as written: the size difference is computed in
  // size_t (wrapping modulo 2^64) and then returned as a 32-bit int.
  // ---------------------------------------------------------------------

  /** Conversion of an unsigned value to a 32-bit int: keep the low 32 bits, two's complement. */
  function Int32Of(x: nat): (r: int)
    ensures -0x8000_0000 <= r < 0x8000_0000
    ensures (x - r) % 0x1_0000_0000 == 0
  {
    var low := x % 0x1_0000_0000;
    if low < 0x8000_0000 then low else low - 0x1_0000_0000
  }

  /** `(int)(data1_size - data2_size)` with size_t operands. */
  function SizeDifferenceAsWritten(size1: nat, size2: nat): (r: int)
    requires size1 < SizeLimit && size2 < SizeLimit
    ensures -0x8000_0000 <= r < 0x8000_0000
  {
    Int32Of((size1 - size2) % SizeLimit)
  }

  /** default_compare as written, sizes wrapped as above. */
  function DefaultCompareAsWritten(data1: Option<Buffer>, data2: Option<Buffer>): (r: int)
    requires data1.Some? ==> |data1.value| < SizeLimit
    requires data2.Some? ==> |data2.value| < SizeLimit
    ensures data1.Some? && data2.Some? && |data1.value| == |data2.value| ==>
              r == DefaultCompare(data1, data2)
    ensures data1.None? || data2.None? ==> r == DefaultCompare(data1, data2)
  {
    if data1.None? then -1
    else if data2.None? then 1
    else if |data1.value| != |data2.value| then SizeDifferenceAsWritten(|data1.value|, |data2.value|)
    else LexCompare(data1.value, data2.value)
  }

  /** As long as the sizes differ by less than 2^31 the wrapped difference has the right sign. */
  lemma SizeDifferenceAsWrittenSmall(size1: nat, size2: nat)
    requires size1 < SizeLimit && size2 < SizeLimit
    requires -0x8000_0000 < size1 - size2 < 0x8000_0000
    ensures SizeDifferenceAsWritten(size1, size2) == size1 - size2
  {
    var d := size1 - size2;
    if d < 0 {
      assert (size1 - size2) % SizeLimit == SizeLimit + d;
      assert (SizeLimit + d) % 0x1_0000_0000 == 0x1_0000_0000 + d;
    }
  }

  /**
    Two buffers whose sizes differ by exactly 2^32 bytes: default_compare as
    written calls them equal although they differ.
   */
  lemma DefaultCompareAsWrittenConflates(a: Buffer, b: Buffer)
    requires |a| < SizeLimit && |a| == |b| + 0x1_0000_0000
    ensures a != b
    ensures DefaultCompareAsWritten(Some(a), Some(b)) == 0
    ensures DefaultCompare(Some(a), Some(b)) == 1
  {
    assert (|a| - |b|) % SizeLimit == 0x1_0000_0000;
  }

  /** A 2 GiB buffer compares as smaller than an empty one under default_compare as written. */
  lemma SizeDifferenceAsWrittenMisorders()
    ensures SizeDifferenceAsWritten(0x8000_0000, 0) < 0
    ensures Sign(0x8000_0000 - 0) > 0
  {
  }
}
