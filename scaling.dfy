/**
 * ScaleResult: the immutable record a scaling task returns. Its fields are Java longs,
 * 64-bit two's-complement integers, so the subtraction in getProcessingTimeInMillis
 * wraps around modulo 2^64.
 */
module Scaling {
  const LongMin: int := -0x8000_0000_0000_0000
  const LongMax: int := 0x7fff_ffff_ffff_ffff
  const LongModulus: int := 0x1_0000_0000_0000_0000

  newtype Long = x: int | -0x8000_0000_0000_0000 <= x < 0x8000_0000_0000_0000

  /** The long that Java's 64-bit arithmetic yields for the exact result x. */
  function WrapLong(x: int): (r: Long)
    ensures (r as int - x) % LongModulus == 0
    ensures LongMin <= x <= LongMax ==> r as int == x
  {
    var m := x % LongModulus;
    if m > LongMax then (m - LongModulus) as Long else m as Long
  }

  /** No other long is congruent to x modulo 2^64: the wrapped value is the only candidate. */
  lemma WrapLongUnique(x: int, y: Long)
    requires (y as int - x) % LongModulus == 0
    ensures y == WrapLong(x)
  {
    var r := WrapLong(x);
    var d := y as int - r as int;
    assert d % LongModulus == 0 by {
      var p, q := (y as int - x) / LongModulus, (r as int - x) / LongModulus;
      assert y as int - x == p * LongModulus;
      assert r as int - x == q * LongModulus;
      assert d == (p - q) * LongModulus;
    }
    assert -LongModulus < d < LongModulus;
  }

  /** The result of one scaled image: timing, sizes, and the file it came from. */
  datatype ScaleResult = ScaleResult(startTime: Long, endTime: Long, startBytes: Long,
                                     thumbBytes: Long, fullBytes: Long, file: string)
  {
    /** endTime - startTime in long arithmetic: the exact difference whenever it fits in a long. */
    function ProcessingTimeInMillis(): (t: Long)
      ensures (t as int - (endTime as int - startTime as int)) % LongModulus == 0
      ensures LongMin <= endTime as int - startTime as int <= LongMax ==>
        t as int == endTime as int - startTime as int
    {
      WrapLong(endTime as int - startTime as int)
    }
  }

  /** When both times are non-negative and end is not before start, the time is exact and not negative. */
  lemma ProcessingTimeNonNegative(r: ScaleResult)
    requires 0 <= r.startTime <= r.endTime
    ensures r.ProcessingTimeInMillis() as int == r.endTime as int - r.startTime as int
    ensures r.ProcessingTimeInMillis() >= 0
  {
  }

  /** Without that bound the subtraction overflows: from the least long to the greatest is -1. */
  lemma ProcessingTimeWrapsAround()
    ensures ScaleResult(LongMin as Long, LongMax as Long, 0, 0, 0, "").ProcessingTimeInMillis() == -1
  {
    var r := ScaleResult(LongMin as Long, LongMax as Long, 0, 0, 0, "");
    assert r.endTime as int - r.startTime as int == LongModulus - 1;
  }
}
