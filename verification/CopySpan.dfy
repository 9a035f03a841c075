// CRM_COPY_FORWARD_SETUP (include/ip32/crmDefs.h:66-72): the byte spans of a
// left-to-right copy of pixels x1 up to x2, each pixel 2^vertexShift bytes.
module CopySpan {
  import opened Words

  function Pow2(n: nat): (p: nat)
    ensures p > 0
  {
    if n == 0 then 1 else 2 * Pow2(n - 1)
  }

  // The pixel a byte belongs to.
  function PixelOf(b: int, vertexShift: nat): int {
    b / Pow2(vertexShift)
  }

  // Are the bytes from first to last, inclusive, those of pixels x1 to x2 - 1?
  ghost predicate SpansPixels(first: int, last: int, x1: int, x2: int, vertexShift: nat) {
    forall b {:trigger PixelOf(b, vertexShift)} :: first <= b <= last <==> x1 <= PixelOf(b, vertexShift) < x2
  }

  const TWO_TO_THE_31 := 0x8000_0000

  predicate IsInt32(v: int) {
    -TWO_TO_THE_31 <= v < TWO_TO_THE_31
  }

  function Int32(v: int): (r: int)
    ensures IsInt32(r)
  {
    (v + TWO_TO_THE_31) % TWO_TO_THE_32 - TWO_TO_THE_31
  }

  // Are the bytes of the pixels from x1 up to x2 numbered within 32 bits?
  predicate Addressable(x1: int, x2: int, vertexShift: nat) {
    -TWO_TO_THE_31 <= x1 * Pow2(vertexShift) && x2 * Pow2(vertexShift) <= TWO_TO_THE_31
  }

  // Bit i of a number in two's complement, found by halving.
  predicate Bit(v: int, i: nat)
    decreases i
  {
    if i == 0 then v % 2 == 1 else Bit(v / 2, i - 1)
  }

  // Has r the bits of v, moved up by n, with zeros below and what leaves 32 bits lost?
  predicate IsShifted(r: int, v: int, n: nat) {
    IsInt32(r) && forall i: nat :: i < 32 ==> (Bit(r, i) <==> i >= n && Bit(v, i - n))
  }

  // The macro, in 32-bit integers.  The bounds are the shifted pixel numbers, the last
  // ones plus the byte offset.  The spans have equal length and lie xoff pixels apart;
  // when there are pixels to copy, they hold exactly the bytes of those pixels if and
  // only if the byte offset is that of a pixel's last byte.
  method CopyForwardSetup(x1: int, x2: int, xoff: int, vertexShift: nat, byteOffset: int)
    returns (xs: int, xs2: int, xd: int, xd2: int)
    requires IsInt32(byteOffset)
    ensures IsShifted(xd, x1, vertexShift) && IsShifted(xs, x1 + xoff, vertexShift)
    ensures IsInt32(xd2) && IsShifted(Int32(xd2 - byteOffset), x2 - 1, vertexShift)
    ensures IsInt32(xs2) && IsShifted(Int32(xs2 - byteOffset), x2 - 1 + xoff, vertexShift)
    ensures (xs - xd) % TWO_TO_THE_32 == (xs2 - xd2) % TWO_TO_THE_32 == xoff * Pow2(vertexShift) % TWO_TO_THE_32
    ensures x1 < x2 && Addressable(x1, x2, vertexShift) ==>
              (SpansPixels(xd, xd2, x1, x2, vertexShift) <==> byteOffset == Pow2(vertexShift) - 1)
    ensures x1 < x2 && Addressable(x1 + xoff, x2 + xoff, vertexShift) ==>
              (SpansPixels(xs, xs2, x1 + xoff, x2 + xoff, vertexShift) <==> byteOffset == Pow2(vertexShift) - 1)
  {
    hide Int32, SpansPixels, PixelOf, Pow2, IsShifted;
    xd2 := Int32((x2 - 1) * Pow2(vertexShift) + byteOffset);
    xs2 := Int32((x2 - 1 + xoff) * Pow2(vertexShift) + byteOffset);
    xd := Int32(x1 * Pow2(vertexShift));
    xs := Int32((x1 + xoff) * Pow2(vertexShift));
    TimesPow2Shifts(x1, vertexShift);
    TimesPow2Shifts(x1 + xoff, vertexShift);
    OffsetOff(x2 - 1, vertexShift, byteOffset);
    OffsetOff(x2 - 1 + xoff, vertexShift, byteOffset);
    Displaced(x1, xoff, Pow2(vertexShift), 0);
    Displaced(x2 - 1, xoff, Pow2(vertexShift), byteOffset);
    if x1 < x2 && Addressable(x1, x2, vertexShift) {
      SpanInWords(x1, x2, vertexShift, byteOffset);
    }
    if x1 < x2 && Addressable(x1 + xoff, x2 + xoff, vertexShift) {
      SpanInWords(x1 + xoff, x2 + xoff, vertexShift, byteOffset);
      assert x2 + xoff - 1 == x2 - 1 + xoff;
    }
  }

  // ---- multiplying by a power of two is shifting ----

  lemma TimesPow2Shifts(v: int, n: nat)
    ensures IsShifted(Int32(v * Pow2(n)), v, n)
  {
    forall i: nat | i < 32
      ensures Bit(Int32(v * Pow2(n)), i) <==> i >= n && Bit(v, i - n)
    {
      LowBitsStay(v * Pow2(n), i);
      BitOfProduct(v, n, i);
    }
  }

  lemma {:induction false} BitOfProduct(v: int, n: nat, i: nat)
    ensures Bit(v * Pow2(n), i) <==> i >= n && Bit(v, i - n)
    decreases n
  {
    if n > 0 {
      var half := v * Pow2(n - 1);
      Doubled(v, Pow2(n - 1));
      assert v * Pow2(n) == 2 * half;
      if i > 0 {
        BitOfProduct(v, n - 1, i - 1);
      }
    }
  }

  lemma Doubled(v: int, p: int)
    ensures v * (2 * p) == 2 * (v * p)
  {}

  // Wrapping keeps the low 32 bits.
  lemma LowBitsStay(v: int, i: nat)
    requires i < 32
    ensures Bit(Int32(v), i) <==> Bit(v, i)
  {
    var q := (v + TWO_TO_THE_31) / TWO_TO_THE_32;
    assert Int32(v) == v - q * TWO_TO_THE_32;
    Pow2Of32();
    HighPartStays(v, -q, 32, i);
  }

  lemma Pow2Of32()
    ensures Pow2(32) == TWO_TO_THE_32
  {
    assert Pow2(8) == 256;
    assert Pow2(16) == 0x1_0000;
    assert Pow2(24) == 0x100_0000;
  }

  lemma {:induction false} HighPartStays(v: int, q: int, m: nat, i: nat)
    requires i < m
    ensures Bit(v + q * Pow2(m), i) <==> Bit(v, i)
    decreases i
  {
    Doubled(q, Pow2(m - 1));
    var half := q * Pow2(m - 1);
    assert (v + 2 * half) / 2 == v / 2 + half && (v + 2 * half) % 2 == v % 2;
    if i > 0 {
      HighPartStays(v / 2, q, m - 1, i - 1);
    }
  }

  lemma OffsetOff(v: int, n: nat, byteOffset: int)
    ensures IsShifted(Int32(Int32(v * Pow2(n) + byteOffset) - byteOffset), v, n)
  {
    hide IsShifted;
    TimesPow2Shifts(v, n);
    TakenOff(v * Pow2(n), byteOffset);
  }

  lemma TakenOff(v: int, d: int)
    ensures Int32(Int32(v + d) - d) == Int32(v)
  {}

  // The bits say which number it is, so there is one shifted number.
  lemma ShiftedIsOne(r: int, r': int, v: int, n: nat)
    requires IsShifted(r, v, n) && IsShifted(r', v, n)
    ensures r == r'
  {
    forall i: nat | i < 32
      ensures Bit(r, i) <==> Bit(r', i)
    {
    }
    Pow2Of32();
    hide Bit;
    SameBits(r, r', 32);
  }

  lemma {:induction false} SameBits(r: int, r': int, m: nat)
    requires forall i: nat :: i < m ==> (Bit(r, i) <==> Bit(r', i))
    requires r - r' < Pow2(m) && r' - r < Pow2(m)
    ensures r == r'
    decreases m
  {
    if m > 0 {
      assert Bit(r, 0) <==> Bit(r', 0);
      forall i: nat | i < m - 1
        ensures Bit(r / 2, i) <==> Bit(r' / 2, i)
      {
        assert Bit(r, i + 1) <==> Bit(r', i + 1);
      }
      SameBits(r / 2, r' / 2, m - 1);
    }
  }

  // So 8-, 16- and 32-bit pixels, by shifts of 0, 1 and 2, have one, two and four bytes.
  lemma PixelSizes(b: int, x: int)
    ensures PixelOf(b, 0) == x <==> b == x
    ensures PixelOf(b, 1) == x <==> 2 * x <= b < 2 * x + 2
    ensures PixelOf(b, 2) == x <==> 4 * x <= b < 4 * x + 4
  {
    assert Pow2(1) == 2 && Pow2(2) == 4;
  }

  lemma Displaced(x: int, xoff: int, p: nat, byteOffset: int)
    ensures (Int32((x + xoff) * p + byteOffset) - Int32(x * p + byteOffset)) % TWO_TO_THE_32 == xoff * p % TWO_TO_THE_32
  {
    TimesAdd(x, xoff, p);
    SameDistance(x * p + byteOffset, xoff * p);
  }

  lemma SameDistance(v: int, d: int)
    ensures (Int32(v + d) - Int32(v)) % TWO_TO_THE_32 == d % TWO_TO_THE_32
  {}

  lemma SpanInWords(x1: int, x2: int, vertexShift: nat, byteOffset: int)
    requires x1 < x2 && Addressable(x1, x2, vertexShift) && IsInt32(byteOffset)
    ensures var first, last := Int32(x1 * Pow2(vertexShift)), Int32((x2 - 1) * Pow2(vertexShift) + byteOffset);
            SpansPixels(first, last, x1, x2, vertexShift) <==> byteOffset == Pow2(vertexShift) - 1
  {
    var p := Pow2(vertexShift);
    TimesAdd(x2 - 1, 1, p);
    EndsBefore(x2, x1 + 1, p, 0);
    PixelInWords(x1, x2, p);
    LastByte(x1 * p, x2 * p, p, byteOffset);
    ExactSpan(x1, x2, vertexShift, Int32((x2 - 1) * p + byteOffset));
  }

  // One of the two ends is a pixel or more away from zero.
  lemma PixelInWords(x1: int, x2: int, p: nat)
    requires x1 < x2 && -TWO_TO_THE_31 <= x1 * p && x2 * p <= TWO_TO_THE_31
    ensures p <= TWO_TO_THE_31
  {
    if x2 >= 1 {
      assert p <= x2 * p;
    } else {
      assert x1 * p + p <= 0;
    }
  }

  // first, end: the first byte of the pixels and the one after their last.
  lemma LastByte(first: int, end: int, p: nat, byteOffset: int)
    requires IsInt32(byteOffset) && 0 < p <= TWO_TO_THE_31
    requires -TWO_TO_THE_31 <= first && first + p <= end <= TWO_TO_THE_31
    ensures Int32(first) == first && (Int32(end - p + byteOffset) == end - 1 <==> byteOffset == p - 1)
  {}

  lemma TimesAdd(a: int, b: int, p: nat)
    ensures (a + b) * p == a * p + b * p
  {}

  lemma EndsBefore(x1: int, x2: int, p: nat, byteOffset: int)
    requires x2 <= x1 && byteOffset < p
    ensures (x2 - 1) * p + byteOffset < x1 * p
  {
    assert (x2 - 1) * p == x2 * p - p;
    assert x2 * p <= x1 * p;
  }

  lemma PixelBytes(b: int, x: int, vertexShift: nat)
    ensures x <= PixelOf(b, vertexShift) <==> x * Pow2(vertexShift) <= b
  {
    var p := Pow2(vertexShift);
    var q := b / p;
    assert q * p <= b < q * p + p;
    if x <= q {
      assert x * p <= q * p;
    } else {
      assert (q + 1) * p <= x * p;
    }
  }

  // From the first byte of its first pixel, a span is that of the pixels exactly when
  // it ends at the last byte of the last.
  lemma ExactSpan(x1: int, x2: int, vertexShift: nat, last: int)
    requires x1 < x2
    ensures SpansPixels(x1 * Pow2(vertexShift), last, x1, x2, vertexShift) <==> last == x2 * Pow2(vertexShift) - 1
  {
    var p := Pow2(vertexShift);
    var first := x1 * p;
    forall b
      ensures x1 <= PixelOf(b, vertexShift) < x2 <==> first <= b < x2 * p
    {
      PixelBytes(b, x1, vertexShift);
      PixelBytes(b, x2, vertexShift);
    }
    assert first <= x2 * p - 1 by {
      EndsBefore(x2, x1 + 1, p, 0);
    }
    if SpansPixels(first, last, x1, x2, vertexShift) {
      var end := x2 * p - 1;
      assert x1 <= PixelOf(end, vertexShift) < x2;
      assert !(x1 <= PixelOf(end + 1, vertexShift) < x2);
    }
  }
}
