// The ECC matrices of the R10000 secondary cache (include/sys/R10k.h:797-848):
// nine check bits over a 128-bit quadword, seven over a 26-bit tag.
module CacheEcc {
  import opened ParityCode

  // ---- 64-bit words and their bits ----

  predicate Bit(w: bv64, i: bv6) {
    (w >> i) & 1 == 1
  }

  predicate BitAt(w: bv64, i: int)
    requires 0 <= i < 64
  {
    Bit(w, i as bv6)
  }

  // The positions of the set bits of a word.
  function BitsOf(w: bv64): set<bv6> {
    set i: int | 0 <= i < 64 && BitAt(w, i) :: i as bv6
  }

  function BitCount(w: bv64): nat {
    |BitsOf(w)|
  }

  lemma InBitsOf(w: bv64, b: bv6)
    ensures b in BitsOf(w) <==> Bit(w, b)
  {
    if Bit(w, b) {
      assert BitAt(w, b as int);
    }
  }

  lemma BitAnd(m: bv64, w: bv64, b: bv6)
    ensures Bit(m & w, b) <==> Bit(m, b) && Bit(w, b)
  {}

  // The index of the lowest set bit.
  function LowIndex(w: bv64): bv6 {
    var i5: bv6 := if w & 0xFFFFFFFF == 0 then 32 else 0;
    var w5 := w >> i5;
    var i4: bv6 := if w5 & 0xFFFF == 0 then 16 else 0;
    var w4 := w5 >> i4;
    var i3: bv6 := if w4 & 0xFF == 0 then 8 else 0;
    var w3 := w4 >> i3;
    var i2: bv6 := if w3 & 0xF == 0 then 4 else 0;
    var w2 := w3 >> i2;
    var i1: bv6 := if w2 & 3 == 0 then 2 else 0;
    var w1 := w2 >> i1;
    var i0: bv6 := if w1 & 1 == 0 then 1 else 0;
    i5 + i4 + i3 + i2 + i1 + i0
  }

  lemma LowIndexIsSet(w: bv64)
    requires w != 0
    ensures Bit(w, LowIndex(w))
  {}

  lemma BitXor(m: bv64, w: bv64, b: bv6)
    ensures Bit(m ^ w, b) <==> Bit(m, b) != Bit(w, b)
  {}

  lemma SameBitsSameWord(v: bv64, w: bv64)
    requires BitsOf(v) == BitsOf(w)
    ensures v == w
  {
    if v != w {
      var b := LowIndex(v ^ w);
      LowIndexIsSet(v ^ w);
      BitXor(v, w, b);
      InBitsOf(v, b);
      InBitsOf(w, b);
    }
  }

  // ---- the matrices ----

  const E9_8H: bv64 := 0xFF03FFE306FF0721
  const E9_8L: bv64 := 0x62D0B0D000202080
  const E9_7H: bv64 := 0xFFFF030FFF0703B2
  const E9_7L: bv64 := 0x100848C802909020
  const E9_6H: bv64 := 0x83FFFF030503FF5C
  const E9_6L: bv64 := 0x808404C438484850
  const E9_5H: bv64 := 0x42808012FCFBFC3F
  const E9_5L: bv64 := 0xFD6202228504C408
  const E9_4H: bv64 := 0x214043FF808084FF
  const E9_4L: bv64 := 0xFF210101FFC20284
  const E9_3H: bv64 := 0x10232081444046BF
  const E9_3L: bv64 := 0xFC3FDF3F4C010142
  const E9_2H: bv64 := 0x0A12121823202100
  const E9_2L: bv64 := 0xBAFFC0A0D0FFFFC1
  const E9_1H: bv64 := 0x0409094413121008
  const E9_1L: bv64 := 0x4DC0E0FFE0C0FFFF
  const E9_0H: bv64 := 0x010404200B0D0B47
  const E9_0L: bv64 := 0x04E0FF60C3FFC0FF

  const E7_6W_ST: bv64 := 0x0A8F888
  const E7_5W_ST: bv64 := 0x114FF04
  const E7_4W_ST: bv64 := 0x2620F42
  const E7_3W_ST: bv64 := 0x29184F0
  const E7_2W_ST: bv64 := 0x10A40FF
  const E7_1W_ST: bv64 := 0x245222F
  const E7_0W_ST: bv64 := 0x1FF1111

  const SCDATA_ECC_BITS := 9
  const SCTAG_ECC_BITS := 7
  const SCDATA_MASK: bv64 := 0xFFFFFFFFFFFFFFFF
  const SCTAG_MASK: bv64 := 0x3FFFFFF

  // The two protected arrays of the cache.
  datatype Array = Data | Tag

  function Checks(a: Array): int {
    if a.Data? then SCDATA_ECC_BITS else SCTAG_ECC_BITS
  }

  // Row mask of check bit k: high and low doubleword.  A tag has no high part.
  function MaskH(a: Array, k: int): bv64 {
    if a.Tag? then 0
    else if k == 8 then E9_8H else if k == 7 then E9_7H else if k == 6 then E9_6H
    else if k == 5 then E9_5H else if k == 4 then E9_4H else if k == 3 then E9_3H
    else if k == 2 then E9_2H else if k == 1 then E9_1H else E9_0H
  }

  function MaskL(a: Array, k: int): bv64 {
    if a.Tag? then
      if k == 6 then E7_6W_ST else if k == 5 then E7_5W_ST else if k == 4 then E7_4W_ST
      else if k == 3 then E7_3W_ST else if k == 2 then E7_2W_ST else if k == 1 then E7_1W_ST
      else E7_0W_ST
    else if k == 8 then E9_8L else if k == 7 then E9_7L else if k == 6 then E9_6L
    else if k == 5 then E9_5L else if k == 4 then E9_4L else if k == 3 then E9_3L
    else if k == 2 then E9_2L else if k == 1 then E9_1L else E9_0L
  }

  // Where a stored bit lives: in the high or low doubleword, or among the check bits.
  datatype Place = Hi(bit: bv6) | Lo(bit: bv6) | Check(k: int)

  function HiPlaces(bits: set<bv6>): set<Place> {
    set b | b in bits :: Hi(b)
  }

  function LoPlaces(bits: set<bv6>): set<Place> {
    set b | b in bits :: Lo(b)
  }

  // The set bits of a quadword.
  function Quadword(hi: bv64, lo: bv64): set<Place> {
    HiPlaces(BitsOf(hi)) + LoPlaces(BitsOf(lo))
  }

  function Row(a: Array, k: int): set<Place> {
    Quadword(MaskH(a, k), MaskL(a, k)) + {Check(k)}
  }

  function DataPlaces(a: Array): set<Place> {
    if a.Data? then Quadword(SCDATA_MASK, SCDATA_MASK) else Quadword(0, SCTAG_MASK)
  }

  // The parity-check code of an array, read off its row masks.
  function EccCode(a: Array): Code<Place> {
    Code(seq(Checks(a), k => Row(a, k)), seq(Checks(a), k => Check(k)), DataPlaces(a))
  }

  // ---- words as sets of places ----

  lemma InQuadword(hi: bv64, lo: bv64, p: Place)
    ensures p in Quadword(hi, lo) <==>
      match p { case Hi(b) => Bit(hi, b) case Lo(b) => Bit(lo, b) case Check(_) => false }
  {
    match p
    case Hi(b) => InBitsOf(hi, b);
    case Lo(b) => InBitsOf(lo, b);
    case Check(_) =>
  }

  // Different quadwords are different sets.
  lemma QuadwordIsExact(hi: bv64, lo: bv64, hi': bv64, lo': bv64)
    ensures Quadword(hi, lo) == Quadword(hi', lo') <==> hi == hi' && lo == lo'
  {
    if Quadword(hi, lo) == Quadword(hi', lo') {
      forall b
        ensures b in BitsOf(hi) <==> b in BitsOf(hi')
        ensures b in BitsOf(lo) <==> b in BitsOf(lo')
      {
        assert Hi(b) in Quadword(hi, lo) <==> b in BitsOf(hi);
        assert Lo(b) in Quadword(hi, lo) <==> b in BitsOf(lo);
        assert Hi(b) in Quadword(hi', lo') <==> b in BitsOf(hi');
        assert Lo(b) in Quadword(hi', lo') <==> b in BitsOf(lo');
      }
      SameBitsSameWord(hi, hi');
      SameBitsSameWord(lo, lo');
    }
  }

  // ---- columns ----

  // Does the bit stored at p enter check k?
  predicate Enters(a: Array, p: Place, k: int) {
    match p
    case Hi(b) => Bit(MaskH(a, k), b)
    case Lo(b) => Bit(MaskL(a, k), b)
    case Check(j) => j == k
  }

  lemma InRow(a: Array, p: Place, k: int)
    requires 0 <= k < Checks(a)
    ensures p in EccCode(a).rows[k] <==> Enters(a, p, k)
  {
    InQuadword(MaskH(a, k), MaskL(a, k), p);
  }

  // Do p and q enter the same checks of the array?
  predicate SameChecks(a: Array, p: Place, q: Place) {
    && Enters(a, p, 0) == Enters(a, q, 0) && Enters(a, p, 1) == Enters(a, q, 1)
    && Enters(a, p, 2) == Enters(a, q, 2) && Enters(a, p, 3) == Enters(a, q, 3)
    && Enters(a, p, 4) == Enters(a, q, 4) && Enters(a, p, 5) == Enters(a, q, 5)
    && Enters(a, p, 6) == Enters(a, q, 6)
    && (a.Data? ==> Enters(a, p, 7) == Enters(a, q, 7) && Enters(a, p, 8) == Enters(a, q, 8))
  }

  lemma SameCheck(a: Array, p: Place, q: Place, k: int)
    requires Column(EccCode(a), p) == Column(EccCode(a), q) && 0 <= k < Checks(a)
    ensures Enters(a, p, k) == Enters(a, q, k)
  {
    InRow(a, p, k);
    InRow(a, q, k);
    assert k in Column(EccCode(a), p) <==> k in Column(EccCode(a), q);
  }

  lemma SameColumn(a: Array, p: Place, q: Place)
    requires Column(EccCode(a), p) == Column(EccCode(a), q)
    ensures SameChecks(a, p, q)
  {
    SameCheck(a, p, q, 0); SameCheck(a, p, q, 1); SameCheck(a, p, q, 2); SameCheck(a, p, q, 3);
    SameCheck(a, p, q, 4); SameCheck(a, p, q, 5); SameCheck(a, p, q, 6);
    if a.Data? {
      SameCheck(a, p, q, 7); SameCheck(a, p, q, 8);
    }
  }

  predicate Odd3(a: bool, b: bool, c: bool) {
    (a != b) != c
  }

  // Does p enter an odd number of the array's checks?
  predicate OddChecks(a: Array, p: Place) {
    var seven := Odd3(
      Odd3(Enters(a, p, 0), Enters(a, p, 1), Enters(a, p, 2)),
      Odd3(Enters(a, p, 3), Enters(a, p, 4), Enters(a, p, 5)),
      Enters(a, p, 6));
    if a.Data? then Odd3(seven, Enters(a, p, 7), Enters(a, p, 8)) else seven
  }

  lemma OddUnrolled<P>(rows: seq<set<P>>, p: P)
    requires |rows| >= 7
    ensures InOddRows(rows, p, 7) == Odd3(
              Odd3(p in rows[0], p in rows[1], p in rows[2]),
              Odd3(p in rows[3], p in rows[4], p in rows[5]),
              p in rows[6])
    ensures |rows| >= 9 ==> InOddRows(rows, p, 9) == Odd3(InOddRows(rows, p, 7), p in rows[7], p in rows[8])
  {
    assert !InOddRows(rows, p, 0);
    assert InOddRows(rows, p, 2) == ((p in rows[0]) != (p in rows[1]));
    assert InOddRows(rows, p, 4) == Odd3(InOddRows(rows, p, 2), p in rows[2], p in rows[3]);
    assert InOddRows(rows, p, 6) == Odd3(InOddRows(rows, p, 4), p in rows[4], p in rows[5]);
  }

  lemma OddChecksOddColumn(a: Array, p: Place)
    ensures |Column(EccCode(a), p)| % 2 == 1 <==> OddChecks(a, p)
  {
    var rows := EccCode(a).rows;
    OddRowsOddColumn(rows, p, Checks(a));
    OddUnrolled(rows, p);
    InRow(a, p, 0); InRow(a, p, 1); InRow(a, p, 2); InRow(a, p, 3); InRow(a, p, 4); InRow(a, p, 5);
    InRow(a, p, 6);
    if a.Data? {
      InRow(a, p, 7); InRow(a, p, 8);
    }
  }

  // ---- the two matrices, as bit-vector formulas over their row masks ----

  // No two bits of the high doubleword enter the same checks.
  lemma HighColumnsDiffer(a: bv6, b: bv6)
    requires SameChecks(Data, Hi(a), Hi(b))
    ensures a == b
  {}

  lemma LowColumnsDiffer(a: bv6, b: bv6)
    requires SameChecks(Data, Lo(a), Lo(b))
    ensures a == b
  {}

  lemma HalvesDiffer(a: bv6, b: bv6)
    ensures !SameChecks(Data, Hi(a), Lo(b))
  {}

  lemma TagColumnsDiffer(a: bv6, b: bv6)
    requires a < 26 && b < 26 && SameChecks(Tag, Lo(a), Lo(b))
    ensures a == b
  {}

  // No data bit has the column of a check bit.
  lemma HighNotUnit(b: bv6, j: int)
    ensures !SameChecks(Data, Hi(b), Check(j))
  {}

  lemma LowNotUnit(b: bv6, j: int)
    ensures !SameChecks(Data, Lo(b), Check(j))
  {}

  lemma TagNotUnit(b: bv6, j: int)
    requires b < 26
    ensures !SameChecks(Tag, Lo(b), Check(j))
  {}

  // Every bit enters an odd number of checks.
  lemma HighOdd(b: bv6)
    ensures OddChecks(Data, Hi(b))
  {}

  lemma LowOdd(b: bv6)
    ensures OddChecks(Data, Lo(b))
  {}

  lemma TagOdd(b: bv6)
    requires b < 26
    ensures OddChecks(Tag, Lo(b))
  {}

  lemma CheckOdd(a: Array, k: int)
    requires 0 <= k < Checks(a)
    ensures OddChecks(a, Check(k))
  {}

  lemma DataMaskBits(b: bv6)
    ensures Bit(SCDATA_MASK, b) && !Bit(0, b)
    ensures Bit(SCTAG_MASK, b) <==> b < 26
  {}

  // ---- the codes ----

  predicate IsPlace(a: Array, p: Place) {
    match p
    case Hi(_) => a.Data?
    case Lo(b) => a.Data? || b < 26
    case Check(k) => 0 <= k < Checks(a)
  }

  lemma SpaceIsPlaces(a: Array, p: Place)
    ensures p in Space(EccCode(a)) <==> IsPlace(a, p)
  {
    match p
    case Hi(b) =>
      InQuadword(SCDATA_MASK, SCDATA_MASK, p);
      InQuadword(0, SCTAG_MASK, p);
      DataMaskBits(b);
    case Lo(b) =>
      InQuadword(SCDATA_MASK, SCDATA_MASK, p);
      InQuadword(0, SCTAG_MASK, p);
      DataMaskBits(b);
    case Check(k) =>
      if 0 <= k < Checks(a) {
        assert EccCode(a).units[k] == p;
      }
  }

  lemma PlaceOdd(a: Array, p: Place)
    requires IsPlace(a, p)
    ensures |Column(EccCode(a), p)| % 2 == 1
  {
    OddChecksOddColumn(a, p);
    match p
    case Hi(b) => HighOdd(b);
    case Lo(b) => if a.Data? { LowOdd(b); } else { TagOdd(b); }
    case Check(k) => CheckOdd(a, k);
  }

  lemma SameColumnSamePlace(a: Array, p: Place, q: Place)
    requires IsPlace(a, p) && IsPlace(a, q)
    requires Column(EccCode(a), p) == Column(EccCode(a), q)
    ensures p == q
  {
    match (p, q)
    case (Hi(b), Hi(b')) => SameColumn(a, p, q); HighColumnsDiffer(b, b');
    case (Lo(b), Lo(b')) =>
      SameColumn(a, p, q);
      if a.Data? { LowColumnsDiffer(b, b'); } else { TagColumnsDiffer(b, b'); }
    case (Hi(b), Lo(b')) => SameColumn(a, p, q); HalvesDiffer(b, b');
    case (Lo(b), Hi(b')) => SameColumn(a, q, p); HalvesDiffer(b', b);
    case (Hi(b), Check(j)) => SameColumn(a, p, q); HighNotUnit(b, j);
    case (Check(j), Hi(b)) => SameColumn(a, q, p); HighNotUnit(b, j);
    case (Lo(b), Check(j)) => SameColumn(a, p, q); if a.Data? { LowNotUnit(b, j); } else { TagNotUnit(b, j); }
    case (Check(j), Lo(b)) => SameColumn(a, q, p); if a.Data? { LowNotUnit(b, j); } else { TagNotUnit(b, j); }
    case (Check(i), Check(j)) => SameCheck(a, p, q, i);
  }

  lemma CodeIsSystematic(a: Array)
    ensures Systematic(EccCode(a))
  {}

  // Both matrices correct one flipped bit and detect two.
  lemma CodeIsSecDed(a: Array)
    ensures SecDed(EccCode(a))
  {
    var c := EccCode(a);
    CodeIsSystematic(a);
    forall p | p in Space(c)
      ensures |Column(c, p)| % 2 == 1
    {
      SpaceIsPlaces(a, p);
      PlaceOdd(a, p);
    }
    forall p, q | p in Space(c) && q in Space(c) && Column(c, p) == Column(c, q)
      ensures p == q
    {
      SpaceIsPlaces(a, p);
      SpaceIsPlaces(a, q);
      SameColumnSamePlace(a, p, q);
    }
  }

  // ---- check bits as the masks define them ----

  lemma {:induction false} PlacesSize(bits: set<bv6>)
    ensures |HiPlaces(bits)| == |bits| && |LoPlaces(bits)| == |bits|
    decreases bits
  {
    if |bits| != 0 {
      var b := Any(bits);
      PlacesSize(bits - {b});
      assert HiPlaces(bits) == HiPlaces(bits - {b}) + {Hi(b)};
      assert LoPlaces(bits) == LoPlaces(bits - {b}) + {Lo(b)};
    }
  }

  lemma Any<T>(s: set<T>) returns (x: T)
    requires |s| != 0
    ensures x in s
  {
    x :| x in s;
  }

  lemma QuadwordSize(hi: bv64, lo: bv64)
    ensures |Quadword(hi, lo)| == BitCount(hi) + BitCount(lo)
  {
    PlacesSize(BitsOf(hi));
    PlacesSize(BitsOf(lo));
    assert HiPlaces(BitsOf(hi)) !! LoPlaces(BitsOf(lo));
  }

  lemma BitsOfAnd(m: bv64, w: bv64)
    ensures BitsOf(m & w) == BitsOf(m) * BitsOf(w)
  {
    forall b
      ensures b in BitsOf(m & w) <==> b in BitsOf(m) && b in BitsOf(w)
    {
      InBitsOf(m, b);
      InBitsOf(w, b);
      InBitsOf(m & w, b);
      BitAnd(m, w, b);
    }
  }

  lemma RowAndWord(a: Array, hi: bv64, lo: bv64, k: int)
    ensures Row(a, k) * Quadword(hi, lo) == Quadword(MaskH(a, k) & hi, MaskL(a, k) & lo)
  {
    BitsOfAnd(MaskH(a, k), hi);
    BitsOfAnd(MaskL(a, k), lo);
    PlacesMeet(BitsOf(MaskH(a, k)), BitsOf(MaskL(a, k)), k, BitsOf(hi), BitsOf(lo));
  }

  lemma PlacesMeet(mh: set<bv6>, ml: set<bv6>, k: int, hi: set<bv6>, lo: set<bv6>)
    ensures (HiPlaces(mh) + LoPlaces(ml) + {Check(k)}) * (HiPlaces(hi) + LoPlaces(lo)) ==
              HiPlaces(mh * hi) + LoPlaces(ml * lo)
  {}

  // Check bit k of a word is the parity of the bit counts of its doublewords
  // under row mask k.
  lemma CheckBitIsMaskParity(a: Array, hi: bv64, lo: bv64, k: nat)
    requires k < Checks(a)
    ensures k in Syndrome(EccCode(a), Quadword(hi, lo)) <==>
            (BitCount(MaskH(a, k) & hi) + BitCount(MaskL(a, k) & lo)) % 2 == 1
  {
    hide Quadword, BitCount, MaskH, MaskL, BitsOf;
    RowAndWord(a, hi, lo, k);
    QuadwordSize(MaskH(a, k) & hi, MaskL(a, k) & lo);
  }

  // Is the number of set bits that two doublewords have under two masks odd?
  predicate OddUnder(mh: bv64, ml: bv64, hi: bv64, lo: bv64) {
    (BitCount(mh & hi) + BitCount(ml & lo)) % 2 == 1
  }

  lemma StoredCheck(a: Array, hi: bv64, lo: bv64, k: nat, mh: bv64, ml: bv64)
    requires k < Checks(a) && Fits(a, hi, lo) && MaskH(a, k) == mh && MaskL(a, k) == ml
    ensures Check(k) in Encode(EccCode(a), Quadword(hi, lo)) <==> OddUnder(mh, ml, hi, lo)
  {
    hide EccCode, Quadword, Encode, Syndrome, MaskH, MaskL, Checks, Fits, BitCount, OddColumns, DistinctColumns;
    CodeIsSecDed(a);
    FitsIsData(a, hi, lo);
    UnitOf(a, k);
    EncodeParts(EccCode(a), Quadword(hi, lo));
    CheckBitIsMaskParity(a, hi, lo, k);
  }

  lemma UnitOf(a: Array, k: nat)
    requires k < Checks(a)
    ensures |EccCode(a).rows| == |EccCode(a).units| == Checks(a) && EccCode(a).units[k] == Check(k)
  {}

  // The check bits stored with a quadword, each by its own pair of masks ...
  lemma DataChecks(hi: bv64, lo: bv64)
    ensures var stored := Encode(EccCode(Data), Quadword(hi, lo));
            && (Check(8) in stored <==> OddUnder(E9_8H, E9_8L, hi, lo))
            && (Check(7) in stored <==> OddUnder(E9_7H, E9_7L, hi, lo))
            && (Check(6) in stored <==> OddUnder(E9_6H, E9_6L, hi, lo))
            && (Check(5) in stored <==> OddUnder(E9_5H, E9_5L, hi, lo))
            && (Check(4) in stored <==> OddUnder(E9_4H, E9_4L, hi, lo))
            && (Check(3) in stored <==> OddUnder(E9_3H, E9_3L, hi, lo))
            && (Check(2) in stored <==> OddUnder(E9_2H, E9_2L, hi, lo))
            && (Check(1) in stored <==> OddUnder(E9_1H, E9_1L, hi, lo))
            && (Check(0) in stored <==> OddUnder(E9_0H, E9_0L, hi, lo))
  {
    hide Encode, EccCode, Quadword, OddUnder;
    StoredCheck(Data, hi, lo, 8, E9_8H, E9_8L);
    StoredCheck(Data, hi, lo, 7, E9_7H, E9_7L);
    StoredCheck(Data, hi, lo, 6, E9_6H, E9_6L);
    StoredCheck(Data, hi, lo, 5, E9_5H, E9_5L);
    StoredCheck(Data, hi, lo, 4, E9_4H, E9_4L);
    StoredCheck(Data, hi, lo, 3, E9_3H, E9_3L);
    StoredCheck(Data, hi, lo, 2, E9_2H, E9_2L);
    StoredCheck(Data, hi, lo, 1, E9_1H, E9_1L);
    StoredCheck(Data, hi, lo, 0, E9_0H, E9_0L);
  }

  // ... and those stored with a tag.
  lemma TagChecks(tag: bv64)
    requires tag <= SCTAG_MASK
    ensures var stored := Encode(EccCode(Tag), Quadword(0, tag));
            && (Check(6) in stored <==> OddUnder(0, E7_6W_ST, 0, tag))
            && (Check(5) in stored <==> OddUnder(0, E7_5W_ST, 0, tag))
            && (Check(4) in stored <==> OddUnder(0, E7_4W_ST, 0, tag))
            && (Check(3) in stored <==> OddUnder(0, E7_3W_ST, 0, tag))
            && (Check(2) in stored <==> OddUnder(0, E7_2W_ST, 0, tag))
            && (Check(1) in stored <==> OddUnder(0, E7_1W_ST, 0, tag))
            && (Check(0) in stored <==> OddUnder(0, E7_0W_ST, 0, tag))
  {
    hide Encode, EccCode, Quadword, OddUnder;
    StoredCheck(Tag, 0, tag, 6, 0, E7_6W_ST);
    StoredCheck(Tag, 0, tag, 5, 0, E7_5W_ST);
    StoredCheck(Tag, 0, tag, 4, 0, E7_4W_ST);
    StoredCheck(Tag, 0, tag, 3, 0, E7_3W_ST);
    StoredCheck(Tag, 0, tag, 2, 0, E7_2W_ST);
    StoredCheck(Tag, 0, tag, 1, 0, E7_1W_ST);
    StoredCheck(Tag, 0, tag, 0, 0, E7_0W_ST);
  }

  // ---- main results, for every word of either array ----

  // A tag has 26 bits and no high doubleword.
  predicate Fits(a: Array, hi: bv64, lo: bv64) {
    a.Tag? ==> hi == 0 && lo <= SCTAG_MASK
  }

  lemma FitsIsData(a: Array, hi: bv64, lo: bv64)
    requires Fits(a, hi, lo)
    ensures Quadword(hi, lo) <= EccCode(a).data
  {
    forall p | p in Quadword(hi, lo)
      ensures p in DataPlaces(a)
    {
      InQuadword(hi, lo, p);
      InQuadword(SCDATA_MASK, SCDATA_MASK, p);
      InQuadword(0, SCTAG_MASK, p);
      BitFits(lo, p.bit);
      DataMaskBits(p.bit);
    }
  }

  lemma BitFits(lo: bv64, b: bv6)
    ensures lo <= SCTAG_MASK && Bit(lo, b) ==> b < 26
  {}

  // Whatever is stored and whichever of its places are flipped: none decodes as
  // clean, one is corrected in place, two are reported; an even number is never
  // "corrected" and an odd number never taken for clean.
  lemma StoredWordProtected(a: Array, hi: bv64, lo: bv64, flips: set<Place>)
    requires Fits(a, hi, lo) && flips <= Space(EccCode(a))
    ensures var d := Quadword(hi, lo);
            var outcome := Decode(EccCode(a), Xor(Encode(EccCode(a), d), flips));
            && (|flips| == 0 ==> outcome == Clean(d))
            && (|flips| == 1 ==> outcome.Corrected? && outcome.data == d && flips == {outcome.flipped})
            && (|flips| == 2 ==> outcome == Uncorrectable)
            && (|flips| % 2 == 0 ==> !outcome.Corrected?)
            && (|flips| % 2 == 1 ==> !outcome.Clean?)
  {
    var c, d := EccCode(a), Quadword(hi, lo);
    CodeIsSecDed(a);
    FitsIsData(a, hi, lo);
    ProtectedBy(c, d, flips);
  }

  // Encodings of different words differ in at least four places.
  lemma StoredWordsFarApart(a: Array, hi: bv64, lo: bv64, hi': bv64, lo': bv64)
    requires Fits(a, hi, lo) && Fits(a, hi', lo') && (hi != hi' || lo != lo')
    ensures |Xor(Encode(EccCode(a), Quadword(hi, lo)), Encode(EccCode(a), Quadword(hi', lo')))| >= 4
  {
    CodeIsSecDed(a);
    FitsIsData(a, hi, lo);
    FitsIsData(a, hi', lo');
    QuadwordIsExact(hi, lo, hi', lo');
    MinimumDistance(EccCode(a), Quadword(hi, lo), Quadword(hi', lo'));
  }

  // Three flips can pass for one: bits 63, 62 and 61 of the high doubleword
  // together fail the checks of its bit 33.
  lemma ThreeFlipsMistaken(hi: bv64, lo: bv64)
    ensures var d := Quadword(hi, lo);
            Decode(EccCode(Data), Xor(Encode(EccCode(Data), d), TRIPLE)) == Corrected(Xor(d, TRIPLE + {Hi(33)}), Hi(33))
  {
    var c, d := EccCode(Data), Quadword(hi, lo);
    CodeIsSecDed(Data);
    FitsIsData(Data, hi, lo);
    FitsIsData(Data, SCDATA_MASK, 0);
    TripleInData();
    TripleSyndrome();
    MistakenFor(c, d, TRIPLE, Hi(33));
  }

  const TRIPLE := {Hi(63), Hi(62), Hi(61)}

  lemma TripleInData()
    ensures TRIPLE + {Hi(33)} <= EccCode(Data).data
  {
    forall b ensures Hi(b) in DataPlaces(Data) {
      InQuadword(SCDATA_MASK, SCDATA_MASK, Hi(b));
      DataMaskBits(b);
    }
  }

  lemma TripleSyndrome()
    ensures Syndrome(EccCode(Data), TRIPLE) == Column(EccCode(Data), Hi(33))
  {
    var c := EccCode(Data);
    SyndromeOfThree(c, Hi(63), Hi(62), Hi(61));
    forall k: nat
      ensures k in Column(c, Hi(33)) <==> k in Xor(Xor(Column(c, Hi(63)), Column(c, Hi(62))), Column(c, Hi(61)))
    {
      TripleEnters(k);
    }
  }

  lemma TripleEnters(k: nat)
    ensures var c := EccCode(Data);
            k in Column(c, Hi(33)) <==> Odd3(k in Column(c, Hi(63)), k in Column(c, Hi(62)), k in Column(c, Hi(61)))
  {
    if k < SCDATA_ECC_BITS {
      InRow(Data, Hi(63), k); InRow(Data, Hi(62), k); InRow(Data, Hi(61), k); InRow(Data, Hi(33), k);
      TripleMasks(k);
    }
  }

  lemma TripleMasks(k: int)
    ensures Enters(Data, Hi(33), k) == Odd3(Enters(Data, Hi(63), k), Enters(Data, Hi(62), k), Enters(Data, Hi(61), k))
  {}
}
