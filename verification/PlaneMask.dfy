// The plane-mask macros of the CRIME raster engine (include/ip32/crmDefs.h:88-148).
// A plane mask selects bits of a 32-bit pixel; the engine's byte mask selects
// whole bytes of eight consecutive pixels: bit j governs byte j mod 4 of pixel
// j / 4, counting from the low byte.
module PlaneMask {

  function Byte(x: bv32, b: int): bv32
    requires 0 <= b < 4
  {
    if b == 0 then x & 0xff
    else if b == 1 then (x >> 8) & 0xff
    else if b == 2 then (x >> 16) & 0xff
    else (x >> 24) & 0xff
  }

  // Does every byte of the mask select all of its bits or none?
  predicate Solid(planemask: bv32) {
    forall b :: 0 <= b < 4 ==> Byte(planemask, b) == 0 || Byte(planemask, b) == 0xff
  }

  // Writing one pixel under a plane mask.
  function PlaneWrite(planemask: bv32, dst: bv32, src: bv32): bv32 {
    (dst & !planemask) | (src & planemask)
  }

  // The four mask bits that govern pixel i of a group of eight.
  function Lanes(bytemask: bv32, i: int): bv32
    requires 0 <= i < 8
  {
    if i == 0 then bytemask & 0xf
    else if i == 1 then (bytemask >> 4) & 0xf
    else if i == 2 then (bytemask >> 8) & 0xf
    else if i == 3 then (bytemask >> 12) & 0xf
    else if i == 4 then (bytemask >> 16) & 0xf
    else if i == 5 then (bytemask >> 20) & 0xf
    else if i == 6 then (bytemask >> 24) & 0xf
    else (bytemask >> 28) & 0xf
  }

  // Writing one pixel byte by byte: lane bit b picks the source's byte b.
  function ByteWrite(lanes: bv32, dst: bv32, src: bv32): bv32 {
    (if lanes & 1 != 0 then Byte(src, 0) else Byte(dst, 0))
    | ((if lanes & 2 != 0 then Byte(src, 1) else Byte(dst, 1)) << 8)
    | ((if lanes & 4 != 0 then Byte(src, 2) else Byte(dst, 2)) << 16)
    | ((if lanes & 8 != 0 then Byte(src, 3) else Byte(dst, 3)) << 24)
  }

  // Writing a run of pixels under a byte mask, which repeats every eight.
  function ByteCopy(bytemask: bv32, dst: seq<bv32>, src: seq<bv32>): seq<bv32>
    requires |dst| == |src|
  {
    seq(|dst|, i requires 0 <= i < |dst| => ByteWrite(Lanes(bytemask, i % 8), dst[i], src[i]))
  }

  function PlaneCopy(planemask: bv32, dst: seq<bv32>, src: seq<bv32>): seq<bv32>
    requires |dst| == |src|
  {
    seq(|dst|, i requires 0 <= i < |dst| => PlaneWrite(planemask, dst[i], src[i]))
  }

  // Do the two masks write the same pixels, whatever is copied onto whatever?
  ghost predicate SameCopies(bytemask: bv32, planemask: bv32) {
    forall dst, src :: |dst| == |src| ==> ByteCopy(bytemask, dst, src) == PlaneCopy(planemask, dst, src)
  }

  // One bit out of each byte, in byte order.
  function LaneBits(planemask: bv32): bv32 {
    (planemask & 1) | ((planemask >> 7) & 2) | ((planemask >> 14) & 4) | ((planemask >> 21) & 8)
  }

  // The same four lanes for each of eight pixels.
  function LaneMask(planemask: bv32): bv32 {
    var one := LaneBits(planemask);
    var two := one | (one << 4);
    var four := two | (two << 8);
    four | (four << 16)
  }

  // SET_COPY_BYTEMASK.
  method SetCopyBytemask(planemask: bv32) returns (useBytemask: bool, newmask: bv32)
    ensures useBytemask <==> Solid(planemask)
    ensures useBytemask ==> newmask == LaneMask(planemask) && SameCopies(newmask, planemask)
    ensures !useBytemask ==> newmask == planemask
  {
    var bytemask: bv32 := 0;
    newmask := planemask;
    var tmp := planemask & 0x000000ff;
    if tmp == 0 || tmp == 0xff {
      bytemask := bytemask | (tmp & 0x11);
      tmp := planemask & 0x0000ff00;
      if tmp == 0 || tmp == 0x0ff00 {
        bytemask := bytemask | ((tmp >> 8) & 0x22);
        tmp := planemask & 0x00ff0000;
        if tmp == 0 || tmp == 0x0ff0000 {
          bytemask := bytemask | ((tmp >> 16) & 0x44);
          tmp := planemask & 0xff000000;
          if tmp == 0 || tmp == 0xff000000 {
            bytemask := bytemask | ((tmp >> 24) & 0x88);
            useBytemask := true;
            newmask := bytemask | (bytemask << 8);
            newmask := newmask | (newmask << 16);
          } else {
            useBytemask := false;
          }
        } else {
          useBytemask := false;
        }
      } else {
        useBytemask := false;
      }
    } else {
      useBytemask := false;
    }
    SolidBytes(planemask);
    if useBytemask {
      LaneMaskWorks(planemask);
    }
  }

  // SET_COLORBYTEMASK: one enable bit per byte, all four or none.
  method SetColorBytemask(planemask: bv32) returns (bytemask: bv32)
    ensures bytemask == if Solid(planemask) then 0x78 else 0
  {
    bytemask := 0;
    var tmp := (planemask & 0xff000000) >> 24;
    if tmp == 0 || tmp == 0xff {
      bytemask := 0x40;
      tmp := (planemask & 0xff0000) >> 16;
      if tmp == 0 || tmp == 0xff {
        bytemask := bytemask | 0x20;
        tmp := (planemask & 0xff00) >> 8;
        if tmp == 0 || tmp == 0xff {
          bytemask := bytemask | 0x10;
          tmp := planemask & 0xff;
          if tmp == 0 || tmp == 0xff {
            bytemask := bytemask | 0x8;
          } else {
            bytemask := 0;
          }
        } else {
          bytemask := 0;
        }
      } else {
        bytemask := 0;
      }
    } else {
      bytemask := 0;
    }
    SolidBytes(planemask);
  }

  // ---- proofs ----

  lemma SolidBytes(planemask: bv32)
    ensures Solid(planemask) <==>
            && (planemask & 0xff == 0 || planemask & 0xff == 0xff)
            && (planemask & 0xff00 == 0 || planemask & 0xff00 == 0xff00)
            && (planemask & 0xff0000 == 0 || planemask & 0xff0000 == 0xff0000)
            && (planemask & 0xff000000 == 0 || planemask & 0xff000000 == 0xff000000)
  {
    assert Solid(planemask) <==>
      && (Byte(planemask, 0) == 0 || Byte(planemask, 0) == 0xff)
      && (Byte(planemask, 1) == 0 || Byte(planemask, 1) == 0xff)
      && (Byte(planemask, 2) == 0 || Byte(planemask, 2) == 0xff)
      && (Byte(planemask, 3) == 0 || Byte(planemask, 3) == 0xff);
  }

  lemma LanesOfLaneMask(planemask: bv32, i: int)
    requires 0 <= i < 8
    ensures Lanes(LaneMask(planemask), i) == LaneBits(planemask)
  {}

  lemma LaneBitsOfSolid(planemask: bv32)
    requires Solid(planemask)
    ensures (if LaneBits(planemask) & 1 != 0 then 0xff else 0) == Byte(planemask, 0)
    ensures (if LaneBits(planemask) & 2 != 0 then 0xff else 0) == Byte(planemask, 1)
    ensures (if LaneBits(planemask) & 4 != 0 then 0xff else 0) == Byte(planemask, 2)
    ensures (if LaneBits(planemask) & 8 != 0 then 0xff else 0) == Byte(planemask, 3)
  {
    SolidBytes(planemask);
  }

  lemma ByteOfPlaneWrite(planemask: bv32, dst: bv32, src: bv32, b: int)
    requires 0 <= b < 4
    ensures Byte(planemask, b) == 0 ==> Byte(PlaneWrite(planemask, dst, src), b) == Byte(dst, b)
    ensures Byte(planemask, b) == 0xff ==> Byte(PlaneWrite(planemask, dst, src), b) == Byte(src, b)
  {}

  lemma WordOfBytes(x: bv32)
    ensures x == Byte(x, 0) | (Byte(x, 1) << 8) | (Byte(x, 2) << 16) | (Byte(x, 3) << 24)
  {}

  lemma LaneMaskPixel(planemask: bv32, i: int, dst: bv32, src: bv32)
    requires Solid(planemask) && 0 <= i < 8
    ensures ByteWrite(Lanes(LaneMask(planemask), i), dst, src) == PlaneWrite(planemask, dst, src)
  {
    LanesOfLaneMask(planemask, i);
    LaneBitsOfSolid(planemask);
    var out := PlaneWrite(planemask, dst, src);
    ByteOfPlaneWrite(planemask, dst, src, 0);
    ByteOfPlaneWrite(planemask, dst, src, 1);
    ByteOfPlaneWrite(planemask, dst, src, 2);
    ByteOfPlaneWrite(planemask, dst, src, 3);
    WordOfBytes(out);
  }

  lemma LaneMaskWorks(planemask: bv32)
    requires Solid(planemask)
    ensures SameCopies(LaneMask(planemask), planemask)
  {
    forall dst: seq<bv32>, src: seq<bv32> | |dst| == |src|
      ensures ByteCopy(LaneMask(planemask), dst, src) == PlaneCopy(planemask, dst, src)
    {
      forall i | 0 <= i < |dst|
        ensures ByteWrite(Lanes(LaneMask(planemask), i % 8), dst[i], src[i]) == PlaneWrite(planemask, dst[i], src[i])
      {
        LaneMaskPixel(planemask, i % 8, dst[i], src[i]);
      }
    }
  }

  // Copying all ones onto zeros shows each pixel's lanes.
  lemma LanesDetermined(bytemask: bv32, planemask: bv32, i: int)
    requires SameCopies(bytemask, planemask) && 0 <= i < 8
    ensures ByteWrite(Lanes(bytemask, i), 0, 0xffffffff) == planemask
  {
    var dst: seq<bv32> := seq(8, _ => 0);
    var src: seq<bv32> := seq(8, _ => 0xffffffff);
    CopiesAgreeAt(bytemask, planemask, dst, src, i);
    OnesOverZeros(planemask);
  }

  lemma CopiesAgreeAt(bytemask: bv32, planemask: bv32, dst: seq<bv32>, src: seq<bv32>, i: int)
    requires SameCopies(bytemask, planemask) && |dst| == |src| && 0 <= i < |dst|
    ensures ByteWrite(Lanes(bytemask, i % 8), dst[i], src[i]) == PlaneWrite(planemask, dst[i], src[i])
  {
    ByteCopyAt(bytemask, dst, src, i);
    PlaneCopyAt(planemask, dst, src, i);
  }

  lemma ByteCopyAt(bytemask: bv32, dst: seq<bv32>, src: seq<bv32>, i: int)
    requires |dst| == |src| && 0 <= i < |dst|
    ensures ByteCopy(bytemask, dst, src)[i] == ByteWrite(Lanes(bytemask, i % 8), dst[i], src[i])
  {}

  lemma PlaneCopyAt(planemask: bv32, dst: seq<bv32>, src: seq<bv32>, i: int)
    requires |dst| == |src| && 0 <= i < |dst|
    ensures PlaneCopy(planemask, dst, src)[i] == PlaneWrite(planemask, dst[i], src[i])
  {}

  lemma OnesOverZeros(planemask: bv32)
    ensures PlaneWrite(planemask, 0, 0xffffffff) == planemask
  {}

  // A byte mask can stand in for a plane mask only if its bytes are solid ...
  lemma OnlySolid(bytemask: bv32, planemask: bv32)
    requires SameCopies(bytemask, planemask)
    ensures Solid(planemask)
  {
    LanesDetermined(bytemask, planemask, 0);
    SolidBytes(planemask);
  }

  lemma LanesShow(lanes: bv32, planemask: bv32)
    requires lanes <= 0xf && ByteWrite(lanes, 0, 0xffffffff) == planemask
    ensures lanes == LaneBits(planemask)
  {}

  lemma FourLanes(bytemask: bv32, i: int)
    requires 0 <= i < 8
    ensures Lanes(bytemask, i) <= 0xf
  {}

  lemma LanesForced(bytemask: bv32, planemask: bv32, i: int)
    requires SameCopies(bytemask, planemask) && 0 <= i < 8
    ensures Lanes(bytemask, i) == LaneBits(planemask)
  {
    LanesDetermined(bytemask, planemask, i);
    FourLanes(bytemask, i);
    LanesShow(Lanes(bytemask, i), planemask);
  }

  lemma MaskOfLanes(bytemask: bv32, planemask: bv32)
    requires forall i :: 0 <= i < 8 ==> Lanes(bytemask, i) == LaneBits(planemask)
    ensures bytemask == LaneMask(planemask)
  {
    assert Lanes(bytemask, 0) == Lanes(bytemask, 1) == Lanes(bytemask, 2) == Lanes(bytemask, 3);
    assert Lanes(bytemask, 4) == Lanes(bytemask, 5) == Lanes(bytemask, 6) == Lanes(bytemask, 7);
    assert Lanes(bytemask, 0) == LaneBits(planemask) == Lanes(bytemask, 4);
  }

  // ... and then there is one such byte mask only.
  lemma OneLaneMask(bytemask: bv32, planemask: bv32)
    requires SameCopies(bytemask, planemask)
    ensures bytemask == LaneMask(planemask)
  {
    forall i | 0 <= i < 8
      ensures Lanes(bytemask, i) == LaneBits(planemask)
    {
      LanesForced(bytemask, planemask, i);
    }
    MaskOfLanes(bytemask, planemask);
  }

  // The byte masks that copy like a plane mask: exactly the macro's result when
  // the macro accepts, none when it refuses.
  lemma ByteMaskExists(planemask: bv32, bytemask: bv32)
    ensures SameCopies(bytemask, planemask) <==> Solid(planemask) && bytemask == LaneMask(planemask)
  {
    if Solid(planemask) {
      LaneMaskWorks(planemask);
    }
    if SameCopies(bytemask, planemask) {
      OnlySolid(bytemask, planemask);
      OneLaneMask(bytemask, planemask);
    }
  }
}
