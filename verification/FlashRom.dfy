// Reading and updating a flash ROM (src/libsk/ml/flash.c,
// src/libsk/ml/flashwrite.c).
module FlashRom {
  import opened Checksum
  import opened FlashFormat
  import opened FlashWalk
  import opened FlashImage
  import opened Words

  datatype Status = ESUCCESS | EFAULT

  class FlashROM {
    const g: Geometry
    const rom: array<Word>

    ghost predicate Valid()
      reads rom
    {
      Shaped(g, rom[..])
    }

    constructor (g: Geometry, rom: array<Word>)
      requires Shaped(g, rom[..])
      ensures Valid() && this.g == g && this.rom == rom
    {
      this.g := g;
      this.rom := rom;
    }

    // The magic number at 8 bytes from there, a length of whole words at 12, and 64 bytes
    // that sum to zero.
    ghost predicate HeaderAt(at: nat)
      reads rom
    {
      && at % 4 == 0 && at + 64 <= 4 * rom.Length
      && rom[at / 4 + 2] == 0x53484452 && rom[at / 4 + 3] % 4 == 0 && SumsToZero(rom[at / 4..at / 4 + 16])
    }

    // validHdr, at an offset in bytes.
    method ValidHdr(at: nat) returns (ok: bool)
      requires Valid() && at < 4 * rom.Length
      ensures ok <==> at % PageBytes(g) == 0 && at / PageBytes(g) < g.pages && Pages()[at / PageBytes(g)].Segment?
      ensures ok <==> at % PageBytes(g) == 0 && HeaderAt(at)
    {
      if at % (4 * g.page) != 0 {
        return false;
      }
      PageAtOffset(g, at);
      OffsetOfPage(g, at / (4 * g.page));
      SlotByWords(g, rom[..], at / (4 * g.page));
      ok := SumsHeader(at / (4 * g.page));
    }

    // The rest of validHdr, at a page boundary.
    method SumsHeader(k: nat) returns (ok: bool)
      requires Valid() && k < g.pages
      ensures ok <==> Pages()[k].Segment?
    {
      PageFits(g, k);
      var seg := k * g.page;
      ghost var hdr := Hdr(g, rom[..], k);
      assert hdr == rom[..][seg..seg + HDR_WORDS];
      if rom[seg + FS_MAGIC] != FLASH_SEGMENT_MAGIC || rom[seg + FS_SEGLEN] % 4 != 0 {
        return false;
      }
      var xsum: Word := 0;
      var xp := 0;
      while xp != HDR_WORDS
        invariant 0 <= xp <= HDR_WORDS
        invariant xsum == Sum(hdr[..xp]) % TWO_TO_THE_32
      {
        PassWord(hdr, xp);
        xsum := Add(xsum, rom[seg + xp]);
        xp := xp + 1;
      }
      assert hdr[..xp] == hdr;
      return xsum == 0;
    }

    method ValidPage(k: nat) returns (ok: bool)
      requires Valid() && k < g.pages
      ensures ok <==> Pages()[k].Segment?
    {
      PageFits(g, k);
      OffsetOfPage(g, k);
      ok := ValidHdr(k * (4 * g.page));
    }

    // validBody: sums from body(seg) past segChksum(seg).
    method ValidBody(k: nat) returns (ok: bool)
      requires Valid() && Holds(g, rom[..], k)
      ensures ok <==> BodyOk(g, rom[..], k)
    {
      PageFits(g, k);
      var seg := k * g.page;
      ghost var body := Body(g, rom[..], k);
      var xp := seg + HDR_WORDS;
      var xpLimit := seg + rom[seg + FS_SEGLEN] / 4;
      assert Hdr(g, rom[..], k)[FS_SEGLEN] == rom[seg + FS_SEGLEN];
      var xsum: Word := 0;
      ghost var n := 0;
      while xp != xpLimit
        invariant seg + HDR_WORDS + n == xp <= xpLimit
        invariant xsum == Sum(body[..n]) % TWO_TO_THE_32
        decreases xpLimit - xp
      {
        PassWord(body, n);
        xsum := Add(xsum, rom[xp]);
        xp, n := xp + 1, n + 1;
      }
      assert body[..n] == body;
      return xsum == 0;
    }

    // The segments of the ROM, page by page.
    ghost function Pages(): seq<Slot>
      reads rom
      requires Valid()
    {
      Slots(g, rom[..])
    }

    // nextSegment, from a page or from the start of the ROM, unless that leads below it.
    method NextSegment(from: Option<nat>) returns (next: Option<nat>)
      requires Valid() && (from.Some? ==> from.value < g.pages) && Start(Pages(), from) >= 0
      ensures next == Next(Pages(), from)
    {
      var current := 0;
      if from.Some? {
        current := StepOver(from.value);
      }
      next := ScanPages(current);
      if next.Some? {
        var unnamed := HasNoName(next.value);
        if unnamed {
          next := None;
        }
      }
    }

    // The loop: page by page to the first valid header.
    method ScanPages(start: nat) returns (found: Option<nat>)
      requires Valid()
      ensures found == Scan(Pages(), start)
    {
      var current := start;
      while current < g.pages
        invariant Scan(Pages(), start) == Scan(Pages(), current)
        decreases g.pages - current
      {
        var ok := ValidPage(current);
        if ok {
          return Some(current);
        }
        current := current + 1;
      }
      return None;
    }

    method HasNoName(k: nat) returns (unnamed: bool)
      requires Valid() && k < g.pages && Pages()[k].Segment?
      ensures unnamed <==> !Pages()[k].named
    {
      PageFits(g, k);
      assert Hdr(g, rom[..], k)[FS_LENS] == rom[k * g.page + FS_LENS];
      return ByteOf(rom[k * g.page + FS_LENS], 0) == 0;
    }

    // Past a valid segment, or one page on.
    method StepOver(k: nat) returns (next: int)
      requires Valid() && k < g.pages
      ensures next == After(Pages(), k)
      ensures next == if HeaderAt(Offset(g, k)) then NextPage(g, k, Hdr(g, rom[..], k)[3]) else k + 1
    {
      PageFits(g, k);
      OffsetOfPage(g, k);
      SlotByWords(g, rom[..], k);
      var ok := ValidPage(k);
      if !ok {
        return k + 1;
      }
      var segLen := rom[k * g.page + FS_SEGLEN];
      assert Hdr(g, rom[..], k)[FS_SEGLEN] == segLen;
      var pageSize := 4 * g.page;
      var base := g.first * pageSize;
      var t := (base + k * pageSize + segLen + pageSize - 1) % TWO_TO_THE_32;
      PageOfAddress(g, k, segLen);
      next := (t - t % pageSize - base) / pageSize;
    }

    // Is the name compared with bytes of the ROM only?  No header gives a length of
    // more than 255.
    predicate NameStays(name: seq<Byte>) {
      |name| > 255 || 4 * FS_NAME + |name| <= PageBytes(g)
    }

    // findFlashSegmentHdr: the next segment of that name, wherever its body stands,
    // if the search ends.
    method FindSegmentHdr(name: seq<Byte>, from: Option<nat>) returns (found: Option<nat>)
      requires Valid() && (from.Some? ==> from.value < g.pages) && NameStays(name)
      requires HeaderSearchEnds(g, rom[..], from, name)
      ensures found == Found(Pages(), from, NamedPages(g, rom[..], name))
      ensures found.Some? ==> found.value in NamedPages(g, rom[..], name)
    {
      ghost var slots, stop := Pages(), NamedPages(g, rom[..], name);
      ghost var calls: nat := g.pages + 1;
      LoopEndsExactly(slots, from, stop, {});
      found := from;
      while true
        invariant found.Some? ==> found.value < g.pages
        invariant calls <= g.pages + 1 && EndsWithin(slots, found, stop, {}, calls)
        invariant Found(slots, found, stop) == Found(slots, from, stop)
        decreases calls
      {
        FoundStep(slots, found, stop, {}, calls);
        found := NextSegment(found);
        if found.None? {
          return;
        }
        var matches := MatchName(found.value, name);
        if matches {
          return;
        }
        calls := calls - 1;
      }
    }

    // The length of the name at 16 bytes from there, and the name from 20 on.
    ghost predicate NameAt(at: nat, name: seq<Byte>)
      reads rom
    {
      var bs := Unpack(rom[..]);
      at + 20 + |name| <= |bs| && bs[at + 16] == |name| && bs[at + 20..at + 20 + |name|] == name
    }

    // The name test: as long as the header says, and the same bytes.
    method MatchName(k: nat, name: seq<Byte>) returns (yes: bool)
      requires Valid() && k < g.pages && Pages()[k].Segment? && NameStays(name)
      ensures yes <==> k in NamedPages(g, rom[..], name)
      ensures yes <==> NameAt(Offset(g, k), name)
    {
      hide Unpack, Slots, Named, Offset;
      NamedByBytes(g, rom[..], k, name);
      InNamedPages(g, rom[..], k, name);
      yes := CompareName(k, name);
    }

    method CompareName(k: nat, name: seq<Byte>) returns (yes: bool)
      requires Valid() && k < g.pages && Pages()[k].Segment? && NameStays(name)
      ensures yes <==> k in NamedPages(g, rom[..], name)
    {
      PageFits(g, k);
      var seg := k * g.page;
      ghost var onward := NameOnward(g, rom[..], k);
      assert Hdr(g, rom[..], k)[FS_LENS] == rom[seg + FS_LENS];
      if |name| != ByteOf(rom[seg + FS_LENS], 0) {
        return false;
      }
      var i := 0;
      while i < |name|
        invariant 0 <= i <= |name|
        invariant name[..i] == onward[..i]
      {
        assert onward[i] == ByteOf(rom[seg + FS_NAME + i / 4], i % 4);
        if name[i] != ByteOf(rom[seg + FS_NAME + i / 4], i % 4) {
          return false;
        }
        i := i + 1;
      }
      return true;
    }

    // findFlashSegment: the next segment of that name with an intact body.
    method FindSegment(name: seq<Byte>, from: Option<nat>) returns (found: Option<nat>)
      requires Valid() && (from.Some? ==> from.value < g.pages) && NameStays(name)
      requires SearchEnds(g, rom[..], from, name)
      ensures found == Found(Pages(), from, GoodPages(g, rom[..], name))
    {
      ghost var good, stray := GoodPages(g, rom[..], name), StrayPages(g, rom[..], name);
      ghost var calls: nat := g.pages + 1;
      LoopEndsExactly(Pages(), from, good, stray);
      found := from;
      while true
        invariant found.Some? ==> found.value < g.pages
        invariant calls <= g.pages + 1 && EndsWithin(Pages(), found, good, stray, calls)
        invariant Found(Pages(), found, good) == Found(Pages(), from, good)
        decreases calls
      {
        HeaderFirst(g, rom[..], found, name, calls);
        found := FindSegmentHdr(name, found);
        if found.None? {
          return;
        }
        var ok := ValidBody(found.value);
        if ok {
          return;
        }
        calls := calls - 1;
      }
    }

    // writeFlashSegment: a header for the body's length, then the body, each
    // closed with its checksum, written word by word from page k on.
    method WriteFlashSegment(k: nat, name: seq<Byte>, vsn: seq<Byte>, body: seq<Word>, bodyLen: nat)
      requires Valid() && |name| < 255 && |vsn| < 255
      requires (bodyLen + 3) / 4 <= |body|
      requires k < g.pages && Pos(g, k) + NewWords(bodyLen) <= rom.Length && 4 * NewWords(bodyLen) < TWO_TO_THE_32
      modifies rom
      ensures Valid()
      ensures rom[..] == PutWords(old(rom[..]), Pos(g, k), NewSegment(name, vsn, body, bodyLen))
    {
      var seg := k * g.page;
      var n := (bodyLen + 3) / 4;
      var words := NewWords(bodyLen);
      var front := NewFront(name, vsn, words);
      PutSealed(seg, front);
      PutSealed(seg + HDR_WORDS, body[..n]);
      PutTwice(old(rom[..]), seg, Seal(front), Seal(body[..n]));
    }

    // Write words one by one, then the word that makes them sum to zero.
    method PutSealed(at: nat, ws: seq<Word>)
      requires at + |ws| < rom.Length
      modifies rom
      ensures rom[..] == PutWords(old(rom[..]), at, Seal(ws))
    {
      ghost var was := rom[..];
      var xsum: Word := 0;
      var i := 0;
      while i != |ws|
        invariant 0 <= i <= |ws|
        invariant xsum == Sum(ws[..i]) % TWO_TO_THE_32
        invariant rom[..] == PutWords(was, at, ws[..i])
      {
        PassWord(ws, i);
        xsum := Add(xsum, ws[i]);
        rom[at + i] := ws[i];
        PutOneMore(was, at, ws, i);
        i := i + 1;
      }
      assert ws[..i] == ws;
      rom[at + i] := Negate(xsum);
      PutLast(was, at, ws, Negate(xsum));
    }

    // rewriteFlashSegment: with a valid header, copy it out and back unchanged and
    // replace the body; otherwise touch nothing.
    method RewriteFlashSegment(k: nat, buf: seq<Word>) returns (sts: Status)
      requires Valid() && k < g.pages
      requires Pages()[k].Segment? ==>
                 Holds(g, rom[..], k) && BodyRoom(g, rom[..], k) >= 0 && |buf| >= BodyRoom(g, rom[..], k)
      modifies rom
      ensures Valid()
      ensures sts == ESUCCESS <==> old(Pages()[k].Segment?)
      ensures sts == EFAULT ==> rom[..] == old(rom[..])
      ensures sts == ESUCCESS ==> rom[..] == Rewritten(g, old(rom[..]), k, buf)
    {
      var ok := ValidPage(k);
      if !ok {
        return EFAULT;
      }
      ghost var was := rom[..];
      PageFits(g, k);
      var seg := k * g.page;
      ghost var h := Hdr(g, was, k);
      assert h[FS_SEGLEN] == rom[seg + FS_SEGLEN];
      var chkSum := seg + rom[seg + FS_SEGLEN] / 4 - 1;
      var hdr: seq<Word> := [];
      while |hdr| != HDR_WORDS
        invariant |hdr| <= HDR_WORDS
        invariant hdr == was[seg..seg + |hdr|]
        decreases HDR_WORDS - |hdr|
      {
        hdr := hdr + [rom[seg + |hdr|]];
      }
      var indx := 0;
      while indx != HDR_WORDS
        invariant 0 <= indx <= HDR_WORDS
        invariant rom[..] == was
      {
        rom[seg + indx] := hdr[indx];
        indx := indx + 1;
      }
      PutSealed(seg + HDR_WORDS, buf[..chkSum - seg - HDR_WORDS]);
      return ESUCCESS;
    }
  }
}
