// What writing, rewriting or damaging a segment does to the segments of a flash
// ROM, and to what can be found in it afterwards.
module FlashUpdates {
  import opened Checksum
  import opened FlashFormat
  import opened FlashWalk
  import opened FlashImage
  import opened Words

  // ---- words outside the written range ----

  lemma HeaderUntouched(g: Geometry, rom: seq<Word>, at: nat, ws: seq<Word>, j: nat)
    requires Shaped(g, rom) && at + |ws| <= |rom| && j < g.pages
    requires Pos(g, j) + HDR_WORDS <= at || at + |ws| <= Pos(g, j)
    ensures Hdr(g, PutWords(rom, at, ws), j) == Hdr(g, rom, j)
  {
    PageFits(g, j);
  }

  lemma SegmentUntouched(g: Geometry, rom: seq<Word>, at: nat, ws: seq<Word>, j: nat)
    requires Shaped(g, rom) && at + |ws| <= |rom| && j < g.pages
    requires at + |ws| <= Pos(g, j) || (Pos(g, j) + HDR_WORDS <= at && Pos(g, j) + SegWords(Hdr(g, rom, j)) <= at)
    ensures SameSegment(g, rom, PutWords(rom, at, ws), j)
  {
    HeaderUntouched(g, rom, at, ws, j);
  }

  // Pages before k, and pages from k + n on, lie outside n pages from k.
  lemma OutsidePages(g: Geometry, k: nat, n: nat, j: nat)
    requires g.page >= HDR_WORDS
    ensures j < k ==> Pos(g, j) + HDR_WORDS <= Pos(g, k)
    ensures k + n <= j ==> Pos(g, k) + Pos(g, n) <= Pos(g, j)
  {
    if j < k {
      PageBefore(g, j, k);
    }
    if k + n <= j {
      PosAdd(g, k, n);
      if k + n < j {
        PageBefore(g, k + n, j);
      }
    }
  }

  // The end of a segment that takes up pages before k.
  lemma EndsBefore(g: Geometry, rom: seq<Word>, j: nat, k: nat)
    requires Shaped(g, rom) && j < g.pages && Slots(g, rom)[j].Segment? && j < Slots(g, rom)[j].next <= k
    ensures Pos(g, j) + SegWords(Hdr(g, rom, j)) <= Pos(g, k) && Pos(g, j) + HDR_WORDS <= Pos(g, k)
  {
    PageBefore(g, j, k);
    PagesOfCovers(g, SegWords(Hdr(g, rom, j)));
    OutsidePages(g, j, PagesOf(g, SegWords(Hdr(g, rom, j))), k);
  }

  // Writing n pages' worth of words from page k leaves the other headers alone.
  lemma OtherSlots(g: Geometry, rom: seq<Word>, k: nat, skip: nat, ws: seq<Word>, j: nat)
    requires Shaped(g, rom) && Pos(g, k) + skip + |ws| <= |rom| && j < g.pages
    requires j < k || k + PagesOf(g, skip + |ws|) <= j
    ensures Slots(g, PutWords(rom, Pos(g, k) + skip, ws))[j] == Slots(g, rom)[j]
  {
    var n := PagesOf(g, skip + |ws|);
    PagesOfCovers(g, skip + |ws|);
    OutsidePages(g, k, n, j);
    HeaderUntouched(g, rom, Pos(g, k) + skip, ws, j);
  }

  lemma AllOtherSlots(g: Geometry, rom: seq<Word>, k: nat, skip: nat, ws: seq<Word>)
    requires Shaped(g, rom) && Pos(g, k) + skip + |ws| <= |rom|
    ensures forall j :: 0 <= j < g.pages && !(k <= j < k + PagesOf(g, skip + |ws|)) ==>
              Slots(g, PutWords(rom, Pos(g, k) + skip, ws))[j] == Slots(g, rom)[j]
  {
    forall j | 0 <= j < g.pages && !(k <= j < k + PagesOf(g, skip + |ws|))
      ensures Slots(g, PutWords(rom, Pos(g, k) + skip, ws))[j] == Slots(g, rom)[j]
    {
      OtherSlots(g, rom, k, skip, ws, j);
    }
  }

  // ---- rewriteFlashSegment ----

  lemma RewriteInPlace(g: Geometry, rom: seq<Word>, k: nat, buf: seq<Word>)
    requires Shaped(g, rom) && Holds(g, rom, k) && 0 <= BodyRoom(g, rom, k) <= |buf|
    ensures var rom' := Rewritten(g, rom, k, buf);
            && Hdr(g, rom', k) == Hdr(g, rom, k) && Holds(g, rom', k)
            && Body(g, rom', k) == Seal(buf[..BodyRoom(g, rom, k)]) && BodyOk(g, rom', k)
  {
    PageFits(g, k);
    var room := BodyRoom(g, rom, k);
    HeaderUntouched(g, rom, Pos(g, k) + HDR_WORDS, Seal(buf[..room]), k);
    SealSumsToZero(buf[..room]);
  }

  // Whatever is put in a segment's body, the walk goes through the same segments
  // as before, and the other segments keep every word.
  lemma RewriteKeepsWalk(g: Geometry, rom: seq<Word>, i: nat, buf: seq<Word>)
    requires Shaped(g, rom) && i < |Walk(Slots(g, rom), 0)|
    requires var k := Walk(Slots(g, rom), 0)[i]; Holds(g, rom, k) && 0 <= BodyRoom(g, rom, k) <= |buf|
    ensures var k := Walk(Slots(g, rom), 0)[i]; var rom' := Rewritten(g, rom, k, buf);
            && Walk(Slots(g, rom'), 0) == Walk(Slots(g, rom), 0)
            && forall j :: 0 <= j < |Walk(Slots(g, rom), 0)| && j != i ==>
                 SameSegment(g, rom, rom', Walk(Slots(g, rom), 0)[j])
  {
    var slots := Slots(g, rom);
    var walk := Walk(slots, 0);
    var k := walk[i];
    var rom' := Rewritten(g, rom, k, buf);
    var ws := Seal(buf[..BodyRoom(g, rom, k)]);
    RewriteInPlace(g, rom, k, buf);
    AllOtherSlots(g, rom, k, HDR_WORDS, ws);
    SegmentPagesFit(g, rom, k);
    KeptBetween(slots, Slots(g, rom'), i, k);
    forall j | 0 <= j < |walk| && j != i
      ensures SameSegment(g, rom, rom', walk[j])
    {
      RewriteSparesOther(g, rom, i, ws, j);
    }
  }

  lemma RewriteSparesOther(g: Geometry, rom: seq<Word>, i: nat, ws: seq<Word>, j: nat)
    requires Shaped(g, rom) && i < |Walk(Slots(g, rom), 0)| && j < |Walk(Slots(g, rom), 0)| && i != j
    requires var k := Walk(Slots(g, rom), 0)[i]; Holds(g, rom, k) && HDR_WORDS + |ws| <= SegWords(Hdr(g, rom, k))
    ensures var k := Walk(Slots(g, rom), 0)[i];
            SameSegment(g, rom, PutWords(rom, Pos(g, k) + HDR_WORDS, ws), Walk(Slots(g, rom), 0)[j])
  {
    var slots := Slots(g, rom);
    var walk := Walk(slots, 0);
    WalkMember(slots, 0, j);
    if j < i {
      ExtentsApart(slots, 0, j, i);
      EndsBefore(g, rom, walk[j], walk[i]);
    } else {
      ExtentsApart(slots, 0, i, j);
      EndsBefore(g, rom, walk[i], walk[j]);
    }
    SegmentUntouched(g, rom, Pos(g, walk[i]) + HDR_WORDS, ws, walk[j]);
  }

  // After a rewrite, a search finds the segment by its name unless an earlier one
  // of that name is intact, and any other name finds what it found before.  (A name
  // that does not end in the header is compared with the body as well.)
  lemma RewriteFinds(g: Geometry, rom: seq<Word>, i: nat, buf: seq<Word>, name: seq<Byte>)
    requires |name| <= NAME_ROOM && Shaped(g, rom) && i < |Walk(Slots(g, rom), 0)|
    requires var k := Walk(Slots(g, rom), 0)[i]; Holds(g, rom, k) && 0 <= BodyRoom(g, rom, k) <= |buf|
    ensures var walk := Walk(Slots(g, rom), 0); var k := walk[i]; var rom' := Rewritten(g, rom, k, buf);
            First(g, rom', Walk(Slots(g, rom'), 0), name) ==
              if !Named(g, rom, k, name) then First(g, rom, walk, name)
              else if First(g, rom, walk[..i], name) != None then First(g, rom, walk[..i], name)
              else Some(k)
  {
    var walk := Walk(Slots(g, rom), 0);
    var k := walk[i];
    var rom' := Rewritten(g, rom, k, buf);
    RewriteKeepsWalk(g, rom, i, buf);
    RewriteInPlace(g, rom, k, buf);
    assert walk == walk[..i] + ([k] + walk[i + 1..]);
    FirstOfTwo(g, rom, walk[..i], [k] + walk[i + 1..], name);
    FirstOfTwo(g, rom', walk[..i], [k] + walk[i + 1..], name);
    FirstAgrees(g, rom, rom', walk[..i], name);
    FirstAgrees(g, rom, rom', walk[i + 1..], name);
    NamedByHeader(g, rom, k, name);
    NamedByHeader(g, rom', k, name);
  }

  lemma {:induction false} FirstOfTwo(g: Geometry, rom: seq<Word>, s: seq<nat>, t: seq<nat>, name: seq<Byte>)
    requires Shaped(g, rom)
    ensures First(g, rom, s + t, name) ==
            if First(g, rom, s, name) != None then First(g, rom, s, name) else First(g, rom, t, name)
  {
    if s == [] {
      assert s + t == t;
    } else {
      FirstOfTwo(g, rom, s[1..], t, name);
      assert (s + t)[1..] == s[1..] + t;
    }
  }

  // ---- writeFlashSegment ----

  // The ROM after a segment is written at page k.
  function Written(g: Geometry, rom: seq<Word>, k: nat, name: seq<Byte>, vsn: seq<Byte>, body: seq<Word>,
                   bodyLen: nat): (r: seq<Word>)
    requires WriteFits(g, rom, k, name, vsn, body, bodyLen)
    ensures |r| == |rom|
  {
    PutWords(rom, Pos(g, k), NewSegment(name, vsn, body, bodyLen))
  }

  predicate WriteFits(g: Geometry, rom: seq<Word>, k: nat, name: seq<Byte>, vsn: seq<Byte>, body: seq<Word>,
                      bodyLen: nat) {
    && Shaped(g, rom) && k < g.pages && |name| < 255 && |vsn| < 255 && (bodyLen + 3) / 4 <= |body|
    && Pos(g, k) + NewWords(bodyLen) <= |rom| && 4 * NewWords(bodyLen) < TWO_TO_THE_32
  }

  // The segment written is valid, carries its name and holds the body.
  lemma WrittenSegment(g: Geometry, rom: seq<Word>, k: nat, name: seq<Byte>, vsn: seq<Byte>, body: seq<Word>,
                       bodyLen: nat)
    requires WriteFits(g, rom, k, name, vsn, body, bodyLen)
    ensures var rom' := Written(g, rom, k, name, vsn, body, bodyLen);
            && Hdr(g, rom', k) == NewHeader(name, vsn, NewWords(bodyLen))
            && Slots(g, rom')[k] == Segment(k + PagesOf(g, NewWords(bodyLen)), name != [], true)
            && Body(g, rom', k) == Seal(body[..(bodyLen + 3) / 4]) && BodyOk(g, rom', k)
            && (|name| <= SEG_MAX_NAME ==> Named(g, rom', k, name))
  {
    var hdr := NewHeader(name, vsn, NewWords(bodyLen));
    var data := body[..(bodyLen + 3) / 4];
    PageFits(g, k);
    NewHeaderOk(name, vsn, NewWords(bodyLen));
    SealSumsToZero(data);
    if |name| <= SEG_MAX_NAME {
      NewHeaderNamed(name, vsn, NewWords(bodyLen));
    }
    PutParts(rom, Pos(g, k), hdr, Seal(data));
    NameWritten(g, Written(g, rom, k, name, vsn, body, bodyLen), k, hdr, name);
  }

  lemma NameWritten(g: Geometry, rom: seq<Word>, k: nat, hdr: Header, name: seq<Byte>)
    requires Shaped(g, rom) && k < g.pages && HeaderOk(hdr)
    requires Pos(g, k) + HDR_WORDS <= |rom| && rom[Pos(g, k)..Pos(g, k) + HDR_WORDS] == hdr
    requires |name| <= SEG_MAX_NAME ==> HasName(hdr, name)
    ensures |name| <= SEG_MAX_NAME ==> Named(g, rom, k, name)
  {
    if |name| <= SEG_MAX_NAME {
      NamedByHeader(g, rom, k, name);
    }
  }

  lemma PutParts(rom: seq<Word>, at: nat, v: seq<Word>, w: seq<Word>)
    requires at + |v| + |w| <= |rom|
    ensures var r := PutWords(rom, at, v + w);
            r[at..at + |v|] == v && r[at + |v|..at + |v| + |w|] == w
  {}

  // Words that make a named segment, put at a page the walk arrives at: every
  // segment before them stays, they come next, and the walk goes on at the first
  // page after them as before.
  lemma PutExtendsWalk(g: Geometry, rom: seq<Word>, segs: seq<nat>, k: nat, ws: seq<Word>, rom': seq<Word>, end: nat)
    requires Shaped(g, rom) && k < g.pages && Pos(g, k) + |ws| <= |rom| && |ws| > 0
    requires rom' == PutWords(rom, Pos(g, k), ws) && end == k + PagesOf(g, |ws|)
    requires Slots(g, rom')[k] == Segment(end, true, true)
    requires Arrives(Slots(g, rom), 0, segs, k)
    ensures Walk(Slots(g, rom'), 0) == segs + [k] + Walk(Slots(g, rom), end)
    ensures Arrives(Slots(g, rom'), 0, segs, k)
  {
    PutOtherSlots(g, rom, k, ws, rom', end);
    PutBetween(Slots(g, rom), Slots(g, rom'), segs, k, end);
  }

  lemma PutOtherSlots(g: Geometry, rom: seq<Word>, k: nat, ws: seq<Word>, rom': seq<Word>, end: nat)
    requires Shaped(g, rom) && Pos(g, k) + |ws| <= |rom| && |ws| > 0
    requires rom' == PutWords(rom, Pos(g, k), ws) && end == k + PagesOf(g, |ws|)
    ensures k < end && forall j :: 0 <= j < g.pages && !(k <= j < end) ==> Slots(g, rom')[j] == Slots(g, rom)[j]
  {
    PagesOfCovers(g, |ws|);
    AllOtherSlots(g, rom, k, 0, ws);
  }

  lemma PutBetween(slots: seq<Slot>, slots': seq<Slot>, segs: seq<nat>, k: nat, end: nat)
    requires |slots| == |slots'| && k < |slots| && k < end && slots'[k] == Segment(end, true, true)
    requires Arrives(slots, 0, segs, k)
    requires forall j :: 0 <= j < |slots| && !(k <= j < end) ==> slots'[j] == slots[j]
    ensures Walk(slots', 0) == segs + [k] + Walk(slots, end) && Arrives(slots', 0, segs, k)
  {
    SlotsExtendWalk(slots, slots', segs, k, end);
  }

  lemma PutSparesEarlier(g: Geometry, rom: seq<Word>, segs: seq<nat>, k: nat, ws: seq<Word>, j: nat)
    requires Shaped(g, rom) && Pos(g, k) + |ws| <= |rom|
    requires Arrives(Slots(g, rom), 0, segs, k) && j < |segs|
    ensures SameSegment(g, rom, PutWords(rom, Pos(g, k), ws), segs[j])
  {
    ArrivesAfter(Slots(g, rom), 0, segs, k, j);
    EndsBefore(g, rom, segs[j], k);
    SegmentUntouched(g, rom, Pos(g, k), ws, segs[j]);
  }

  lemma PutSparesAllEarlier(g: Geometry, rom: seq<Word>, segs: seq<nat>, k: nat, ws: seq<Word>)
    requires Shaped(g, rom) && Pos(g, k) + |ws| <= |rom| && Arrives(Slots(g, rom), 0, segs, k)
    ensures forall j :: 0 <= j < |segs| ==> SameSegment(g, rom, PutWords(rom, Pos(g, k), ws), segs[j])
  {
    forall j | 0 <= j < |segs|
      ensures SameSegment(g, rom, PutWords(rom, Pos(g, k), ws), segs[j])
    {
      PutSparesEarlier(g, rom, segs, k, ws, j);
    }
  }

  // writeFlashSegment does so for a segment with a name.
  lemma WriteExtendsWalk(g: Geometry, rom: seq<Word>, segs: seq<nat>, k: nat, name: seq<Byte>, vsn: seq<Byte>,
                         body: seq<Word>, bodyLen: nat)
    requires WriteFits(g, rom, k, name, vsn, body, bodyLen) && name != []
    requires Arrives(Slots(g, rom), 0, segs, k)
    ensures Walk(Slots(g, Written(g, rom, k, name, vsn, body, bodyLen)), 0)
            == segs + [k] + Walk(Slots(g, rom), k + PagesOf(g, NewWords(bodyLen)))
  {
    hide NewSegment, NewHeader, Seal, Slots, Walk, Arrives;
    var ws := NewSegment(name, vsn, body, bodyLen);
    WrittenSegment(g, rom, k, name, vsn, body, bodyLen);
    PutExtendsWalk(g, rom, segs, k, ws, Written(g, rom, k, name, vsn, body, bodyLen), k + PagesOf(g, |ws|));
  }

  // What was put there is found by its name, unless an earlier segment of that
  // name is intact.
  lemma PutFinds(g: Geometry, rom: seq<Word>, segs: seq<nat>, k: nat, ws: seq<Word>, name: seq<Byte>)
    requires Shaped(g, rom) && k < g.pages && Pos(g, k) + |ws| <= |rom| && |ws| > 0 && |name| <= NAME_ROOM
    requires Slots(g, PutWords(rom, Pos(g, k), ws))[k] == Segment(k + PagesOf(g, |ws|), true, true)
    requires Good(g, PutWords(rom, Pos(g, k), ws), k, name)
    requires Arrives(Slots(g, rom), 0, segs, k) && First(g, rom, segs, name) == None
    ensures var rom' := PutWords(rom, Pos(g, k), ws);
            First(g, rom', Walk(Slots(g, rom'), 0), name) == Some(k)
  {
    var rom' := PutWords(rom, Pos(g, k), ws);
    PutSparesAllEarlier(g, rom, segs, k, ws);
    FoundAfter(g, rom, rom', segs, k, Walk(Slots(g, rom), k + PagesOf(g, |ws|)), name);
    PutExtendsWalk(g, rom, segs, k, ws, rom', k + PagesOf(g, |ws|));
  }

  lemma FoundAfter(g: Geometry, rom: seq<Word>, rom': seq<Word>, segs: seq<nat>, k: nat, rest: seq<nat>,
                   name: seq<Byte>)
    requires Shaped(g, rom) && Shaped(g, rom') && |name| <= NAME_ROOM
    requires forall j :: 0 <= j < |segs| ==> SameSegment(g, rom, rom', segs[j])
    requires First(g, rom, segs, name) == None && Good(g, rom', k, name)
    ensures First(g, rom', segs + [k] + rest, name) == Some(k)
  {
    FirstAgrees(g, rom, rom', segs, name);
    FirstOfTwo(g, rom', segs, [k] + rest, name);
    assert segs + [k] + rest == segs + ([k] + rest);
  }

  lemma WriteFinds(g: Geometry, rom: seq<Word>, segs: seq<nat>, k: nat, name: seq<Byte>, vsn: seq<Byte>,
                   body: seq<Word>, bodyLen: nat)
    requires WriteFits(g, rom, k, name, vsn, body, bodyLen) && 0 < |name| <= SEG_MAX_NAME
    requires Arrives(Slots(g, rom), 0, segs, k) && First(g, rom, segs, name) == None
    ensures var rom' := Written(g, rom, k, name, vsn, body, bodyLen);
            First(g, rom', Walk(Slots(g, rom'), 0), name) == Some(k)
  {
    WrittenSegment(g, rom, k, name, vsn, body, bodyLen);
    PutFinds(g, rom, segs, k, NewSegment(name, vsn, body, bodyLen), name);
  }

  // ---- damage to one word ----

  // A changed header word takes its segment off the walk.  The segments before it stay,
  // and the walk goes on in the body that was the segment's.
  lemma DamagedHeader(g: Geometry, rom: seq<Word>, i: nat, at: nat, w: Word)
    requires Shaped(g, rom) && i < |Walk(Slots(g, rom), 0)|
    requires var k := Walk(Slots(g, rom), 0)[i];
             Pos(g, k) <= at < Pos(g, k) + HDR_WORDS && at < |rom| && w != rom[at]
    ensures var walk := Walk(Slots(g, rom), 0);
            Walk(Slots(g, rom[at := w]), 0) == walk[..i] + Walk(Slots(g, rom), walk[i] + 1)
  {
    var k := Walk(Slots(g, rom), 0)[i];
    WalkMember(Slots(g, rom), 0, i);
    OneHeaderLost(g, rom, k, at, w, rom[at := w]);
    LostHeader(Slots(g, rom), Slots(g, rom[at := w]), i);
  }

  lemma OneHeaderLost(g: Geometry, rom: seq<Word>, k: nat, at: nat, w: Word, rom': seq<Word>)
    requires Shaped(g, rom) && k < g.pages && Slots(g, rom)[k].Segment?
    requires Pos(g, k) <= at < Pos(g, k) + HDR_WORDS && at < |rom| && w != rom[at] && rom' == rom[at := w]
    ensures Slots(g, rom')[k].Blank?
    ensures forall j :: 0 <= j < g.pages && j != k ==> Slots(g, rom')[j] == Slots(g, rom)[j]
  {
    PageFits(g, k);
    HeaderDamageShows(Hdr(g, rom, k), at - Pos(g, k), w);
    assert Hdr(g, rom', k) == Hdr(g, rom, k)[at - Pos(g, k) := w];
    forall j | 0 <= j < g.pages && j != k
      ensures Slots(g, rom')[j] == Slots(g, rom)[j]
    {
      OneWordOtherSlot(g, rom, k, at, w, j);
    }
  }

  // So it hides no other segment if no later page of the segment passes for a header.
  lemma DamagedAlone(g: Geometry, rom: seq<Word>, i: nat, at: nat, w: Word)
    requires Shaped(g, rom) && i < |Walk(Slots(g, rom), 0)| && Holds(g, rom, Walk(Slots(g, rom), 0)[i])
    requires var k := Walk(Slots(g, rom), 0)[i];
             && Pos(g, k) <= at < Pos(g, k) + HDR_WORDS && at < |rom| && w != rom[at]
             && forall j :: k < j < Slots(g, rom)[k].next && j < g.pages ==> Slots(g, rom)[j].Blank?
    ensures var walk := Walk(Slots(g, rom), 0);
            Walk(Slots(g, rom[at := w]), 0) == walk[..i] + walk[i + 1..]
  {
    DamagedHeader(g, rom, i, at, w);
    SegmentPagesFit(g, rom, Walk(Slots(g, rom), 0)[i]);
    LostAlone(Slots(g, rom), i);
  }

  lemma OneWordOtherSlot(g: Geometry, rom: seq<Word>, k: nat, at: nat, w: Word, j: nat)
    requires Shaped(g, rom) && k < g.pages && j < g.pages && j != k && at < |rom|
    requires Pos(g, k) <= at < Pos(g, k) + HDR_WORDS
    ensures Slots(g, rom[at := w])[j] == Slots(g, rom)[j]
  {
    PageFits(g, j);
    if j < k {
      PageBefore(g, j, k);
    } else {
      PageBefore(g, k, j);
    }
    assert Hdr(g, rom[at := w], j) == Hdr(g, rom, j);
  }

  // A segment inside the ROM takes up pages of the ROM only.
  lemma SegmentPagesFit(g: Geometry, rom: seq<Word>, k: nat)
    requires Shaped(g, rom) && Holds(g, rom, k)
    ensures k < Slots(g, rom)[k].next <= g.pages
  {
    var n := PagesOf(g, SegWords(Hdr(g, rom, k)));
    PagesOfCovers(g, SegWords(Hdr(g, rom, k)));
    if k + n > g.pages {
      LastPageStart(g, k, n);
      OutsidePages(g, 0, g.pages, k + n - 1);
    }
  }

  lemma LastPageStart(g: Geometry, k: nat, n: nat)
    requires k + n > 0
    ensures Pos(g, k + n - 1) == Pos(g, k) + Pos(g, n) - g.page
  {}

  // A changed body word leaves the walk as it was and fails the segment's own
  // sum, so a search passes it over; the other segments keep every word.
  lemma DamagedBody(g: Geometry, rom: seq<Word>, i: nat, d: nat, w: Word, name: seq<Byte>)
    requires |name| <= NAME_ROOM && Shaped(g, rom) && i < |Walk(Slots(g, rom), 0)|
             && Holds(g, rom, Walk(Slots(g, rom), 0)[i])
    requires var k := Walk(Slots(g, rom), 0)[i];
             BodyOk(g, rom, k) && d < |Body(g, rom, k)| && w != Body(g, rom, k)[d]
    ensures var walk := Walk(Slots(g, rom), 0); var rom' := PutWords(rom, Pos(g, walk[i]) + HDR_WORDS + d, [w]);
            && Walk(Slots(g, rom'), 0) == walk
            && First(g, rom', walk, name) == First(g, rom, walk[..i] + walk[i + 1..], name)
  {
    var walk := Walk(Slots(g, rom), 0);
    DamagedAt(g, rom, PutWords(rom, Pos(g, walk[i]) + HDR_WORDS + d, [w]), walk, i, walk[i], d, w, name);
  }

  lemma DamagedAt(g: Geometry, rom: seq<Word>, rom': seq<Word>, walk: seq<nat>, i: nat, k: nat, d: nat, w: Word,
                  name: seq<Byte>)
    requires |name| <= NAME_ROOM && Shaped(g, rom) && walk == Walk(Slots(g, rom), 0) && i < |walk| && k == walk[i]
    requires Holds(g, rom, k) && BodyOk(g, rom, k) && d < |Body(g, rom, k)| && w != Body(g, rom, k)[d]
    requires rom' == PutWords(rom, Pos(g, k) + HDR_WORDS + d, [w])
    ensures Walk(Slots(g, rom'), 0) == walk
    ensures First(g, rom', walk, name) == First(g, rom, walk[..i] + walk[i + 1..], name)
  {
    hide Slots, PutWords, SameSegment, Addressed, First;
    assert !Good(g, rom', k, name) by {
      DamageInPlace(g, rom, k, d, w);
    }
    hide Good, Holds, BodyOk, Body;
    var before, after := walk[..i], walk[i + 1..];
    DamageSparesOthers(g, rom, rom', walk, i, k, d, w, before, after);
    FirstAround(g, rom, rom', before, k, after, name);
    assert walk == before + ([k] + after);
    DamageKeepsWalk(g, rom, walk, i, k, d, w);
  }

  lemma DamageSparesOthers(g: Geometry, rom: seq<Word>, rom': seq<Word>, walk: seq<nat>, i: nat, k: nat, d: nat,
                           w: Word, before: seq<nat>, after: seq<nat>)
    requires Shaped(g, rom) && walk == Walk(Slots(g, rom), 0) && i < |walk| && k == walk[i]
    requires Holds(g, rom, k) && d < |Body(g, rom, k)| && before == walk[..i] && after == walk[i + 1..]
    requires rom' == PutWords(rom, Pos(g, k) + HDR_WORDS + d, [w])
    ensures forall j :: 0 <= j < |before| ==> SameSegment(g, rom, rom', before[j])
    ensures forall j :: 0 <= j < |after| ==> SameSegment(g, rom, rom', after[j])
  {
    hide Slots, SameSegment, Holds, Body, PutWords;
    forall j | 0 <= j < |before|
      ensures SameSegment(g, rom, rom', before[j])
    {
      DamageSparesOther(g, rom, rom', i, k, d, w, j);
    }
    forall j | 0 <= j < |after|
      ensures SameSegment(g, rom, rom', after[j])
    {
      DamageSparesOther(g, rom, rom', i, k, d, w, i + 1 + j);
    }
  }

  lemma DamageSparesOther(g: Geometry, rom: seq<Word>, rom': seq<Word>, i: nat, k: nat, d: nat, w: Word, j: nat)
    requires Shaped(g, rom) && i < |Walk(Slots(g, rom), 0)| && j < |Walk(Slots(g, rom), 0)| && i != j
    requires k == Walk(Slots(g, rom), 0)[i] && Holds(g, rom, k) && d < |Body(g, rom, k)|
    requires rom' == PutWords(rom, Pos(g, k) + HDR_WORDS + d, [w])
    ensures SameSegment(g, rom, rom', Walk(Slots(g, rom), 0)[j])
  {
    var at := Pos(g, k) + HDR_WORDS;
    PutFrom(rom, at, d, w);
    RewriteSparesOther(g, rom, i, rom[at..at + d] + [w], j);
  }

  lemma PutFrom(rom: seq<Word>, at: nat, d: nat, w: Word)
    requires at + d < |rom|
    ensures PutWords(rom, at + d, [w]) == PutWords(rom, at, rom[at..at + d] + [w])
  {}

  lemma DamageKeepsWalk(g: Geometry, rom: seq<Word>, walk: seq<nat>, i: nat, k: nat, d: nat, w: Word)
    requires Shaped(g, rom) && walk == Walk(Slots(g, rom), 0) && i < |walk| && k == walk[i]
    requires Holds(g, rom, k) && d < |Body(g, rom, k)|
    ensures Walk(Slots(g, PutWords(rom, Pos(g, k) + HDR_WORDS + d, [w])), 0) == walk
  {
    PageFits(g, k);
    HeaderUntouched(g, rom, Pos(g, k) + HDR_WORDS + d, [w], k);
    DamageOtherSlots(g, rom, k, HDR_WORDS + d, w);
    SegmentPagesFit(g, rom, k);
    KeptBetween(Slots(g, rom), Slots(g, PutWords(rom, Pos(g, k) + HDR_WORDS + d, [w])), i, k);
  }

  lemma KeptBetween(slots: seq<Slot>, slots': seq<Slot>, i: nat, k: nat)
    requires i < |Walk(slots, 0)| && k == Walk(slots, 0)[i] && |slots| == |slots'|
    requires k < |slots| && slots[k].Segment? && slots[k].next > k && slots'[k] == slots[k]
    requires forall j :: 0 <= j < |slots| && !(k <= j < slots[k].next) ==> slots'[j] == slots[j]
    ensures Walk(slots', 0) == Walk(slots, 0)
  {
    WalkUnchanged(slots, slots', i);
  }

  lemma DamageOtherSlots(g: Geometry, rom: seq<Word>, k: nat, skip: nat, w: Word)
    requires Shaped(g, rom) && Holds(g, rom, k) && skip < SegWords(Hdr(g, rom, k))
    ensures var rom' := PutWords(rom, Pos(g, k) + skip, [w]);
            forall j :: 0 <= j < g.pages && !(k <= j < Slots(g, rom)[k].next) ==> Slots(g, rom')[j] == Slots(g, rom)[j]
  {
    forall j | 0 <= j < g.pages && !(k <= j < Slots(g, rom)[k].next)
      ensures Slots(g, PutWords(rom, Pos(g, k) + skip, [w]))[j] == Slots(g, rom)[j]
    {
      DamageOtherSlot(g, rom, k, skip, w, j);
    }
  }

  // A search over segments one of which no longer matches.
  lemma FirstAround(g: Geometry, rom: seq<Word>, rom': seq<Word>, before: seq<nat>, k: nat, after: seq<nat>,
                    name: seq<Byte>)
    requires Shaped(g, rom) && Shaped(g, rom') && !Good(g, rom', k, name) && |name| <= NAME_ROOM
    requires forall j :: 0 <= j < |before| ==> SameSegment(g, rom, rom', before[j])
    requires forall j :: 0 <= j < |after| ==> SameSegment(g, rom, rom', after[j])
    ensures First(g, rom', before + ([k] + after), name) == First(g, rom, before + after, name)
  {
    FirstOfTwo(g, rom', before, [k] + after, name);
    FirstOfTwo(g, rom, before, after, name);
    FirstAgrees(g, rom, rom', before, name);
    FirstAgrees(g, rom, rom', after, name);
  }

  lemma DamageInPlace(g: Geometry, rom: seq<Word>, k: nat, d: nat, w: Word)
    requires Shaped(g, rom) && Holds(g, rom, k) && BodyOk(g, rom, k)
    requires d < |Body(g, rom, k)| && w != Body(g, rom, k)[d]
    ensures var rom' := PutWords(rom, Pos(g, k) + HDR_WORDS + d, [w]);
            Hdr(g, rom', k) == Hdr(g, rom, k) && Holds(g, rom', k) && !BodyOk(g, rom', k)
  {
    hide Addressed;
    PageFits(g, k);
    HeaderUntouched(g, rom, Pos(g, k) + HDR_WORDS + d, [w], k);
    OneBodyWord(rom, Pos(g, k) + HDR_WORDS, Pos(g, k) + SegWords(Hdr(g, rom, k)), d, w);
    OneChangeDetected(Body(g, rom, k), d, w);
  }

  lemma OneBodyWord(rom: seq<Word>, from: nat, to: nat, d: nat, w: Word)
    requires from + d < to <= |rom|
    ensures PutWords(rom, from + d, [w])[from..to] == rom[from..to][d := w]
  {}

  lemma DamageOtherSlot(g: Geometry, rom: seq<Word>, k: nat, skip: nat, w: Word, j: nat)
    requires Shaped(g, rom) && Holds(g, rom, k) && skip < SegWords(Hdr(g, rom, k)) && j < g.pages
    requires j < k || Slots(g, rom)[k].next <= j
    ensures Slots(g, PutWords(rom, Pos(g, k) + skip, [w]))[j] == Slots(g, rom)[j]
  {
    PagesOfCovers(g, SegWords(Hdr(g, rom, k)));
    OutsidePages(g, k, PagesOf(g, SegWords(Hdr(g, rom, k))), j);
    HeaderUntouched(g, rom, Pos(g, k) + skip, [w], j);
  }

  // ---- a header that keeps the search where it is ----

  // A ROM that is blank but for a sealed header of that name and length on page 0.
  function OneHeader(g: Geometry, name: seq<Byte>, words: nat): (rom: seq<Word>)
    requires g.page >= HDR_WORDS && Addressed(g) && g.pages > 0 && |name| <= SEG_MAX_NAME && 4 * words < TWO_TO_THE_32
    ensures Shaped(g, rom)
  {
    PageFits(g, 0);
    PutWords(seq(g.pages * g.page, _ => 0), 0, NewHeader(name, [], words))
  }

  // validHdr accepts it.  Unless the length leads below the ROM, a search for any other
  // name ends exactly when the length is not zero and at least a page less than 2^32.
  lemma OneHeaderLoops(g: Geometry, name: seq<Byte>, words: nat, other: seq<Byte>)
    requires g.page >= HDR_WORDS && Addressed(g) && g.pages > 0 && 4 * words < TWO_TO_THE_32
    requires 0 < |name| <= SEG_MAX_NAME && other != name && NextPage(g, 0, 4 * words) >= 0
    ensures var rom := OneHeader(g, name, words);
            && Slots(g, rom)[0].Segment?
            && (HeaderSearchEnds(g, rom, None, other) <==> words != 0 && 4 * words + PageBytes(g) <= TWO_TO_THE_32)
  {
    var rom := OneHeader(g, name, words);
    var slots, stop := Slots(g, rom), NamedPages(g, rom, other);
    OneHeaderSlots(g, name, words);
    OneName(g, rom, 0, name, other);
    NextPageExactly(g, 0, 4 * words);
    LoopEndsExactly(slots, None, stop, {});
    assert Next(slots, None) == Some(0);
    if slots[0].next == 0 {
      StuckAt(slots, 0, stop, {}, |slots|);
    } else {
      NothingFrom(slots, slots[0].next);
      assert EndsWithin(slots, Some(0), stop, {}, |slots|);
    }
  }

  lemma {:induction false} NothingFrom(slots: seq<Slot>, k: nat)
    requires forall j :: k <= j < |slots| ==> slots[j].Blank?
    ensures Scan(slots, k).None?
    decreases |slots| - k
  {
    if k < |slots| {
      NothingFrom(slots, k + 1);
    }
  }

  lemma OneHeaderSlots(g: Geometry, name: seq<Byte>, words: nat)
    requires g.page >= HDR_WORDS && Addressed(g) && g.pages > 0 && 4 * words < TWO_TO_THE_32
    requires 0 < |name| <= SEG_MAX_NAME
    ensures var rom := OneHeader(g, name, words);
            && Slots(g, rom)[0].Segment? && Slots(g, rom)[0].named && Slots(g, rom)[0].next == NextPage(g, 0, 4 * words)
            && Named(g, rom, 0, name)
            && forall j :: 0 < j < g.pages ==> Slots(g, rom)[j].Blank?
  {
    var rom, blank, hdr := OneHeader(g, name, words), seq(g.pages * g.page, _ => 0), NewHeader(name, [], words);
    PageFits(g, 0);
    NewHeaderOk(name, [], words);
    NewHeaderNamed(name, [], words);
    assert Hdr(g, rom, 0) == hdr;
    assert hdr[FS_SEGLEN] == 4 * words;
    NamedByHeader(g, rom, 0, name);
    forall j | 0 < j < g.pages
      ensures Slots(g, rom)[j].Blank?
    {
      PageBefore(g, 0, j);
      HeaderUntouched(g, blank, 0, hdr, j);
      PageFits(g, j);
      assert Hdr(g, blank, j)[FS_MAGIC] == 0;
    }
  }

  lemma OneName(g: Geometry, rom: seq<Word>, k: nat, name: seq<Byte>, other: seq<Byte>)
    requires Shaped(g, rom) && Named(g, rom, k, name) && other != name
    ensures !Named(g, rom, k, other)
  {}

  // With a segment before it, a header may lead back to that: a length of 256 bytes
  // less than 2^32, on the second of the pages of 256 bytes of a ROM at 0xbfc00000.
  lemma BackToStart(stop: set<nat>, n: nat)
    requires 0 !in stop && 1 !in stop
    ensures var g := Geometry(64, 2048, 0xbfc000);
            Addressed(g) && NextPage(g, 0, 256) == 1 && NextPage(g, 1, 0xffff_ff00) == 0
    ensures !EndsWithin([Segment(1, true, true), Segment(0, true, false)], None, stop, {}, n)
  {
    RoundAndRound(None, stop, n);
  }

  lemma {:induction false} RoundAndRound(from: Option<nat>, stop: set<nat>, n: nat)
    requires 0 !in stop && 1 !in stop && (from.Some? ==> from.value < 2)
    ensures !EndsWithin([Segment(1, true, true), Segment(0, true, false)], from, stop, {}, n)
    decreases n
  {
    var slots := [Segment(1, true, true), Segment(0, true, false)];
    if n > 0 {
      RoundAndRound(Next(slots, from), stop, n - 1);
    }
  }
}
