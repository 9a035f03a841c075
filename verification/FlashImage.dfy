// A flash ROM as a sequence of words cut into pages, and what its headers say.
// A FlashSegment pointer is the number of the page it points to: headers lie on
// page boundaries (include/flash.h:31).
module FlashImage {
  import opened Checksum
  import opened FlashFormat
  import opened FlashWalk
  import opened Words

  // page: words in a page; pages: pages in the ROM; first: the pages of memory before
  // it, so that its address is that many times the bytes of a page.
  datatype Geometry = Geometry(page: nat, pages: nat, first: nat)

  // Do the ROM and a page after it have addresses of 32 bits?
  predicate Addressed(g: Geometry) {
    Base(g) + 4 * (g.pages * g.page) + PageBytes(g) <= TWO_TO_THE_32
  }

  predicate Shaped(g: Geometry, rom: seq<Word>) {
    g.page >= HDR_WORDS && |rom| == g.pages * g.page && Addressed(g)
  }

  // The position of a page, in words.
  function Pos(g: Geometry, k: nat): nat {
    k * g.page
  }

  lemma PosAdd(g: Geometry, k: nat, n: nat)
    ensures Pos(g, k + n) == Pos(g, k) + Pos(g, n)
  {}

  lemma PageFits(g: Geometry, k: nat)
    requires k < g.pages
    ensures Pos(g, k) + g.page <= g.pages * g.page
  {
    PageBefore(g, k, g.pages);
  }

  lemma PageBefore(g: Geometry, j: nat, k: nat)
    requires j < k
    ensures Pos(g, j) + g.page <= Pos(g, k)
  {
    var d := k - j;
    assert (j + d) * g.page == j * g.page + d * g.page;
    AtLeastOne(d, g.page);
  }

  // The size of a page and the offset of page k, in bytes.
  function PageBytes(g: Geometry): nat {
    4 * g.page
  }

  function Offset(g: Geometry, k: nat): nat {
    k * PageBytes(g)
  }

  // The address of the ROM.
  function Base(g: Geometry): nat {
    g.first * PageBytes(g)
  }

  // The address of page k.
  function AddressOf(g: Geometry, k: nat): nat {
    Base(g) + Offset(g, k)
  }

  lemma OffsetOfPage(g: Geometry, k: nat)
    requires g.page > 0
    ensures Offset(g, k) == 4 * Pos(g, k)
    ensures Offset(g, k) % PageBytes(g) == 0 && Offset(g, k) / PageBytes(g) == k
  {
    QuotientUnique(Offset(g, k), PageBytes(g), k, 0);
    var x := Offset(g, k);
    assert x == x / PageBytes(g) * PageBytes(g) + x % PageBytes(g);
  }

  // A page boundary inside the ROM is the offset of one of its pages.
  lemma PageAtOffset(g: Geometry, at: nat)
    requires g.page > 0 && at % PageBytes(g) == 0 && at < 4 * (g.pages * g.page)
    ensures var k := at / PageBytes(g); k < g.pages && at == Offset(g, k)
  {
    var k := at / PageBytes(g);
    assert at == k * PageBytes(g) + at % PageBytes(g);
    OffsetOfPage(g, k);
    if k >= g.pages {
      NotBefore(g, g.pages, k);
    }
  }

  lemma NotBefore(g: Geometry, j: nat, k: nat)
    requires j <= k
    ensures Pos(g, j) <= Pos(g, k)
  {
    if j < k {
      PageBefore(g, j, k);
    }
  }

  function Hdr(g: Geometry, rom: seq<Word>, k: nat): Header
    requires Shaped(g, rom) && k < g.pages
  {
    PageFits(g, k);
    rom[Pos(g, k)..Pos(g, k) + HDR_WORDS]
  }

  // Pages taken up by a number of words.
  function PagesOf(g: Geometry, words: nat): nat
    requires g.page > 0
  {
    (words + g.page - 1) / g.page
  }

  // Rounding up to whole pages covers the words and less than a page more.
  lemma PagesOfCovers(g: Geometry, words: nat)
    requires g.page > 0
    ensures words <= Pos(g, PagesOf(g, words)) < words + g.page
    ensures words > 0 ==> PagesOf(g, words) > 0
  {
    var x := words + g.page - 1;
    assert x == x / g.page * g.page + x % g.page;
  }

  // nextSegment adds the segment's length to its position and rounds up; the
  // position being a page boundary, that is its page plus the pages it takes.
  lemma RoundUpFrom(g: Geometry, k: nat, words: nat)
    requires g.page > 0
    ensures (Pos(g, k) + words + g.page - 1) / g.page == k + PagesOf(g, words)
  {
    var x := words + g.page - 1;
    QuotientUnique(Pos(g, k) + x, g.page, k + x / g.page, x % g.page);
  }

  // The page nextSegment goes on at after a valid header on page k: the length is added
  // to the address in 32 bits, and the sum rounded up to a page.
  function NextPage(g: Geometry, k: nat, segLen: Word): int
    requires g.page > 0
  {
    (AddressOf(g, k) + segLen + PageBytes(g) - 1) % TWO_TO_THE_32 / PageBytes(g) - g.first
  }

  // The same with addresses: rounding down to a page what is left of the sum.
  lemma NextPageAddress(g: Geometry, k: nat, segLen: Word)
    requires g.page > 0
    ensures var t := (AddressOf(g, k) + segLen + PageBytes(g) - 1) % TWO_TO_THE_32;
            t - t % PageBytes(g) == (g.first + NextPage(g, k, segLen)) * PageBytes(g)
  {
    var t := (AddressOf(g, k) + segLen + PageBytes(g) - 1) % TWO_TO_THE_32;
    assert t == t / PageBytes(g) * PageBytes(g) + t % PageBytes(g);
  }

  lemma PageOfAddress(g: Geometry, k: nat, segLen: Word)
    requires g.page > 0
    ensures var t := (AddressOf(g, k) + segLen + PageBytes(g) - 1) % TWO_TO_THE_32;
            (t - t % PageBytes(g) - Base(g)) / PageBytes(g) == NextPage(g, k, segLen)
  {
    NextPageAddress(g, k, segLen);
    WholePages(g.first + NextPage(g, k, segLen), g.first, PageBytes(g));
  }

  lemma WholePages(a: int, b: int, ps: nat)
    requires ps > 0
    ensures (a * ps - b * ps) / ps == a - b
  {
    assert a * ps - b * ps == (a - b) * ps;
    WholeQuotient(a - b, ps);
  }

  lemma WholeQuotient(q: int, ps: nat)
    requires ps > 0
    ensures q * ps / ps == q
  {
    var d := q * ps / ps - q;
    assert q * ps == q * ps / ps * ps + q * ps % ps;
    assert d * ps == -(q * ps % ps);
    if d >= 1 {
      AtLeastOne(d, ps);
    } else if d <= -1 {
      AtLeastOne(-d, ps);
    }
  }

  // The page comes after page k exactly when there is a length and the sum does not
  // wrap, and then it is the first after the segment; it is page k itself for a length
  // of zero or of less than a page below 2^32.
  lemma NextPageExactly(g: Geometry, k: nat, segLen: Word)
    requires g.page > 0 && segLen % 4 == 0 && Addressed(g) && k < g.pages
    ensures NextPage(g, k, segLen) > k <==>
            segLen > 0 && AddressOf(g, k) + segLen + PageBytes(g) - 1 < TWO_TO_THE_32
    ensures NextPage(g, k, segLen) > k ==> NextPage(g, k, segLen) == k + PagesOf(g, segLen / 4)
    ensures NextPage(g, k, segLen) == k <==> segLen == 0 || segLen + PageBytes(g) > TWO_TO_THE_32
  {
    var at, t := AddressOf(g, k), AddressOf(g, k) + segLen + PageBytes(g) - 1;
    AddressOfPage(g, k);
    if t < TWO_TO_THE_32 {
      Unwrapped(t);
      RoundUpBytes(g, k, segLen / 4);
      PagesOfCovers(g, segLen / 4);
    } else {
      Wrapped(t);
      RoundDown(t - TWO_TO_THE_32, PageBytes(g), g.first + k);
    }
  }

  lemma Unwrapped(t: nat)
    requires t < TWO_TO_THE_32
    ensures t % TWO_TO_THE_32 == t
  {}

  lemma Wrapped(t: nat)
    requires TWO_TO_THE_32 <= t < 2 * TWO_TO_THE_32
    ensures t % TWO_TO_THE_32 == t - TWO_TO_THE_32
  {}

  // A page has an address of 32 bits, and so has the page after it.
  lemma AddressOfPage(g: Geometry, k: nat)
    requires Addressed(g) && k < g.pages
    ensures AddressOf(g, k) == (g.first + k) * PageBytes(g)
    ensures AddressOf(g, k) + 2 * PageBytes(g) <= TWO_TO_THE_32
  {
    Together(g.first, k, 0, PageBytes(g));
    PageFits(g, k);
    FourTimes(k, g.page);
  }

  // What is less than a page past a page boundary is rounded down to it, and what comes
  // before it to an earlier one.
  lemma RoundDown(t: nat, ps: nat, q: nat)
    requires 0 < ps && t < q * ps + ps
    ensures t / ps <= q && (t / ps == q <==> q * ps <= t)
  {
    assert t == t / ps * ps + t % ps;
    if t / ps > q {
      Times(q + 1, t / ps, ps);
    } else if t / ps < q {
      Times(t / ps + 1, q, ps);
    }
  }

  lemma Times(a: nat, b: nat, ps: nat)
    requires a <= b
    ensures a * ps <= b * ps
  {}

  lemma RoundUpBytes(g: Geometry, k: nat, words: nat)
    requires g.page > 0
    ensures var t := (g.first + k) * PageBytes(g) + 4 * words + PageBytes(g) - 1;
            t / PageBytes(g) == g.first + k + PagesOf(g, words)
  {
    var ps := PageBytes(g);
    var x := words + g.page - 1;
    var q, r := x / g.page, x % g.page;
    assert x == q * g.page + r;
    FourTimes(q, g.page);
    Together(g.first + k, q, 0, ps);
    QuotientUnique((g.first + k) * ps + 4 * words + ps - 1, ps, g.first + k + q, 4 * r + 3);
  }

  // A segment that ends in the ROM leads to the first page after it.
  lemma NextInside(g: Geometry, k: nat, words: nat)
    requires g.page > 0 && Addressed(g) && Pos(g, k) + words <= g.pages * g.page && 4 * words < TWO_TO_THE_32
    requires k < g.pages
    ensures NextPage(g, k, 4 * words) == k + PagesOf(g, words)
  {
    AddressOfPage(g, k);
    FourTimes(k, g.page);
    NextPageExactly(g, k, 4 * words);
    if words == 0 {
      PagesOfNothing(g);
    }
  }

  lemma PagesOfNothing(g: Geometry)
    requires g.page > 0
    ensures PagesOf(g, 0) == 0
  {}

  lemma FourTimes(q: int, page: int)
    ensures 4 * (q * page) == q * (4 * page)
  {}

  lemma Together(b: int, k: int, q: int, ps: int)
    ensures b * ps + k * ps + q * ps == (b + k + q) * ps
  {}

  lemma QuotientUnique(x: nat, page: nat, q: nat, r: nat)
    requires page > 0 && x == q * page + r && r < page
    ensures x / page == q
  {
    var d := x / page - q;
    assert x == x / page * page + x % page;
    assert d * page == r - x % page;
    if d >= 1 {
      AtLeastOne(d, page);
    } else if d <= -1 {
      AtLeastOne(-d, page);
    }
  }

  lemma AtLeastOne(d: int, page: nat)
    requires d >= 1
    ensures d * page >= page && (-d) * page <= -(page as int)
  {}

  // What a header says about its segment, read at page k.
  function SlotOf(g: Geometry, hdr: Header, k: nat): (slot: Slot)
    requires g.page >= HDR_WORDS && Addressed(g) && k < g.pages
    ensures slot.Segment? && slot.inside ==> slot.next == k + PagesOf(g, SegWords(hdr))
    ensures slot.Segment? && slot.next > k ==> slot.next == k + PagesOf(g, SegWords(hdr))
  {
    if !HeaderOk(hdr) then Blank
    else
      NextPageExactly(g, k, hdr[FS_SEGLEN]);
      InsideNext(g, hdr, k);
      Segment(NextPage(g, k, hdr[FS_SEGLEN]), NameLen(hdr) != 0, LiesInside(g, k, SegWords(hdr)))
  }

  // Does a segment of that many words hold its header and end in the ROM?
  predicate LiesInside(g: Geometry, k: nat, words: nat) {
    HDR_WORDS <= words && Pos(g, k) + words <= g.pages * g.page
  }

  lemma InsideNext(g: Geometry, hdr: Header, k: nat)
    requires g.page > 0 && Addressed(g) && k < g.pages && HeaderOk(hdr)
    ensures LiesInside(g, k, SegWords(hdr)) ==> NextPage(g, k, hdr[FS_SEGLEN]) == k + PagesOf(g, SegWords(hdr))
  {
    if LiesInside(g, k, SegWords(hdr)) {
      NextInside(g, k, SegWords(hdr));
    }
  }

  function Slots(g: Geometry, rom: seq<Word>): seq<Slot>
    requires Shaped(g, rom)
  {
    seq(g.pages, k requires 0 <= k < g.pages => SlotOf(g, Hdr(g, rom, k), k))
  }

  // By the words of the ROM: a valid header has the magic number, a length of whole words
  // and a sum of zero; the search goes on where its length leads, and it has a name if the
  // high byte after the length is not zero.
  lemma SlotByWords(g: Geometry, rom: seq<Word>, k: nat)
    requires Shaped(g, rom) && k < g.pages
    ensures var at := k * g.page; var slot := Slots(g, rom)[k];
            && at + 16 <= |rom|
            && (slot.Segment? <==> rom[at + 2] == 0x53484452 && rom[at + 3] % 4 == 0 && SumsToZero(rom[at..at + 16]))
            && (slot.Segment? ==>
                  slot.next == NextPage(g, k, rom[at + 3]) && (slot.named <==> rom[at + 4] / 0x1000000 != 0))
  {
    PageFits(g, k);
    assert Hdr(g, rom, k) == rom[k * g.page..k * g.page + 16];
  }

  // Does page k hold the header of a segment that lies inside the ROM?
  predicate Holds(g: Geometry, rom: seq<Word>, k: nat)
    requires Shaped(g, rom)
  {
    k < g.pages && Slots(g, rom)[k].Segment? && Slots(g, rom)[k].inside
  }

  // The words after the header, checksum last: from body(seg) up to and
  // including segChksum(seg), bodySize(seg) bytes of them.
  function Body(g: Geometry, rom: seq<Word>, k: nat): seq<Word>
    requires Shaped(g, rom) && Holds(g, rom, k)
  {
    rom[Pos(g, k) + HDR_WORDS..Pos(g, k) + SegWords(Hdr(g, rom, k))]
  }

  predicate BodyOk(g: Geometry, rom: seq<Word>, k: nat)
    requires Shaped(g, rom) && Holds(g, rom, k)
  {
    SumsToZero(Body(g, rom, k))
  }

  // The bytes of the ROM from the name field of page k on.
  function NameOnward(g: Geometry, rom: seq<Word>, k: nat): seq<Byte>
    requires Shaped(g, rom) && k < g.pages
  {
    PageFits(g, k);
    Unpack(rom[Pos(g, k) + FS_NAME..])
  }

  // Does page k hold a valid header with this name?  A name longer than its field
  // is compared with what comes after it.
  predicate Named(g: Geometry, rom: seq<Word>, k: nat, name: seq<Byte>)
    requires Shaped(g, rom)
  {
    && k < g.pages && Slots(g, rom)[k].Segment? && |name| == NameLen(Hdr(g, rom, k))
    && |name| <= |NameOnward(g, rom, k)| && NameOnward(g, rom, k)[..|name|] == name
  }

  // By the bytes of the ROM: the length of the name is at 16 from the start of the page,
  // and the name from 20 on.
  lemma NamedByBytes(g: Geometry, rom: seq<Word>, k: nat, name: seq<Byte>)
    requires Shaped(g, rom) && k < g.pages
    ensures var at, bs := Offset(g, k), Unpack(rom);
            Named(g, rom, k, name) <==>
            && Slots(g, rom)[k].Segment? && at + 20 + |name| <= |bs| && bs[at + 16] == |name|
            && bs[at + 20..at + 20 + |name|] == name
  {
    hide Slots, Unpack, NameOnward, NameLen, Offset, Hdr, Addressed;
    BytesOfPage(g, rom, k);
    NameSlice(Unpack(rom), Offset(g, k) + 20, |name|);
  }

  lemma NameSlice(bs: seq<Byte>, at: nat, n: nat)
    requires at <= |bs|
    ensures at + n <= |bs| ==> bs[at..][..n] == bs[at..at + n]
  {}

  lemma BytesOfPage(g: Geometry, rom: seq<Word>, k: nat)
    requires Shaped(g, rom) && k < g.pages
    ensures var at, bs := Offset(g, k), Unpack(rom);
            && at + 64 <= |bs| && NameOnward(g, rom, k) == bs[at + 20..] && NameLen(Hdr(g, rom, k)) == bs[at + 16]
  {
    hide Slots, Addressed, ByteOf;
    PageFits(g, k);
    OffsetOfPage(g, k);
    UnpackSlice(rom, Pos(g, k) + FS_NAME, |rom|);
    assert rom[Pos(g, k) + FS_NAME..] == rom[Pos(g, k) + FS_NAME..|rom|];
    ByteAt(rom, Pos(g, k) + FS_LENS, 0);
    hide Unpack;
  }

  // The name is in the header as long as it fits there.
  lemma NamedByHeader(g: Geometry, rom: seq<Word>, k: nat, name: seq<Byte>)
    requires Shaped(g, rom) && |name| <= NAME_ROOM && k < g.pages
    ensures Named(g, rom, k, name) <==> Slots(g, rom)[k].Segment? && HasName(Hdr(g, rom, k), name)
  {
    PageFits(g, k);
    SameStart(rom[Pos(g, k) + FS_NAME..], Hdr(g, rom, k)[FS_NAME..], |name|);
  }

  lemma SameStart(long: seq<Word>, short: seq<Word>, n: nat)
    requires |short| <= |long| && long[..|short|] == short && n <= 4 * |short|
    ensures Unpack(long)[..n] == Unpack(short)[..n]
  {
    var u, v := Unpack(long), Unpack(short);
    forall i | 0 <= i < n
      ensures u[i] == v[i]
    {
      assert long[..|short|][i / 4] == long[i / 4];
    }
  }

  // A segment of this name whose body is intact.
  predicate Good(g: Geometry, rom: seq<Word>, k: nat, name: seq<Byte>)
    requires Shaped(g, rom)
  {
    Named(g, rom, k, name) && Holds(g, rom, k) && BodyOk(g, rom, k)
  }

  // The pages with a header of this name.
  function NamedPages(g: Geometry, rom: seq<Word>, name: seq<Byte>): set<nat>
    requires Shaped(g, rom)
  {
    set k: nat | k < g.pages && Named(g, rom, k, name)
  }

  // The pages with an intact segment of this name, and those with a header of this
  // name that leads out of the ROM.
  function GoodPages(g: Geometry, rom: seq<Word>, name: seq<Byte>): set<nat>
    requires Shaped(g, rom)
  {
    set k: nat | k < g.pages && Good(g, rom, k, name)
  }

  function StrayPages(g: Geometry, rom: seq<Word>, name: seq<Byte>): set<nat>
    requires Shaped(g, rom)
  {
    set k: nat | k < g.pages && Named(g, rom, k, name) && !Holds(g, rom, k)
  }

  lemma InNamedPages(g: Geometry, rom: seq<Word>, k: nat, name: seq<Byte>)
    requires Shaped(g, rom) && k < g.pages
    ensures k in NamedPages(g, rom, name) <==> Named(g, rom, k, name)
  {}

  // The first of the listed segments that has the name and an intact body.
  function First(g: Geometry, rom: seq<Word>, segs: seq<nat>, name: seq<Byte>): Option<nat>
    requires Shaped(g, rom)
  {
    FirstIn(segs, GoodPages(g, rom, name))
  }

  // ---- segments that stay as they are ----

  // Are the words of the segment at page k the same in both ROMs?
  ghost predicate SameSegment(g: Geometry, rom: seq<Word>, rom': seq<Word>, k: nat)
    requires Shaped(g, rom) && Shaped(g, rom')
  {
    k < g.pages && Hdr(g, rom, k) == Hdr(g, rom', k)
    && (Holds(g, rom, k) ==> Holds(g, rom', k) && Body(g, rom, k) == Body(g, rom', k))
  }

  lemma SameName(g: Geometry, rom: seq<Word>, rom': seq<Word>, k: nat, name: seq<Byte>)
    requires Shaped(g, rom) && Shaped(g, rom') && |name| <= NAME_ROOM && SameSegment(g, rom, rom', k)
    ensures Named(g, rom, k, name) <==> Named(g, rom', k, name)
    ensures Good(g, rom, k, name) <==> Good(g, rom', k, name)
  {
    NamedByHeader(g, rom, k, name);
    NamedByHeader(g, rom', k, name);
  }

  lemma {:induction false} FirstAgrees(g: Geometry, rom: seq<Word>, rom': seq<Word>, segs: seq<nat>, name: seq<Byte>)
    requires Shaped(g, rom) && Shaped(g, rom') && |name| <= NAME_ROOM
    requires forall i :: 0 <= i < |segs| ==> SameSegment(g, rom, rom', segs[i])
    ensures First(g, rom, segs, name) == First(g, rom', segs, name)
  {
    if segs != [] {
      SameName(g, rom, rom', segs[0], name);
      FirstAgrees(g, rom, rom', segs[1..], name);
    }
  }

  // ---- searching ----

  // Does the search for a header of this name end?
  ghost predicate HeaderSearchEnds(g: Geometry, rom: seq<Word>, from: Option<nat>, name: seq<Byte>)
    requires Shaped(g, rom)
  {
    LoopEnds(Slots(g, rom), from, NamedPages(g, rom, name), {})
  }

  // Does the search for an intact segment of this name end, before it comes to sum a
  // body that is not in the ROM?
  ghost predicate SearchEnds(g: Geometry, rom: seq<Word>, from: Option<nat>, name: seq<Byte>)
    requires Shaped(g, rom)
  {
    LoopEnds(Slots(g, rom), from, GoodPages(g, rom, name), StrayPages(g, rom, name))
  }

  // A search for an intact segment, as one for a header of the name that is gone on with
  // until the body is intact.
  lemma HeaderFirst(g: Geometry, rom: seq<Word>, from: Option<nat>, name: seq<Byte>, n: nat)
    requires Shaped(g, rom) && n <= g.pages + 1
    requires EndsWithin(Slots(g, rom), from, GoodPages(g, rom, name), StrayPages(g, rom, name), n)
    ensures HeaderSearchEnds(g, rom, from, name)
    ensures var slots, good := Slots(g, rom), GoodPages(g, rom, name);
            match Found(slots, from, NamedPages(g, rom, name))
            case None => Found(slots, from, good) == None
            case Some(q) =>
              Named(g, rom, q, name) && Holds(g, rom, q) && (
                if BodyOk(g, rom, q) then Found(slots, from, good) == Some(q)
                else
                  && Found(slots, from, good) == Found(slots, Some(q), good)
                  && n > 0 && EndsWithin(slots, Some(q), good, StrayPages(g, rom, name), n - 1))
  {
    var q := Found(Slots(g, rom), from, NamedPages(g, rom, name));
    FoundAmong(Slots(g, rom), from, GoodPages(g, rom, name), NamedPages(g, rom, name), StrayPages(g, rom, name), n);
    if q.Some? {
      FoundIsIn(Trail(Slots(g, rom), from, g.pages + 1), NamedPages(g, rom, name));
    }
  }

  lemma {:induction false} FoundIsIn(segs: seq<nat>, pages: set<nat>)
    ensures FirstIn(segs, pages).Some? ==> FirstIn(segs, pages).value in pages
  {
    if segs != [] && segs[0] !in pages {
      FoundIsIn(segs[1..], pages);
    }
  }

  // Where every segment of the walk up to the first intact one of the name leads on,
  // the search ends, and finds what is first on the walk.
  lemma FoundOnWalk(g: Geometry, rom: seq<Word>, from: Option<nat>, name: seq<Byte>)
    requires Shaped(g, rom) && Start(Slots(g, rom), from) >= 0
    requires LeadsOn(Slots(g, rom), Walk(Slots(g, rom), Start(Slots(g, rom), from)),
                     GoodPages(g, rom, name), StrayPages(g, rom, name))
    ensures SearchEnds(g, rom, from, name)
    ensures Found(Slots(g, rom), from, GoodPages(g, rom, name)) ==
            First(g, rom, Walk(Slots(g, rom), Start(Slots(g, rom), from)), name)
  {
    WalkEnds(Slots(g, rom), from, GoodPages(g, rom, name), StrayPages(g, rom, name));
  }

  // So what comes first on the walk is what the search finds, if no segment of the name
  // on the walk leads out of the ROM.
  lemma FirstIsFound(g: Geometry, rom: seq<Word>, name: seq<Byte>)
    requires Shaped(g, rom) && First(g, rom, Walk(Slots(g, rom), 0), name).Some?
    requires forall q :: q in Walk(Slots(g, rom), 0) ==> q !in StrayPages(g, rom, name)
    ensures SearchEnds(g, rom, None, name)
    ensures Found(Slots(g, rom), None, GoodPages(g, rom, name)) == First(g, rom, Walk(Slots(g, rom), 0), name)
  {
    WalkLeadsOn(Slots(g, rom), 0, GoodPages(g, rom, name), StrayPages(g, rom, name));
    FoundOnWalk(g, rom, None, name);
  }

  // First returns k exactly when k is listed, matches, and nothing listed
  // earlier matches.
  lemma FirstIsFirst(g: Geometry, rom: seq<Word>, segs: seq<nat>, name: seq<Byte>, k: nat)
    requires Shaped(g, rom)
    ensures First(g, rom, segs, name) == Some(k) <==> exists i :: IsFirst(segs, GoodPages(g, rom, name), k, i)
    ensures First(g, rom, segs, name) == None <==> forall j :: 0 <= j < |segs| ==> segs[j] !in GoodPages(g, rom, name)
  {
    FirstInIsFirst(segs, GoodPages(g, rom, name), k);
  }

  // ---- writing ----

  function PutWords(rom: seq<Word>, at: nat, ws: seq<Word>): (r: seq<Word>)
    requires at + |ws| <= |rom|
    ensures |r| == |rom|
  {
    rom[..at] + ws + rom[at + |ws|..]
  }

  lemma PutOneMore(rom: seq<Word>, at: nat, ws: seq<Word>, i: nat)
    requires i < |ws| && at + |ws| <= |rom|
    ensures PutWords(rom, at, ws[..i])[at + i := ws[i]] == PutWords(rom, at, ws[..i + 1])
  {
    assert ws[..i + 1] == ws[..i] + [ws[i]];
  }

  lemma PutLast(rom: seq<Word>, at: nat, ws: seq<Word>, w: Word)
    requires at + |ws| < |rom|
    ensures PutWords(rom, at, ws)[at + |ws| := w] == PutWords(rom, at, ws + [w])
  {}

  lemma PutTwice(rom: seq<Word>, at: nat, v: seq<Word>, w: seq<Word>)
    requires at + |v| + |w| <= |rom|
    ensures PutWords(PutWords(rom, at, v), at + |v|, w) == PutWords(rom, at, v + w)
  {}

  lemma PutOver(rom: seq<Word>, at: nat, v: seq<Word>, w: seq<Word>)
    requires |v| <= |w| && at + |w| <= |rom|
    ensures PutWords(PutWords(rom, at, v), at, w) == PutWords(rom, at, w)
  {}

  // The words writeFlashSegment writes for a body of bodyLen bytes.
  function NewWords(bodyLen: nat): nat {
    HDR_WORDS + (bodyLen + 3) / 4 + 1
  }

  function NewSegment(name: seq<Byte>, vsn: seq<Byte>, body: seq<Word>, bodyLen: nat): (ws: seq<Word>)
    requires |name| < 255 && |vsn| < 255 && 4 * NewWords(bodyLen) < TWO_TO_THE_32
    requires (bodyLen + 3) / 4 <= |body|
    ensures |ws| == NewWords(bodyLen)
  {
    NewHeader(name, vsn, NewWords(bodyLen)) + Seal(body[..(bodyLen + 3) / 4])
  }

  // The words of the body at page k, its checksum left out; negative when the
  // segment is too short to hold that checksum.
  function BodyRoom(g: Geometry, rom: seq<Word>, k: nat): int
    requires Shaped(g, rom) && k < g.pages
  {
    SegWords(Hdr(g, rom, k)) - HDR_WORDS - 1
  }

  // The ROM after the body at page k is replaced.
  function Rewritten(g: Geometry, rom: seq<Word>, k: nat, buf: seq<Word>): (r: seq<Word>)
    requires Shaped(g, rom) && Holds(g, rom, k) && 0 <= BodyRoom(g, rom, k) <= |buf|
    ensures |r| == |rom|
  {
    PutWords(rom, Pos(g, k) + HDR_WORDS, Seal(buf[..BodyRoom(g, rom, k)]))
  }
}
