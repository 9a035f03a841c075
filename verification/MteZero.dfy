// Clearing memory with the CRIME memory transfer engine (src/lib/mte_copy.c:76-119,
// 160-210).  The engine sees 32 pages through 16 TLB entries of two pages each;
// longer requests are cleared in chunks.
module MteZero {
  import opened Words

  const CRM_PAGE_SIZE := 0x1000
  const CRM_MTE_MAX_XFER := 0x20000
  const MAX_SPAN := CRM_MTE_MAX_XFER - 1
  const TLB_PAGES := 32

  // The entry a page goes through.
  function Index(page: nat): (i: nat)
    ensures i < TLB_PAGES / 2
  {
    page % TLB_PAGES / 2
  }

  // The first page of the pair that a chunk from addr is mapped from.
  function BasePage(addr: nat): (page: nat)
    ensures page % 2 == 0
  {
    addr / CRM_PAGE_SIZE - addr / CRM_PAGE_SIZE % 2
  }

  // The mapped bytes before addr, and the size of a chunk, which
  // leaves out an odd first page but not the bytes before addr in its page.
  function Before(addr: nat): int {
    addr - BasePage(addr) * CRM_PAGE_SIZE
  }

  function ChunkSize(addr: nat, bcount: nat): nat {
    var room := CRM_MTE_MAX_XFER - addr / CRM_PAGE_SIZE % 2 * CRM_PAGE_SIZE;
    if bcount < room then bcount else room
  }

  // The last page mapped for a request, and the page after the last pair.
  function LastPage(addr: nat, bcount: nat): nat
    requires bcount > 0
  {
    if addr + bcount - 1 - BasePage(addr) * CRM_PAGE_SIZE > MAX_SPAN then
      (BasePage(addr) * CRM_PAGE_SIZE + MAX_SPAN) / CRM_PAGE_SIZE
    else
      (addr + bcount - 1) / CRM_PAGE_SIZE
  }

  function NextEven(page: nat): nat {
    page + 2 - page % 2
  }

  function PastPage(addr: nat, bcount: nat): nat
    requires bcount > 0
  {
    NextEven(LastPage(addr, bcount))
  }

  // The entries after the pages from first up to (not including) past are mapped.
  function Mapped(tlb: seq<int>, first: nat, past: nat): (r: seq<int>)
    requires |tlb| == TLB_PAGES / 2
    ensures |r| == |tlb|
  {
    if past < first + 2 then tlb else Mapped(tlb, first, past - 2)[Index(past - 2) := past - 2]
  }

  // The entries that takes: the set bits of what mte_set_tlb returns.
  function Indices(first: nat, past: nat): set<nat> {
    if past < first + 2 then {} else Indices(first, past - 2) + {Index(past - 2)}
  }

  // Where the engine puts the byte at an address of a chunk that starts at from:
  // past the last page it comes round to the first.
  function Lands(from: nat, addr: int): int {
    if addr < BasePage(from) * CRM_PAGE_SIZE + CRM_MTE_MAX_XFER then addr else addr - CRM_MTE_MAX_XFER
  }

  function Chunk(from: nat, count: nat): seq<int> {
    seq(count, i requires 0 <= i < count => Lands(from, from + i))
  }

  // What a whole request clears, in order.
  function Cleared(addr: nat, bcount: nat): seq<int>
    decreases bcount
  {
    if bcount == 0 then []
    else
      var n := ChunkSize(addr, bcount);
      Chunk(addr, n) + Cleared(addr + n, bcount - n)
  }

  // The address behind the TLB.
  function Translate(tlb: seq<int>, addr: nat): int
    requires |tlb| == TLB_PAGES / 2
  {
    (tlb[Index(addr / CRM_PAGE_SIZE)] + addr / CRM_PAGE_SIZE % 2) * CRM_PAGE_SIZE + addr % CRM_PAGE_SIZE
  }

  function TranslateAll(tlb: seq<int>, addr: nat, count: nat): seq<int>
    requires |tlb| == TLB_PAGES / 2
  {
    seq(count, i requires 0 <= i < count => Translate(tlb, addr + i))
  }

  class Mte {
    const tlb: array<int>    // the even page each entry maps, with the page after it
    var cleared: seq<int>    // the bytes cleared so far

    ghost predicate Valid() {
      tlb.Length == TLB_PAGES / 2
    }

    constructor ()
      ensures Valid() && fresh(tlb) && cleared == []
    {
      tlb := new int[TLB_PAGES / 2](_ => -1);
      cleared := [];
    }

    // mte_set_tlb: the pages of the request, as far as they fit the window, and the
    // bytes they hold from addr's page on.
    method SetTlb(addr: nat, bcount: nat) returns (nbytes: int, indices: set<nat>)
      requires Valid() && 0 < bcount <= CRM_MTE_MAX_XFER
      modifies tlb
      ensures tlb[..] == Mapped(old(tlb[..]), BasePage(addr), PastPage(addr, bcount))
      ensures nbytes == (PastPage(addr, bcount) - addr / CRM_PAGE_SIZE) * CRM_PAGE_SIZE
      ensures indices == Indices(BasePage(addr), PastPage(addr, bcount))
      ensures forall i :: 0 <= i < tlb.Length && i !in indices ==> tlb[i] == old(tlb[i])
    {
      var addrEnd := addr + bcount - 1;
      var page := addr / CRM_PAGE_SIZE;
      var pageLast := addrEnd / CRM_PAGE_SIZE;
      nbytes := 0;
      if page % 2 == 1 {
        page := page - 1;
        nbytes := nbytes - CRM_PAGE_SIZE;
      }
      if addrEnd - page * CRM_PAGE_SIZE > MAX_SPAN {
        pageLast := (page * CRM_PAGE_SIZE + MAX_SPAN) / CRM_PAGE_SIZE;
      }
      assert page == BasePage(addr) && pageLast == LastPage(addr, bcount);
      LastPageInWindow(addr, bcount);
      var mapped;
      MappedOnly(tlb[..], BasePage(addr), PastPage(addr, bcount));
      mapped, indices := MapPairs(page, pageLast);
      nbytes := nbytes + mapped;
    }

    // Map the pages to themselves, an entry for each pair, and count their bytes.
    method MapPairs(first: nat, pageLast: nat) returns (nbytes: nat, indices: set<nat>)
      requires Valid() && first % 2 == 0 && first <= pageLast
      modifies tlb
      ensures tlb[..] == Mapped(old(tlb[..]), first, NextEven(pageLast))
      ensures nbytes == (NextEven(pageLast) - first) * CRM_PAGE_SIZE && indices == Indices(first, NextEven(pageLast))
    {
      hide Index, NextEven;
      nbytes, indices := 0, {};
      var page := first;
      ghost var was := tlb[..];
      while page <= pageLast
        invariant first <= page <= pageLast + 2 && page % 2 == 0 && nbytes == (page - first) * CRM_PAGE_SIZE
        invariant tlb[..] == Mapped(was, first, page) && indices == Indices(first, page)
      {
        tlb[Index(page)] := page;
        assert tlb[..] == Mapped(was, first, page + 2) by {
          MapOneMore(was, first, page);
        }
        indices := indices + {Index(page)};
        nbytes := nbytes + CRM_PAGE_SIZE * 2;
        page := page + 2;
      }
      OnlyEven(page, pageLast);
    }

    // What the engine does with a linear destination, both ends included.
    method Go(dst0: nat, dst1: nat)
      requires Valid() && dst0 <= dst1
      modifies this`cleared
      ensures cleared == old(cleared) + TranslateAll(tlb[..], dst0, dst1 + 1 - dst0)
    {
      cleared := cleared + TranslateAll(tlb[..], dst0, dst1 + 1 - dst0);
    }

    // mte_zero.  Engines before revision 1 are left alone.
    method Zero(addr: nat, bcount: nat, crmRev: int)
      requires Valid()
      modifies this`cleared, tlb
      ensures cleared == old(cleared) + if crmRev < 1 then [] else Cleared(addr, bcount)
    {
      hide Mapped, BasePage, PastPage, ChunkSize, TranslateAll, Chunk, Indices;
      if crmRev < 1 {
        return;
      }
      var at: nat, left: nat := addr, bcount;
      while left != 0
        invariant cleared + Cleared(at, left) == old(cleared) + Cleared(addr, bcount)
        decreases left
      {
        var count := if left > CRM_MTE_MAX_XFER then CRM_MTE_MAX_XFER else left;
        ChunkIsCut(at, left, count);
        ChunkTranslates(tlb[..], at, count);
        var nbytes, _ := SetTlb(at, count);
        count := if count < nbytes then count else nbytes;
        ghost var was := cleared;
        Go(at, at + count - 1);
        OneMoreChunk(was, at, left, count);
        left := left - count;
        at := at + count;
      }
    }
  }

  lemma MapOneMore(tlb: seq<int>, first: nat, page: nat)
    requires |tlb| == TLB_PAGES / 2 && first <= page
    ensures Mapped(tlb, first, page + 2) == Mapped(tlb, first, page)[Index(page) := page]
  {}

  lemma OnlyEven(page: nat, last: nat)
    requires page % 2 == 0 && last < page <= last + 2
    ensures page == NextEven(last)
  {}

  // Which pages those are: from the even page of the first pair up to the last pair asked
  // for, or to the end of the window.
  lemma PagesAskedFor(addr: nat, bcount: nat)
    requires 0 < bcount <= CRM_MTE_MAX_XFER
    ensures var first, last, base := addr / 4096, (addr + bcount - 1) / 4096, BasePage(addr);
            && base == first - first % 2
            && PastPage(addr, bcount) == if last < base + 32 then last + 2 - last % 2 else base + 32
  {}

  // The entries set are those of these pages, and no other entry changes.
  lemma {:induction false} IndicesExactly(first: nat, past: nat, i: nat)
    requires first % 2 == 0 && past % 2 == 0 && first <= past
    ensures i in Indices(first, past) <==> exists v :: IsPairFor(first, past, v, i)
    decreases past
  {
    if first < past {
      var page := past - 2;
      IndicesExactly(first, page, i);
      hide Index, IsPairFor;
      LastPair(first, past, i, page);
    }
  }

  predicate IsPairFor(first: nat, past: nat, v: int, i: nat) {
    first <= v < past && v % 2 == 0 && Index(v) == i
  }

  lemma LastPair(first: nat, past: nat, i: nat, page: nat)
    requires first % 2 == 0 && past % 2 == 0 && first < past && page == past - 2
    ensures IsPairFor(first, past, page, i) <==> Index(page) == i
    ensures forall v :: IsPairFor(first, past, v, i) ==> v == page || IsPairFor(first, page, v, i)
    ensures forall v :: IsPairFor(first, page, v, i) ==> IsPairFor(first, past, v, i)
  {
    hide Index;
  }

  lemma {:induction false} MappedOnly(tlb: seq<int>, first: nat, past: nat)
    requires |tlb| == TLB_PAGES / 2
    ensures forall i :: 0 <= i < |tlb| && i !in Indices(first, past) ==> Mapped(tlb, first, past)[i] == tlb[i]
    decreases past
  {
    if past >= first + 2 {
      MappedOnly(tlb, first, past - 2);
    }
  }

  // Do the entries map the pages from first up to past?
  ghost predicate Maps(tlb: seq<int>, first: nat, past: nat) {
    |tlb| == TLB_PAGES / 2 && forall v :: first <= v < past && v % 2 == 0 ==> tlb[Index(v)] == v
  }

  lemma {:induction false} MappedMaps(tlb: seq<int>, first: nat, past: nat)
    requires |tlb| == TLB_PAGES / 2 && first % 2 == 0 && past % 2 == 0 && first <= past <= first + TLB_PAGES
    ensures Maps(Mapped(tlb, first, past), first, past)
  {
    hide Index;
    if first < past {
      var page := past - 2;
      var before := Mapped(tlb, first, page);
      MappedMaps(tlb, first, page);
      forall v | first <= v < past && v % 2 == 0
        ensures before[Index(page) := page][Index(v)] == v
      {
        if v != page {
          EntriesApart(v, page);
        }
      }
    }
  }

  // The entry is that of the pair, and there are 16 of them.
  lemma IndexOfPair(page: nat)
    ensures Index(page) == page / 2 % 16
  {
    var q, r := page / TLB_PAGES, page % TLB_PAGES;
    assert page / 2 == 16 * q + r / 2;
  }

  // Pairs of pages within one window go through different entries.
  lemma EntriesApart(u: nat, v: nat)
    requires u < v < u + TLB_PAGES && u % 2 == 0 && v % 2 == 0
    ensures Index(u) != Index(v)
  {
    IndexOfPair(u);
    IndexOfPair(v);
    Distinct(u / 2, v / 2);
  }

  lemma Distinct(a: nat, b: nat)
    requires a < b < a + 16
    ensures a % 16 != b % 16
  {}

  lemma OneMoreChunk(was: seq<int>, at: nat, left: nat, n: nat)
    requires left > 0 && n == ChunkSize(at, left)
    ensures was + Chunk(at, n) + Cleared(at + n, left - n) == was + Cleared(at, left)
  {
    assert was + Chunk(at, n) + Cleared(at + n, left - n) == was + (Chunk(at, n) + Cleared(at + n, left - n));
  }

  // The bytes a chunk asks for, cut to what was mapped.
  lemma ChunkIsCut(addr: nat, bcount: nat, count: nat)
    requires bcount > 0 && count == if bcount > CRM_MTE_MAX_XFER then CRM_MTE_MAX_XFER else bcount
    ensures var nbytes := (PastPage(addr, count) - addr / CRM_PAGE_SIZE) * CRM_PAGE_SIZE;
            ChunkSize(addr, bcount) == (if count < nbytes then count else nbytes) > 0
    ensures ChunkSize(addr, count) == ChunkSize(addr, bcount)
  {}

  lemma LastPageInWindow(addr: nat, bcount: nat)
    requires 0 < bcount <= CRM_MTE_MAX_XFER
    ensures BasePage(addr) <= LastPage(addr, bcount) < BasePage(addr) + TLB_PAGES
    ensures Reaches(addr, bcount, PastPage(addr, bcount))
    ensures PastPage(addr, bcount) % 2 == 0 && BasePage(addr) <= PastPage(addr, bcount) <= BasePage(addr) + TLB_PAGES
  {}

  // Behind the entries set for it, a chunk lands as Chunk says.
  lemma ChunkTranslates(tlb: seq<int>, addr: nat, bcount: nat)
    requires |tlb| == TLB_PAGES / 2 && 0 < bcount <= CRM_MTE_MAX_XFER
    ensures TranslateAll(Mapped(tlb, BasePage(addr), PastPage(addr, bcount)), addr, ChunkSize(addr, bcount))
            == Chunk(addr, ChunkSize(addr, bcount))
  {
    LastPageInWindow(addr, bcount);
    MappedMaps(tlb, BasePage(addr), PastPage(addr, bcount));
    ChunkBehind(Mapped(tlb, BasePage(addr), PastPage(addr, bcount)), addr, bcount, PastPage(addr, bcount),
      ChunkSize(addr, bcount));
  }

  lemma ChunkBehind(tlb: seq<int>, addr: nat, bcount: nat, past: nat, n: nat)
    requires Maps(tlb, BasePage(addr), past) && Reaches(addr, bcount, past) && 0 < bcount <= CRM_MTE_MAX_XFER
    requires past <= BasePage(addr) + TLB_PAGES && n == ChunkSize(addr, bcount)
    ensures TranslateAll(tlb, addr, n) == Chunk(addr, n)
  {
    var behind, chunk := TranslateAll(tlb, addr, n), Chunk(addr, n);
    forall i | 0 <= i < n
      ensures behind[i] == chunk[i]
    {
      TranslatesTo(tlb, addr, bcount, past, addr + i);
    }
  }

  // The pages mapped go to the end of the request, or of the window.
  predicate Reaches(addr: nat, bcount: nat, page: nat) {
    addr + bcount <= page * CRM_PAGE_SIZE || page == BasePage(addr) + TLB_PAGES
  }

  lemma TranslatesTo(tlb: seq<int>, addr: nat, bcount: nat, page: nat, a: nat)
    requires Maps(tlb, BasePage(addr), page) && Reaches(addr, bcount, page) && 0 < bcount <= CRM_MTE_MAX_XFER
    requires page <= BasePage(addr) + TLB_PAGES
    requires addr <= a < addr + ChunkSize(addr, bcount)
    ensures Translate(tlb, a) == Lands(addr, a)
  {
    hide Index, Translate, Maps;
    var v := a / CRM_PAGE_SIZE;
    if v < BasePage(addr) + TLB_PAGES {
      PairMapped(addr, bcount, page, a);
      InsideWindow(tlb, BasePage(addr), page, a, v - v % 2);
    } else {
      PastWindow(addr, bcount, a);
      AroundWindow(tlb, BasePage(addr), page, a);
    }
  }

  // A byte on one of the pages mapped, and one on the page after the last of them.
  lemma InsideWindow(tlb: seq<int>, base: nat, page: nat, a: nat, pair: nat)
    requires Maps(tlb, base, page) && pair == a / CRM_PAGE_SIZE - a / CRM_PAGE_SIZE % 2 && base <= pair < page
    ensures Translate(tlb, a) == a
  {
    hide Index, Translate;
    SamePair(a / CRM_PAGE_SIZE);
    assert tlb[Index(pair)] == pair;
    TranslatesBy(tlb, a, pair);
  }

  lemma AroundWindow(tlb: seq<int>, base: nat, page: nat, a: nat)
    requires Maps(tlb, base, page) && base < page && base % 2 == 0 && a / CRM_PAGE_SIZE == base + TLB_PAGES
    ensures Translate(tlb, a) == a - CRM_MTE_MAX_XFER
  {
    hide Index, Translate;
    ComesRound(base);
    assert tlb[Index(base)] == base;
    TranslatesBy(tlb, a, base);
  }

  // An entry leads to the page it holds, and the second of the pair to the next.
  lemma TranslatesBy(tlb: seq<int>, a: nat, pair: int)
    requires |tlb| == TLB_PAGES / 2 && tlb[Index(a / CRM_PAGE_SIZE)] == pair
    ensures Translate(tlb, a) == a + (pair - (a / CRM_PAGE_SIZE - a / CRM_PAGE_SIZE % 2)) * CRM_PAGE_SIZE
  {
    assert a == a / CRM_PAGE_SIZE * CRM_PAGE_SIZE + a % CRM_PAGE_SIZE;
  }

  // A chunk leads past the window by less than a page.
  lemma PastWindow(addr: nat, bcount: nat, a: nat)
    requires addr <= a < addr + ChunkSize(addr, bcount) && a / CRM_PAGE_SIZE >= BasePage(addr) + TLB_PAGES
    ensures a / CRM_PAGE_SIZE == BasePage(addr) + TLB_PAGES && BasePage(addr) % 2 == 0
  {}

  lemma PairMapped(addr: nat, bcount: nat, page: nat, a: nat)
    requires Reaches(addr, bcount, page) && addr <= a < addr + bcount
    requires a / CRM_PAGE_SIZE < BasePage(addr) + TLB_PAGES
    ensures var v := a / CRM_PAGE_SIZE;
            BasePage(addr) <= v - v % 2 && v < page && (v - v % 2) % 2 == 0
  {
    EvenPart(addr / CRM_PAGE_SIZE, a / CRM_PAGE_SIZE);
  }

  lemma EvenPart(u: nat, v: nat)
    requires u <= v
    ensures u - u % 2 <= v - v % 2 && (v - v % 2) % 2 == 0
  {}

  lemma SamePair(v: nat)
    ensures Index(v) == Index(v - v % 2)
  {
    IndexOfPair(v);
    IndexOfPair(v - v % 2);
  }

  lemma ComesRound(base: nat)
    ensures Index(base + TLB_PAGES) == Index(base)
  {
    IndexOfPair(base);
    IndexOfPair(base + TLB_PAGES);
    assert (base + TLB_PAGES) / 2 == base / 2 + 16;
  }

  // ---- what is cleared ----

  // Does the request start on a page, or fit into one window together with the
  // mapped bytes before it?
  predicate Safe(addr: nat, bcount: nat) {
    addr % CRM_PAGE_SIZE == 0 || Before(addr) + bcount <= CRM_MTE_MAX_XFER
  }

  // mte_zero clears the bytes asked for, once each and in order, exactly for
  // such requests.
  lemma ClearsExactly(addr: nat, bcount: nat)
    ensures Cleared(addr, bcount) == Range(addr, bcount) <==> Safe(addr, bcount)
  {
    if Safe(addr, bcount) {
      SafeClears(addr, bcount);
    } else {
      UnsafeStrays(addr, bcount);
    }
  }

  lemma {:induction false} SafeClears(addr: nat, bcount: nat)
    requires Safe(addr, bcount)
    ensures Cleared(addr, bcount) == Range(addr, bcount)
    decreases bcount
  {
    if bcount != 0 {
      var n := ChunkSize(addr, bcount);
      SafeClears(addr + n, bcount - n);
      SafeChunk(addr, bcount, n);
      assert Range(addr, bcount) == Range(addr, n) + Range(addr + n, bcount - n);
    }
  }

  lemma SafeChunk(addr: nat, bcount: nat, n: nat)
    requires Safe(addr, bcount) && n == ChunkSize(addr, bcount)
    ensures Chunk(addr, n) == Range(addr, n)
  {
    var chunk, range := Chunk(addr, n), Range(addr, n);
    forall i | 0 <= i < n
      ensures chunk[i] == range[i]
    {
      assert range[i] == addr + i < BasePage(addr) * CRM_PAGE_SIZE + CRM_MTE_MAX_XFER;
      assert chunk[i] == Lands(addr, addr + i);
    }
  }

  // Any other request clears bytes at the start of its first window instead of
  // the bytes past the end.
  lemma UnsafeStrays(addr: nat, bcount: nat)
    requires !Safe(addr, bcount)
    ensures var i := CRM_MTE_MAX_XFER - Before(addr);
            && 0 <= i < bcount && |Cleared(addr, bcount)| > i
            && Cleared(addr, bcount)[i] == BasePage(addr) * CRM_PAGE_SIZE != addr + i
  {
    var n := ChunkSize(addr, bcount);
    var i := CRM_MTE_MAX_XFER - Before(addr);
    assert 0 <= i < n;
    assert Chunk(addr, n)[i] == Lands(addr, addr + i);
  }

  // Whatever is asked for, as many bytes are cleared, each of them in the 32
  // pages of some chunk.
  lemma {:induction false} ClearsAsMany(addr: nat, bcount: nat)
    ensures |Cleared(addr, bcount)| == bcount
    decreases bcount
  {
    if bcount != 0 {
      ClearsAsMany(addr + ChunkSize(addr, bcount), bcount - ChunkSize(addr, bcount));
    }
  }
}
