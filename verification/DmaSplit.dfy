// CRM_DMA_SETUP (include/ip32/crmDefs.h:74-86): one step of splitting the
// transfer of a tile of whole rows so that each piece stays inside the 128KB
// that the engine maps from the page its start address lies in.
module DmaSplit {
  import opened Words

  const CRM_4KB_PAGE_SIZE := 0x1000
  const CRM_128KB_PAGE_SIZE := 0x20000
  const CRM_124KB_SIZE := 0x1f000

  // dmaBuf: where a piece starts and how many rows it has.
  datatype Piece = Piece(buf: nat, ylen: nat)

  // The offset of an address in its page; the macro masks with ~CRM_4KB_PAGE_MASK.
  function Overhead(addr: nat): nat {
    addr % CRM_4KB_PAGE_SIZE
  }

  // Do n rows from addr lie inside the window that starts at addr's page?
  predicate Fits(addr: nat, width: nat, n: nat) {
    width * n + Overhead(addr) <= CRM_128KB_PAGE_SIZE
  }

  // Is n the most rows out of tileh that one piece from addr can carry?
  predicate Most(addr: nat, width: nat, tileh: nat, n: nat) {
    n <= tileh && Fits(addr, width, n) && (n < tileh ==> !Fits(addr, width, n + 1))
  }

  function Wrap(x: nat): nat {
    x % TWO_TO_THE_32
  }

  // What the macro takes for the bytes of a tile and the overhead, in 32 bits; the
  // bytes of the rows may have wrapped before.
  function BytesAndOverhead(addr: nat, width: nat, tileh: nat): nat {
    Wrap(Wrap(width * tileh) + Overhead(addr))
  }

  // The macro, in unsigned words.  It divides by the row width only when the transfer
  // does not fit.  When totalbytes is the tile's size, its results are the most rows
  // of the tile exactly if a tile that does not fit does not fit in 32 bits either.
  method DmaSetup(dmastart: nat, totalbytes: nat, widthSrc: nat, tileh: nat)
    returns (overhead: nat, validbytes: nat, tmpYlen: nat, count: nat, dmaBuf: Piece)
    requires Wrap(totalbytes + Overhead(dmastart)) > CRM_128KB_PAGE_SIZE ==> widthSrc > 0
    ensures dmaBuf.buf == dmastart
    ensures totalbytes == Wrap(widthSrc * tileh) ==>
              (Most(dmastart, widthSrc, tileh, dmaBuf.ylen) <==>
                Fits(dmastart, widthSrc, tileh) || BytesAndOverhead(dmastart, widthSrc, tileh) > CRM_128KB_PAGE_SIZE)
    ensures Wrap(totalbytes + overhead) > CRM_128KB_PAGE_SIZE ==> count <= validbytes < count + widthSrc
    ensures Wrap(totalbytes + overhead) <= CRM_128KB_PAGE_SIZE ==> dmaBuf.ylen == tileh
    ensures count == Wrap(widthSrc * dmaBuf.ylen) && tmpYlen == dmaBuf.ylen
    ensures overhead == Overhead(dmastart) && overhead + validbytes == CRM_128KB_PAGE_SIZE
    ensures overhead < CRM_4KB_PAGE_SIZE && (dmastart - overhead) % CRM_4KB_PAGE_SIZE == 0
  {
    overhead := dmastart % CRM_4KB_PAGE_SIZE;
    validbytes := CRM_128KB_PAGE_SIZE - overhead;
    if Wrap(totalbytes + overhead) > CRM_128KB_PAGE_SIZE {
      tmpYlen := validbytes / widthSrc;
      QuotientBelow(validbytes, widthSrc);
    } else {
      tmpYlen := tileh;
    }
    count := Wrap(widthSrc * tmpYlen);
    dmaBuf := Piece(dmastart, tmpYlen);
    if totalbytes == Wrap(widthSrc * tileh) {
      MostExactly(dmastart, widthSrc, tileh, tmpYlen);
    }
  }

  lemma MostExactly(addr: nat, width: nat, tileh: nat, n: nat)
    requires if BytesAndOverhead(addr, width, tileh) > CRM_128KB_PAGE_SIZE
             then width > 0 && n == (CRM_128KB_PAGE_SIZE - Overhead(addr)) / width
             else n == tileh
    ensures Most(addr, width, tileh, n) <==>
            Fits(addr, width, tileh) || BytesAndOverhead(addr, width, tileh) > CRM_128KB_PAGE_SIZE
    ensures width * tileh + Overhead(addr) < TWO_TO_THE_32 ==> Most(addr, width, tileh, n)
  {
    if BytesAndOverhead(addr, width, tileh) > CRM_128KB_PAGE_SIZE {
      WrapsBelow(width * tileh, Overhead(addr));
      QuotientIsMost(addr, width, tileh);
    } else {
      WrapsAlike(width * tileh, Overhead(addr));
    }
  }

  lemma QuotientBelow(x: nat, d: nat)
    requires d > 0 && x < TWO_TO_THE_32
    ensures Wrap(d * (x / d)) <= x < Wrap(d * (x / d)) + d
  {
    var n := d * (x / d);
    Division(x, d, n);
    Small(n);
  }

  lemma Division(x: nat, d: nat, n: int)
    requires d > 0 && n == d * (x / d)
    ensures 0 <= n <= x < n + d
  {
    assert n + x % d == x;
  }

  lemma Small(n: nat)
    requires n < TWO_TO_THE_32
    ensures Wrap(n) == n
  {}

  lemma WrapsBelow(x: nat, y: nat)
    ensures Wrap(Wrap(x) + y) <= x + y
  {}

  lemma WrapsAlike(x: nat, y: nat)
    ensures x + y < TWO_TO_THE_32 ==> Wrap(Wrap(x) + y) == x + y
  {}

  // Does the last byte of n rows from addr lie on one of the 32 pages from addr's on?
  predicate InWindow(addr: nat, width: nat, n: nat) {
    width * n == 0 || (addr + width * n - 1) / 4096 < addr / 4096 + 32
  }

  // That is what it is to fit: the overhead is the offset of the address in its page.
  lemma FitsInWindow(addr: nat, width: nat, n: nat)
    ensures Fits(addr, width, n) <==> InWindow(addr, width, n)
  {
    PageOfLast(addr, width * n);
  }

  lemma PageOfLast(addr: nat, bytes: int)
    ensures bytes > 0 ==> (bytes + addr % 4096 <= 32 * 4096 <==> (addr + bytes - 1) / 4096 < addr / 4096 + 32)
  {}

  // So a piece carries the most rows that stay on the 32 pages from its first.
  lemma MostInWindow(addr: nat, width: nat, tileh: nat, n: nat)
    ensures Most(addr, width, tileh, n) <==>
            n <= tileh && InWindow(addr, width, n) && (n < tileh ==> !InWindow(addr, width, n + 1))
  {
    FitsInWindow(addr, width, n);
    FitsInWindow(addr, width, n + 1);
  }

  // The rows of the piece the macro sets up.
  ghost function Rows(addr: nat, width: nat, tileh: nat): (n: nat)
    ensures Most(addr, width, tileh, n)
  {
    MostExists(addr, width, tileh);
    var n :| Most(addr, width, tileh, n);
    n
  }

  lemma MostExists(addr: nat, width: nat, tileh: nat)
    ensures exists n :: Most(addr, width, tileh, n)
  {
    if Fits(addr, width, tileh) {
      assert Most(addr, width, tileh, tileh);
    } else {
      QuotientIsMost(addr, width, tileh);
    }
  }

  lemma QuotientIsMost(addr: nat, width: nat, tileh: nat)
    requires !Fits(addr, width, tileh)
    ensures width > 0
    ensures Most(addr, width, tileh, (CRM_128KB_PAGE_SIZE - Overhead(addr)) / width)
  {
    var valid := CRM_128KB_PAGE_SIZE - Overhead(addr);
    assert width > 0;
    var q := valid / width;
    assert width * q <= valid < width * (q + 1);
    if tileh <= q {
      TimesMonotone(width, tileh, q);
    }
  }

  lemma TimesMonotone(width: nat, m: nat, n: nat)
    requires m <= n
    ensures width * m <= width * n
  {}

  // Only one number of rows is the most.
  lemma MostIsUnique(addr: nat, width: nat, tileh: nat, m: nat, n: nat)
    requires Most(addr, width, tileh, m) && Most(addr, width, tileh, n)
    ensures m == n
  {
    if m < n {
      TimesMonotone(width, m + 1, n);
    } else if n < m {
      TimesMonotone(width, n + 1, m);
    }
  }

  // ---- whole transfers ----

  // Set up a piece, advance the start by its bytes, take its rows off the tile,
  // and repeat; stop when no rows are left or a piece carries none.
  ghost function Pieces(addr: nat, width: nat, tileh: nat): seq<Piece>
    decreases tileh
  {
    var n := Rows(addr, width, tileh);
    if n == 0 then [] else [Piece(addr, n)] + Pieces(addr + width * n, width, tileh - n)
  }

  function RowsSent(ps: seq<Piece>): nat {
    if ps == [] then 0 else ps[0].ylen + RowsSent(ps[1..])
  }

  // Does the transfer send the whole tile?
  ghost predicate Complete(addr: nat, width: nat, tileh: nat) {
    RowsSent(Pieces(addr, width, tileh)) == tileh
  }

  // The addresses the pieces transfer, in order.
  function Bytes(ps: seq<Piece>, width: nat): seq<nat> {
    if ps == [] then [] else Range(ps[0].buf, width * ps[0].ylen) + Bytes(ps[1..], width)
  }

  // Every byte of the rows sent goes out exactly once and in order.
  lemma {:induction false} PiecesCoverInOrder(addr: nat, width: nat, tileh: nat)
    ensures RowsSent(Pieces(addr, width, tileh)) <= tileh
    ensures Bytes(Pieces(addr, width, tileh), width) == Range(addr, width * RowsSent(Pieces(addr, width, tileh)))
    decreases tileh
  {
    var n := Rows(addr, width, tileh);
    if n != 0 {
      var rest := Pieces(addr + width * n, width, tileh - n);
      PiecesCoverInOrder(addr + width * n, width, tileh - n);
      FirstPiece(addr, width, n, rest);
    }
  }

  lemma FirstPiece(addr: nat, width: nat, n: nat, rest: seq<Piece>)
    requires Bytes(rest, width) == Range(addr + width * n, width * RowsSent(rest))
    ensures var ps := [Piece(addr, n)] + rest;
            RowsSent(ps) == n + RowsSent(rest) && Bytes(ps, width) == Range(addr, width * RowsSent(ps))
  {
    var ps := [Piece(addr, n)] + rest;
    assert ps[1..] == rest;
    TimesAdd(width, n, RowsSent(rest));
    RangeSplits(addr, width * n, width * RowsSent(rest));
  }

  lemma TimesAdd(width: nat, m: nat, n: nat)
    ensures width * (m + n) == width * m + width * n
  {}

  lemma RangeSplits(addr: nat, m: nat, n: nat)
    ensures Range(addr, m) + Range(addr + m, n) == Range(addr, m + n)
  {}

  // Each piece lies in the window of the page it starts in.
  lemma {:induction false} PiecesFit(addr: nat, width: nat, tileh: nat)
    ensures forall p :: p in Pieces(addr, width, tileh) ==> p.ylen > 0 && Fits(p.buf, width, p.ylen)
    decreases tileh
  {
    var n := Rows(addr, width, tileh);
    if n != 0 {
      PiecesFit(addr + width * n, width, tileh - n);
    }
  }

  // ---- when a transfer completes ----

  // Rows this wide always fit, even from the last byte of a page.
  const WIDEST_ROW := CRM_128KB_PAGE_SIZE - (CRM_4KB_PAGE_SIZE - 1)

  lemma {:induction false} NarrowRowsComplete(addr: nat, width: nat, tileh: nat)
    requires width <= WIDEST_ROW
    ensures Complete(addr, width, tileh)
    decreases tileh
  {
    var n := Rows(addr, width, tileh);
    if tileh > 0 {
      assert Fits(addr, width, 1);
      assert n > 0;
      NarrowRowsComplete(addr + width * n, width, tileh - n);
      assert Pieces(addr, width, tileh)[1..] == Pieces(addr + width * n, width, tileh - n);
    }
  }

  // The row widths that complete from every start are exactly those up to
  // WIDEST_ROW; CRM_124KB_SIZE is one byte below.
  lemma CompletesFromEveryStart(width: nat, tileh: nat)
    requires tileh > 0
    ensures (forall addr: nat :: Complete(addr, width, tileh)) <==> width <= WIDEST_ROW
    ensures WIDEST_ROW == CRM_124KB_SIZE + 1
  {
    if width <= WIDEST_ROW {
      forall addr: nat ensures Complete(addr, width, tileh) {
        NarrowRowsComplete(addr, width, tileh);
      }
    } else {
      var addr: nat := CRM_4KB_PAGE_SIZE - 1;
      var n := Rows(addr, width, tileh);
      if n > 0 {
        TimesMonotone(width, 1, n);
      }
      assert Pieces(addr, width, tileh) == [];
      assert !Complete(addr, width, tileh);
    }
  }

  // ---- how many pieces ----

  // A list of pieces that sends the tile in order, each inside its window.
  predicate Splits(ps: seq<Piece>, addr: nat, width: nat, tileh: nat) {
    if ps == [] then tileh == 0
    else
      && ps[0].buf == addr && ps[0].ylen <= tileh && Fits(addr, width, ps[0].ylen)
      && Splits(ps[1..], addr + width * ps[0].ylen, width, tileh - ps[0].ylen)
  }

  // Starting later, the window ends no earlier.
  lemma WindowsAdvance(addr: nat, width: nat, skip: nat, n: nat)
    requires Fits(addr, width, skip + n)
    ensures Fits(addr + width * skip, width, n)
  {
    var skipped := width * skip;
    assert width * (skip + n) == skipped + width * n;
    PagesAdvance(addr, skipped);
  }

  lemma PagesAdvance(addr: nat, d: nat)
    ensures Overhead(addr + d) <= Overhead(addr) + d
  {
    var q := addr / CRM_4KB_PAGE_SIZE;
    if addr + d >= (q + 1) * CRM_4KB_PAGE_SIZE {
      assert (addr + d) / CRM_4KB_PAGE_SIZE >= q;
    }
  }

  // The most rows from here reach at least as far as y rows from skip rows back.
  lemma ReachesAsFar(addr: nat, width: nat, tileh: nat, skip: nat, y: nat)
    requires skip <= y <= tileh && Fits(addr, width, y)
    ensures Rows(addr + width * skip, width, tileh - skip) >= y - skip
  {
    var here, left := addr + width * skip, tileh - skip;
    var n := Rows(here, width, left);
    WindowsAdvance(addr, width, skip, y - skip);
    if n < y - skip {
      TimesMonotone(width, n + 1, y - skip);
    }
  }

  // Does the transfer complete in at most k pieces?
  ghost predicate CompleteIn(addr: nat, width: nat, tileh: nat, k: nat) {
    Complete(addr, width, tileh) && |Pieces(addr, width, tileh)| <= k
  }

  lemma OnePiece(addr: nat, width: nat, tileh: nat, n: nat)
    requires n == Rows(addr, width, tileh) > 0
    ensures |Pieces(addr, width, tileh)| == 1 + |Pieces(addr + width * n, width, tileh - n)|
    ensures Complete(addr, width, tileh) <==> Complete(addr + width * n, width, tileh - n)
  {
    assert Pieces(addr, width, tileh)[1..] == Pieces(addr + width * n, width, tileh - n);
  }

  lemma OneMorePiece(addr: nat, width: nat, tileh: nat, n: nat, k: nat)
    requires n == Rows(addr, width, tileh) > 0 && CompleteIn(addr + width * n, width, tileh - n, k)
    ensures CompleteIn(addr, width, tileh, k + 1)
  {
    OnePiece(addr, width, tileh, n);
  }

  lemma NothingLeft(addr: nat, width: nat, k: nat)
    ensures CompleteIn(addr, width, 0, k)
  {}

  // The macro's transfer, ahead of some other split by skip rows, stays ahead.
  lemma {:induction false} StaysAhead(ps: seq<Piece>, addr: nat, width: nat, tileh: nat, skip: nat, here: nat)
    requires Splits(ps, addr, width, tileh) && skip <= tileh && here == addr + width * skip
    ensures CompleteIn(here, width, tileh - skip, |ps|)
    decreases |ps|
  {
    if skip == tileh {
      NothingLeft(here, width, |ps|);
    } else {
      var y := ps[0].ylen;
      var there := addr + width * y;
      if y <= skip {
        TimesAdd(width, y, skip - y);
        StaysAhead(ps[1..], there, width, tileh - y, skip - y, here);
      } else {
        ReachesAsFar(addr, width, tileh, skip, y);
        var n := Rows(here, width, tileh - skip);
        SameGround(addr, width, skip, n, y);
        StaysAhead(ps[1..], there, width, tileh - y, skip + n - y, here + width * n);
        OneMorePiece(here, width, tileh - skip, n, |ps| - 1);
      }
    }
  }

  lemma SameGround(addr: nat, width: nat, skip: nat, n: nat, y: nat)
    requires y <= skip + n
    ensures addr + width * skip + width * n == addr + width * y + width * (skip + n - y)
  {
    TimesAdd(width, skip, n);
    TimesAdd(width, y, skip + n - y);
  }

  // Repeating the macro completes whenever the tile can be split at all, and
  // then with the fewest pieces.
  lemma FewestPieces(ps: seq<Piece>, addr: nat, width: nat, tileh: nat)
    requires Splits(ps, addr, width, tileh)
    ensures Complete(addr, width, tileh) && |Pieces(addr, width, tileh)| <= |ps|
  {
    StaysAhead(ps, addr, width, tileh, 0, addr);
  }

  // Every piece but the last carries more than half a window.
  const SMALLEST_STEP := (WIDEST_ROW + 1) / 2

  lemma NonFinalPiece(addr: nat, width: nat, tileh: nat)
    requires width <= WIDEST_ROW && Rows(addr, width, tileh) < tileh
    ensures width * Rows(addr, width, tileh) > CRM_128KB_PAGE_SIZE - Overhead(addr) - width
    ensures width * Rows(addr, width, tileh) >= SMALLEST_STEP
  {
    var n := Rows(addr, width, tileh);
    TimesAdd(width, n, 1);
    if n > 0 {
      TimesMonotone(width, 1, n);
    }
  }

  // So a transfer of some bytes takes at most one piece more than they fill steps.
  lemma {:induction false} PieceCount(addr: nat, width: nat, tileh: nat, bytes: nat)
    requires 0 < width <= WIDEST_ROW && tileh > 0 && bytes == width * tileh
    ensures (|Pieces(addr, width, tileh)| - 1) * SMALLEST_STEP < bytes
    decreases tileh
  {
    var n := Rows(addr, width, tileh);
    TimesMonotone(width, 1, tileh);
    if n < tileh {
      var rest := bytes - width * n;
      NonFinalPiece(addr, width, tileh);
      TimesAdd(width, n, tileh - n);
      PieceCount(addr + width * n, width, tileh - n, rest);
      OnePiece(addr, width, tileh, n);
      OneMoreStep(|Pieces(addr + width * n, width, tileh - n)|, width * n, rest);
    } else {
      OnePiece(addr, width, tileh, n);
      assert |Pieces(addr, width, tileh)| == 1;
    }
  }

  lemma OneMoreStep(pieces: nat, bytes: nat, rest: nat)
    requires (pieces - 1) * SMALLEST_STEP < rest && bytes >= SMALLEST_STEP
    ensures (1 + pieces - 1) * SMALLEST_STEP < bytes + rest
  {}
}
