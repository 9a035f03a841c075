// Physical addresses put together from a cache index and a tag after a cache
// error (include/sys/R10k.h:140, 170, 241-242, 346-350).  Index and tag overlap.
module CacheAddress {

  // The index masks CE_SINDX_MASK and CE_PINDX_MASK, and the tag masks
  // CTS_TAG_MASK and CTP_TAG_MASK.
  function ScacheErrorAddr(cer: bv64, tag: bv64): bv64 {
    (cer & 0x7fffc0) | ((tag & 0xfffffc000) << 4)
  }

  function PcacheErrorAddr(cer: bv64, tag: bv64): bv64 {
    (cer & 0x3ff8) | ((tag & 0xfffffff00) << 4)
  }

  // Does the tag hold bits 39:18 of the address?
  predicate SecondaryTagOf(tag: bv64, pa: bv64) {
    (tag & 0xfffffc000) << 4 == pa & 0xfffffc0000
  }

  // In a primary cache, bits 39:12.
  predicate PrimaryTagOf(tag: bv64, pa: bv64) {
    (tag & 0xfffffff00) << 4 == pa & 0xfffffff000
  }

  // Is this an address of 40 bits?
  predicate IsAddress(pa: bv64) {
    pa < 0x100_0000_0000
  }

  // The index of a line of the secondary cache gives the line's address back if
  // and only if it has no bit the address lacks and lacks none of the address's
  // bits 17:6 (bits 22:18 come from the tag as well) ...
  lemma ScacheLine(cer: bv64, tag: bv64, pa: bv64)
    requires IsAddress(pa) && SecondaryTagOf(tag, pa)
    ensures ScacheErrorAddr(cer, tag) == pa & !0x3f <==>
            cer & 0x7fffc0 & !pa == 0 && pa & 0x3ffc0 & !cer == 0
  {
    if cer & 0x7fffc0 & !pa == 0 && pa & 0x3ffc0 & !cer == 0 {
      IndexSuffices(cer, tag, pa);
    }
    if ScacheErrorAddr(cer, tag) == pa & !0x3f {
      IndexShows(cer, tag, pa);
    }
  }

  lemma IndexSuffices(cer: bv64, tag: bv64, pa: bv64)
    requires IsAddress(pa) && SecondaryTagOf(tag, pa)
    requires cer & 0x7fffc0 & !pa == 0 && pa & 0x3ffc0 & !cer == 0
    ensures ScacheErrorAddr(cer, tag) == pa & !0x3f
  {}

  lemma IndexShows(cer: bv64, tag: bv64, pa: bv64)
    requires IsAddress(pa) && SecondaryTagOf(tag, pa) && ScacheErrorAddr(cer, tag) == pa & !0x3f
    ensures cer & 0x7fffc0 & !pa == 0 && pa & 0x3ffc0 & !cer == 0
  {}

  // ... as the index with bits 22:6 of the address itself does.
  lemma ScacheLineBack(cer: bv64, tag: bv64, pa: bv64)
    requires IsAddress(pa) && SecondaryTagOf(tag, pa) && cer & 0x7fffc0 == pa & 0x7fffc0
    ensures ScacheErrorAddr(cer, tag) == pa & !0x3f
  {}

  // A primary cache is indexed by bits 13:3 of the virtual address, which has the
  // page offset of the physical one: the address comes back exactly when the
  // virtual address has neither of bits 13:12 without the physical one having it
  // too ...
  lemma PcacheWord(va: bv64, tag: bv64, pa: bv64)
    requires IsAddress(pa) && PrimaryTagOf(tag, pa) && va & 0xfff == pa & 0xfff
    ensures PcacheErrorAddr(va, tag) == pa & !0x7 <==> va & 0x3000 & !pa == 0
  {}

  // ... as when they agree on both.
  lemma PcacheWordBack(va: bv64, tag: bv64, pa: bv64)
    requires IsAddress(pa) && PrimaryTagOf(tag, pa) && va & 0xfff == pa & 0xfff && va & 0x3000 == pa & 0x3000
    ensures PcacheErrorAddr(va, tag) == pa & !0x7
  {
    PcacheWord(va, tag, pa);
  }

  // Index and tag tell any two lines of 64 bytes apart.
  lemma ScacheLinesApart(cer: bv64, tag: bv64, pa: bv64, cer': bv64, tag': bv64, pa': bv64)
    requires IsAddress(pa) && SecondaryTagOf(tag, pa) && cer & 0x7fffc0 == pa & 0x7fffc0
    requires IsAddress(pa') && SecondaryTagOf(tag', pa') && cer' & 0x7fffc0 == pa' & 0x7fffc0
    ensures ScacheErrorAddr(cer, tag) == ScacheErrorAddr(cer', tag') <==> pa & !0x3f == pa' & !0x3f
  {
    ScacheLineBack(cer, tag, pa);
    ScacheLineBack(cer', tag', pa');
  }
}
