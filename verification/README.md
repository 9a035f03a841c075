# Verified models of the O2 PROM's codes, layouts and flash

This project models the parts of the SGI O2 (IP32) PROM sources whose meaning is
arithmetic or state, and proves what they are for.

* **Error-correcting codes of the R10000 secondary cache.** The nine row masks over
  a 128-bit quadword and the seven over a 26-bit tag correct every single flipped
  bit and report every pair, for every word and every position. `ParityCode` holds
  the theory of parity-check codes over sets of positions; `CacheEcc` gives it the
  masks of `include/sys/R10k.h` and shows that the columns are distinct and odd.
* **CRIME raster macros** (`include/ip32/crmDefs.h`). `PlaneMask`: when a plane mask
  can become a byte mask, and that exactly one byte mask then copies like it.
  `DmaSplit`: repeating the DMA split sends every byte of a tile once and in order,
  completes from every start exactly up to a certain row width, and uses the fewest
  pieces possible. `CopySpan`: the byte spans of a copy.
* **Clearing memory with the CRIME transfer engine.** `MteZero`: the chunks `mte_zero`
  cuts a request into, the TLB entries it sets for each, and which bytes are cleared
  in the end.
* **Self-checking layouts.** `Checksum` (sums modulo 2^32 that come to zero) serves
  the disk volume header (`VolumeHeader`) and everything about the flash.
* **The flash ROM.** `FlashFormat`, `FlashLayout`, `FlashWalk` and `FlashImage` describe
  segments; `FlashRom` is the class whose methods find, write and rewrite them, with
  exactly when the search for a name ends; `FlashUpdates` proves what an update or
  damage to one word does to every segment and every later search; `FlashBuild` is the
  image builder, and a ROM that starts with its image reads back as the files;
  `FlashBlocks` pairs the builder's block list with the boot loader that copies the
  blocks to RAM and sums the segment on the way, and states exactly which built files
  it runs.
* **Addresses.** `CacheAddress` rebuilds physical addresses from cache index and tag;
  `AddressSpace` compares two headers' kseg macros, one by one and in chains.

`dafny verify dfyconfig.toml` checks the whole project. Methods with loops model
the code that loops; each is proved against a function of its inputs or of the old
state, and lemmas about that function state what the code promises.

Where the sources and their own comments disagree, the model follows the code:

* `include/flash.h:20-38` wants segment lengths that are multiples of 8 and ends the
  list at a zero-length body. `validHdr` asks for a multiple of 4, and `nextSegment`
  ends the list at a header with an empty name (`src/libsk/ml/flash.c:91`).
* `mte_zero` counts the bytes it has mapped from the start of the first page, not from
  the address given. A request that neither starts on a page nor fits one 128KB window
  clears bytes at the start of that window instead of those past its end
  (`ClearsExactly`, `UnsafeStrays`).
* `CRM_124KB_SIZE` is the widest row the headers name. One byte more still always
  fits; `CompletesFromEveryStart` gives the exact bound.
* `nextSegment` adds the length of a valid header to its address in 32 bits. A length
  of zero, or of less than a page below 2^32, leads back to the same page, and other
  lengths that wrap lead to earlier ones: a search for another name that comes to such
  a header may never end (`OneHeaderLoops`, `BackToStart`). `LoopEndsExactly` says when
  a search ends.
* The builder's test for a file that is too long (`tools/flashbuild/buildFlash.c:163-171`)
  is for equality with the room left, which is negative once a file padded to the size
  of the flash fills the image: the next file is then stamped past the end
  (`PaddedToTheEnd`). A file that is refused has already been read into the image.
* `loadFile` ignores what `finishSegment` returns, so a file longer than its pad length
  is dropped and the image is built without it; its bytes stay where the next file
  goes, in the padding and in the last word of a file that does not fill it.
* The block loader copies sixteen bytes at a time, takes a length of zero for the end
  of the list and the word after that for the checksum, which the builder puts after
  the padding. So it runs a built segment properly if and only if the segment is of
  the type it loads, every section is a positive multiple of sixteen bytes and passes
  the overwrite guard, and there is no padding, or the words up to the first of the
  padding happen to sum to zero (`BuiltSegmentLoads`, `FinishedFileLoads`). The builder
  checks none of this.
* `writeSections` counts the placed sections without file data when it looks for the
  first. If the very first one is of that kind, no section is written as the first: the
  segment header is put over a block header and data, and the loader takes two words of
  data for the header of its first block (`FirstWithoutData`).
* The overwrite guard `validate` (`src/boot/post1.s:436-467`) takes what the block before
  left in a register for the end of the block. `OverCodeAccepted` and
  `OverStackAccepted` say exactly which blocks over the protected areas pass.
* The mask-based `K0_TO_K1` and `K1_TO_K0` differ from the range-based ones outside
  kseg0 and kseg1; `ConversionsAgree` and `BackAgain` say where.

A decoder for the cache codes is not part of the sources, which give the masks, the
bit count and the syndrome checks. `ParityCode.Decode` is the usual one for such
masks: flip the position whose column is the syndrome, if there is one.

## Model

| member | source | states |
|---|---|---|
| CacheEcc.CodeIsSecDed | include/sys/R10k.h:801-848 | both mask sets have distinct columns of odd weight, check bits included: what single-error correction and double-error detection need |
| CacheEcc.StoredWordProtected | include/sys/R10k.h:801-848 | for every quadword or tag and every set of flipped stored bits: none decodes clean, one is corrected at its place, two are reported, an even number is never corrected, an odd number never clean |
| CacheEcc.StoredWordsFarApart | include/sys/R10k.h:801-848 | the stored forms of two different words differ in at least four bits |
| CacheEcc.CheckBitIsMaskParity | include/sys/R10k.h:794-826 | a check fails on a word exactly when the bit counts of its high and low mask AND the word add up to an odd number |
| CacheEcc.DataChecks | include/sys/R10k.h:801-826 | each check bit stored with a quadword is the parity of the quadword under its own pair of masks |
| CacheEcc.TagChecks | include/sys/R10k.h:833-839 | each check bit stored with a tag is the parity of the tag under its own mask |
| CacheEcc.ThreeFlipsMistaken | include/sys/R10k.h:801-826 | flips of bits 63, 62 and 61 of the high word are mistaken, in every word, for one flip of bit 33 |
| CacheEcc.QuadwordIsExact | include/sys/R10k.h:841-849 | words and their sets of bits determine each other |
| CacheEcc.OddChecksOddColumn | include/sys/R10k.h:801-848 | a column has odd weight exactly when the position enters an odd number of checks |
| CacheEcc.HighColumnsDiffer | include/sys/R10k.h:801-826 | two bits of the high doubleword in the same checks are the same bit |
| CacheEcc.LowColumnsDiffer | include/sys/R10k.h:801-826 | the same for the low doubleword |
| CacheEcc.HalvesDiffer | include/sys/R10k.h:801-826 | no high bit enters the same checks as a low bit |
| CacheEcc.TagColumnsDiffer | include/sys/R10k.h:833-839 | two tag bits in the same checks are the same bit |
| ParityCode.SyndromeXor | include/sys/R10k.h:794-826 | the syndrome of an exclusive-or is the exclusive-or of the syndromes |
| ParityCode.RowFormIsColumnForm | include/sys/R10k.h:794-826 | for every list of flips, in any order and with any repetitions, the parities taken row by row equal the exclusive-or of the columns flipped |
| ParityCode.WordFormIsColumnForm | include/sys/R10k.h:794-826 | so for every word the parities taken row by row equal the exclusive-or of the columns of its set bits |
| ParityCode.SyndromeParity | include/sys/R10k.h:801-826 | with odd columns, the syndrome's weight has the parity of the number of flipped bits, whatever their number |
| ParityCode.CodewordsAreEncodings | include/sys/R10k.h:801-848 | the words on which no check fails are exactly the encodings |
| ParityCode.MinimumDistance | include/sys/R10k.h:801-848 | different data words have encodings that differ in at least four positions |
| ParityCode.DecodeExactly | include/sys/R10k.h:801-848 | decoding any stored word gives d exactly when the encoding of d is at most one flip away |
| ParityCode.ProtectedBy | include/sys/R10k.h:801-848 | what decoding gives after any set of flips, by their number |
| ParityCode.MistakenFor | include/sys/R10k.h:801-848 | data flips that fail the checks of another single position are mistaken for it |
| PlaneMask.SetCopyBytemask | include/ip32/crmDefs.h:117-148 | accepts exactly the masks with solid bytes, then gives the lane mask, otherwise leaves the mask as it was |
| PlaneMask.SetColorBytemask | include/ip32/crmDefs.h:88-116 | 0x78 for exactly the masks with solid bytes, 0 otherwise, although the bytes are scanned in the other order |
| PlaneMask.LaneMaskWorks | include/ip32/crmDefs.h:117-148 | copying under the lane mask equals (dst & ~pm) \| (src & pm) on every run of pixels |
| PlaneMask.OnlySolid | include/ip32/crmDefs.h:117-148 | a byte mask that copies like a plane mask exists only if the plane mask's bytes are solid |
| PlaneMask.OneLaneMask | include/ip32/crmDefs.h:117-148 | and it is the one the macro computes |
| PlaneMask.ByteMaskExists | include/ip32/crmDefs.h:117-148 | a byte mask copies like the plane mask if and only if the macro accepts and it is the macro's result |
| DmaSplit.DmaSetup | include/ip32/crmDefs.h:74-86 | in 32-bit words: a piece starts where it should, its overhead is what the start lies past a page boundary, and it carries the most whole rows that fit the window and the tile if and only if a tile that does not fit does not seem to after its byte count has wrapped |
| DmaSplit.FitsInWindow | include/ip32/crmDefs.h:76-83 | rows fit exactly when their last byte lies on one of the 32 pages from that of the start on |
| DmaSplit.MostInWindow | include/ip32/crmDefs.h:76-83 | so the rows of a piece stay on these pages, and one more row of the tile would not |
| DmaSplit.MostExactly | include/ip32/crmDefs.h:76-83 | the equivalence, and that below 4GB the number of rows is always right |
| DmaSplit.MostIsUnique | include/ip32/crmDefs.h:76-83 | that number of rows is determined |
| DmaSplit.PiecesCoverInOrder | include/ip32/crmDefs.h:74-86 | repeating the macro sends each byte of the rows once and in order |
| DmaSplit.PiecesFit | include/ip32/crmDefs.h:76-83 | each piece carries a row or more and, with its page overhead, fits the 128KB window |
| DmaSplit.NarrowRowsComplete | include/ip32/crmDefs.h:76-83 | rows up to the widest always complete, from any start and for any number of rows |
| DmaSplit.CompletesFromEveryStart | include/ip32/crmDefs.h:161-165 | a width completes from every start if and only if it is at most CRM_124KB_SIZE + 1 |
| DmaSplit.FewestPieces | include/ip32/crmDefs.h:74-86 | whenever any split into window-sized pieces exists, repeating the macro completes and uses no more pieces |
| DmaSplit.NonFinalPiece | include/ip32/crmDefs.h:76-83 | a piece that is not the last carries more than the window less overhead and row width |
| DmaSplit.PieceCount | include/ip32/crmDefs.h:76-83 | which bounds the number of pieces by the size of the tile |
| CopySpan.CopyForwardSetup | include/ip32/crmDefs.h:66-72 | in 32-bit integers: the bounds have the bits of the pixel numbers moved up by the shift, the last ones plus the byte offset; the spans have equal length, displaced by the offset, and hold exactly the bytes of the pixels, as far as these can be addressed, if and only if the byte offset is that of a pixel's last byte |
| CopySpan.TimesPow2Shifts | include/ip32/crmDefs.h:68-71 | bit by bit, for every number and every shift: the wrapped product with a power of two is the number shifted left |
| CopySpan.ShiftedIsOne | include/ip32/crmDefs.h:68-71 | there is only one such 32-bit number |
| CopySpan.PixelSizes | include/ip32/crmDefs.h:66-72 | pixels of 8, 16 and 32 bits have one, two and four bytes, for shifts of 0, 1 and 2 |
| CopySpan.ExactSpan | include/ip32/crmDefs.h:66-72 | a span from the first byte of the pixels holds exactly their bytes if and only if it ends at the last of them |
| CopySpan.SpanInWords | include/ip32/crmDefs.h:66-72 | the equivalence for one span in 32 bits |
| MteZero.Mte.SetTlb | src/lib/mte_copy.c:160-210 | the TLB afterwards, the indices of the entries set, no other of which changes, and the bytes counted |
| MteZero.PagesAskedFor | src/lib/mte_copy.c:165-198 | the pages mapped go from the even page of the first pair to the pair of the last page asked for, or to the end of the window, and no further |
| MteZero.IndicesExactly | src/lib/mte_copy.c:197-209 | an index is returned exactly when it is that of a pair of pages mapped |
| MteZero.Mte.Zero | src/lib/mte_copy.c:76-119 | ends, and clears exactly the bytes of Cleared, in order; engines before revision 1 clear nothing |
| MteZero.MappedMaps | src/lib/mte_copy.c:197-207 | the entries set for up to 32 pages map each of them, none overwriting another |
| MteZero.ChunkIsCut | src/lib/mte_copy.c:96-98 | the size of a chunk after both cuts |
| MteZero.ChunkTranslates | src/lib/mte_copy.c:165-207 | behind the entries set for it, a chunk's bytes land at their own addresses up to the end of the window and come round to its start after that |
| MteZero.ClearsExactly | src/lib/mte_copy.c:76-119 | a request clears the bytes asked for, once each and in order, if and only if it starts on a page or fits one window |
| MteZero.UnsafeStrays | src/lib/mte_copy.c:76-119 | the byte that any other request clears in the wrong place |
| MteZero.ClearsAsMany | src/lib/mte_copy.c:76-119 | as many bytes are cleared as were asked for |
| Checksum.OnlyOneChecksum | include/flash.h:32-33 | exactly one value of a word makes the whole sum to zero: the negated sum of the rest |
| Checksum.OneChangeDetected | include/flash.h:32-33 | any change confined to one word breaks a zero sum |
| Checksum.TwoChangesDetected | include/flash.h:32-33 | two changed words go unseen exactly when their sum stays the same |
| VolumeHeader.Header.VhChecksum | src/libsc/fs/is_vh.c:12-22 | the 32-bit sum of all words |
| VolumeHeader.Header.IsVh | src/libsc/fs/is_vh.c:53-60 | accepts exactly the headers whose first word is 0xbe5a941 and whose words sum to zero |
| VolumeHeader.ForgedMagicRejected | src/libsc/fs/is_vh.c:53-60 | another magic number is rejected even when a second changed word keeps the sum zero |
| VolumeHeader.BlankRejected | src/libsc/fs/is_vh.c:53-60 | so is a sector of zeros, whose sum is zero |
| VolumeHeader.Header.SetVhchksum | src/libsc/fs/is_vh.c:63-69 | makes the header valid and changes only the magic number and the checksum |
| VolumeHeader.OneWordDamageRejected | include/sys/dvh.h:25-31 | of all values of any one word, only its own is accepted |
| FlashFormat.UnpackPack | include/flash.h:47-58 | bytes packed into words read back |
| FlashFormat.SealSumsToZero | include/flash.h:32-33 | words followed by their negated sum come to zero |
| FlashFormat.NewHeaderOk | src/libsk/ml/flashwrite.c:46-69 | the header writeFlashSegment builds passes validHdr and gives its length and name length |
| FlashFormat.NewHeaderNamed | src/libsk/ml/flashwrite.c:46-69 | name and version read back from it, when they fit their fields |
| FlashFormat.NewHeaderBytes | src/libsk/ml/flashwrite.c:46-69 | the header writeFlashSegment builds, byte by byte at the offsets of the structure: magic number, length, the lengths of name and version, and both in their fields |
| FlashFormat.HeaderFields | include/flash.h:47-73 | magic number, length, name length and the two name fields are read at these offsets |
| FlashFormat.HeaderDamageShows | src/libsk/ml/flash.c:119-142 | a header changed in one word is no longer valid |
| FlashLayout.ChecksumEndsBody | include/flash.h:174-182 | segChksum is the last word of bodySize bytes from body exactly for whole-word lengths, and lies past the header checksum exactly for segments longer than a header |
| FlashLayout.BodyIsAtBody | include/flash.h:174-182 | body, bodySize and segChksum of a segment in a ROM are where the model's Body begins, how long it is and where it ends |
| FlashLayout.NewSegmentRoom | src/libsk/ml/flashwrite.c:51-54 | a new segment has room for its body and less than a word more |
| FlashWalk.NextIsNearest | src/libsk/ml/flash.c:44-95 | nextSegment returns a page exactly when it holds the first valid header from where the search starts, and that header has a name |
| FlashWalk.NextWalks | src/libsk/ml/flash.c:44-95 | calling nextSegment again and again visits the segments of the walk, up to one that leads back to its page or before |
| FlashWalk.LoopEndsExactly | src/libsk/ml/flash.c:20-41 | wherever the lengths in the headers lead in the ROM, a loop over nextSegment that stops at some pages, and must not meet some others, ends if and only if it does so within one call more than there are pages |
| FlashWalk.FoundAmong | src/libsk/ml/flash.c:30-41 | a loop may be run as one that stops more often and is gone on with, as findFlashSegment runs findFlashSegmentHdr |
| FlashWalk.WalkEnds | src/libsk/ml/flash.c:20-41 | where the segments of the walk lead on, the loop ends, at the first page of the walk to stop at |
| FlashWalk.ExtentsApart | src/libsk/ml/flash.c:71-77 | segments of a walk come in order and share no page |
| FlashWalk.WalkUnchanged | src/libsk/ml/flash.c:55-95 | a change inside a segment that keeps its extent keeps the walk |
| FlashWalk.LostHeader | src/libsk/ml/flash.c:55-95 | a lost header takes its segment off the walk; the segments before it stay and the walk goes on at the next page, in the body that was the segment's |
| FlashWalk.LostAlone | src/libsk/ml/flash.c:55-95 | and with that no other segment is lost, if no page of that body passes for a header |
| FlashImage.RoundUpFrom | src/libsk/ml/flash.c:71-77 | rounding the end of a segment up to a page is its page plus the pages it takes |
| FlashImage.NextPageAddress | src/libsk/ml/flash.c:71-77 | the 32-bit sum of address, length and page, rounded down, is the address of the page the model goes on at |
| FlashImage.NextPageExactly | src/libsk/ml/flash.c:71-77 | for every length: the search goes forward exactly when the length is not zero and the sum does not wrap, and then to the first page after the segment; it stays exactly for a length of zero or of less than a page below 2^32 |
| FlashImage.SlotByWords | src/libsk/ml/flash.c:119-142 | by the words of the ROM: a page holds a valid header exactly when the magic number is 0x53484452, the length is whole words and 16 words sum to zero; it is named exactly when the byte at 16 is not zero |
| FlashImage.NamedByBytes | src/libsk/ml/flash.c:24-25 | by the bytes of the ROM: a segment has a name exactly when the byte at 16 is its length and the bytes from 20 on are the name |
| FlashImage.NamedByHeader | src/libsk/ml/flash.c:24-25 | whether the name test succeeds is decided by the header alone, for names that fit between the name field and the header's end |
| FlashImage.FirstIsFirst | src/libsk/ml/flash.c:30-41 | the first of a list is k exactly when k is listed, is an intact segment of the name and nothing listed before is; nothing exactly when none is |
| FlashImage.FoundOnWalk | src/libsk/ml/flash.c:30-41 | where the segments of the walk lead on up to the first intact one of the name, the search ends and finds that one, or nothing if there is none |
| FlashImage.FirstIsFound | src/libsk/ml/flash.c:30-41 | so a search finds what comes first on the walk, if no segment of the name on the walk leads out of the ROM |
| FlashRom.FlashROM.ValidHdr | src/libsk/ml/flash.c:119-142 | accepts exactly a page boundary with the magic number 0x53484452 at 8, a length of whole words at 12 and 64 bytes that sum to zero |
| FlashRom.FlashROM.ValidBody | src/libsk/ml/flash.c:98-113 | accepts exactly a body that, checksum included, sums to zero |
| FlashRom.FlashROM.NextSegment | src/libsk/ml/flash.c:44-95 | refines FlashWalk.Next, wherever in the ROM or past it the lengths in the headers lead |
| FlashRom.FlashROM.StepOver | src/libsk/ml/flash.c:65-77 | the 32-bit address arithmetic, wrapping or not, goes to the page NextPage says, or to the next page |
| FlashRom.FlashROM.MatchName | src/libsk/ml/flash.c:24-25 | accepts exactly the name whose length is the byte at 16 and whose bytes are those from 20 on |
| FlashRom.FlashROM.FindSegmentHdr | src/libsk/ml/flash.c:20-27 | whenever the search ends, the first segment of that name among all that nextSegment returns |
| FlashRom.FlashROM.FindSegment | src/libsk/ml/flash.c:30-41 | whenever the search ends without coming to sum a body that is not in the ROM, the first segment of that name with an intact body among all that nextSegment returns |
| FlashRom.FlashROM.WriteFlashSegment | src/libsk/ml/flashwrite.c:28-88 | the whole new contents of the ROM: the new segment's words in place, the rest as before |
| FlashRom.FlashROM.RewriteFlashSegment | src/libsk/ml/flashwrite.c:91-169 | the whole new contents: a sealed new body under the old header, or nothing touched and EFAULT when the header is invalid |
| FlashUpdates.WrittenSegment | src/libsk/ml/flashwrite.c:28-88 | what was written is a valid, intact segment with that name and body |
| FlashUpdates.WriteExtendsWalk | src/libsk/ml/flashwrite.c:28-88 | written where the walk arrives, it comes after all earlier segments and before those past its pages |
| FlashUpdates.WriteFinds | src/libsk/ml/flashwrite.c:28-88 | a search for its name finds it, unless an earlier segment of that name is intact |
| FlashUpdates.RewriteKeepsWalk | src/libsk/ml/flashwrite.c:91-169 | a rewrite keeps the list of segments and every word of the others |
| FlashUpdates.RewriteFinds | src/libsk/ml/flashwrite.c:91-169 | after it, the segment is found by its name unless an earlier intact one is, and other names find what they found |
| FlashUpdates.DamagedHeader | src/libsk/ml/flash.c:119-142 | any change to one word of a header takes its segment off the walk; those before it stay, and the walk goes on at the page after the header, in the segment's body |
| FlashUpdates.DamagedAlone | src/libsk/ml/flash.c:119-142 | so it hides no other segment, on condition that no later page of the segment passes for a header |
| FlashUpdates.DamagedBody | src/libsk/ml/flash.c:98-113 | a changed body word keeps the list of segments, and every search passes that segment over |
| FlashUpdates.OneHeaderLoops | src/libsk/ml/flash.c:71-77 | with one valid header, of any length that does not lead below the ROM, the search for any other name ends if and only if the length is neither zero nor less than a page below 2^32 |
| FlashUpdates.BackToStart | src/libsk/ml/flash.c:71-77 | a length and a ROM address with which the second segment leads back to the first, so that a search for another name goes round for ever |
| FlashBuild.FlashBuilder.constructor | tools/flashbuild/buildFlash.c:55-58 | a blank image |
| FlashBuild.ReadStores | tools/flashbuild/buildFlash.c:158-172 | reading a file in stores its bytes and no others: what was in the rest of its last word stays |
| FlashBuild.FlashBuilder.LoadFile | tools/flashbuild/buildFlash.c:70-96 | refuses a file exactly when it gives as many bytes as there is room but for eight, and then these are left in the image; otherwise the whole new image, with the file's segment in place or its header only stamped, and the next free page |
| FlashBuild.FlashBuilder.BuildFlash | tools/flashbuild/buildFlash.c:45-69 | succeeds exactly when no file is refused; the image and the end are those of all the files up to the first refused |
| FlashBuild.FlashBuilder.FinishSegment | tools/flashbuild/buildFlash.c:211-282 | stamps the header over what the file has there, stores both checksums, moves to the next page; or only stamps it and fails, exactly when the file rounded up to words and its checksum are longer than the pad length asked for |
| FlashBuild.StampedBytes | tools/flashbuild/buildFlash.c:229-241 | that header byte by byte: magic number, length, lengths of name and version, type, both names; all other bytes as in the file |
| FlashBuild.LoadedBytes | tools/flashbuild/buildFlash.c:158-177 | a file that is taken has its bytes from the 64th on in the image, dropped or not, and the stamped header before them |
| FlashBuild.SpilledBytes | tools/flashbuild/buildFlash.c:163-171 | a refused file has left its first bytes in the image |
| FlashBuild.StaysInside | tools/flashbuild/buildFlash.c:158-177 | a file that is taken stays inside the image if and only if there is a page left and its pad length fits |
| FlashBuild.ReadyExactly | tools/flashbuild/buildFlash.c:211-282 | the condition on a file that is taken is that its segment stays inside the image and the loop over its body ends |
| FlashBuild.PaddedToTheEnd | tools/flashbuild/buildFlash.c:158-177 | after a file padded to the size of the flash, every file is taken and stamped past the end of the image |
| FlashBuild.OnePageFlash | tools/flashbuild/buildFlash.c:238-262 | an input on which that happens |
| FlashBuild.RefusedStays | tools/flashbuild/buildFlash.c:60-64 | the files after a refused one change nothing |
| FlashBuild.BuiltFinds | tools/flashbuild/buildFlash.c:45-69 | the first file of a name is found by that name and its segment holds its bytes |
| FlashBuild.FilesReadBack | tools/flashbuild/buildFlash.c:45-69 | in any ROM that starts with the image file, the walk first meets one segment for each file within its pad length, in the order of the files, with its name, its bytes and the length asked for, and none for a longer file; each first such file of a name is found by it |
| FlashBuild.ImageReadsBack | tools/flashbuild/buildFlash.c:45-69 | in any ROM that starts with the image file, the walk first meets exactly the segments of the files that are not dropped, in order, and each first such file of a name is found with its bytes, which are filled up with zeros when no file was dropped |
| FlashBuild.ImageWalk | tools/flashbuild/buildFlash.c:45-69 | in the image itself the walk meets nothing else, when no file is dropped |
| FlashBlocks.Loader | src/boot/post1.s:207-408 | the register loop, with the segment type, the guard and the register it compares, computes LoadSegment |
| FlashBlocks.NextBlock | src/boot/post1.s:277-310 | what the loop finds at a block: the end of the list, a reason to stop, or words to copy |
| FlashBlocks.Validate | src/boot/post1.s:436-467 | passes exactly the aligned blocks for which, in physical addresses, neither area lies between the end of the block before and the start of this one |
| FlashBlocks.OverCodeAccepted | src/boot/post1.s:436-467 | a block over the loader's code passes unless the test for the stack happens to refuse it |
| FlashBlocks.OverStackAccepted | src/boot/post1.s:436-467 | a block over the stack passes unless the test for the code happens to refuse it, and one over both always passes |
| FlashBlocks.OwnEndAccepted | src/boot/post1.s:442-464 | with the block's own end in the register every aligned block would pass |
| FlashBlocks.SumBlock | src/boot/post1.s:319-340 | the copy loop adds each word of a block once |
| FlashBlocks.WriteSections | tools/flashbuild/elfFiles.c:501-597 | the blocks of the sections with data, in order, ended by a zero-length block with the address of the last code section; the first has its header in the room it leaves, unless the first section placed has no data |
| FlashBlocks.EntryIsLastCode | tools/flashbuild/elfFiles.c:556-594 | the entry address is that of the last code section, wherever it stands |
| FlashBlocks.TailWords | include/flash.h:107-124 | each block has its address, its length and its data at offsets 0, 4 and 8; the last has length zero and the entry address |
| FlashBlocks.LoaderVerdict | src/boot/post1.s:267-408 | the loader runs a segment exactly when its block list ends properly and all its words up to the checksum sum to zero; with an empty first block, exactly when the word at the magic number is zero, hence never under a valid header |
| FlashBlocks.LoaderChecksBody | src/boot/post1.s:267-277 | under a valid header that is the sum validBody takes of the body |
| FlashBlocks.LoaderAgreesWithValidBody | src/boot/post1.s:267-277 | for a segment in a ROM whose list ends where its header says, the loader runs it exactly when validBody accepts it |
| FlashBlocks.DamagedSegmentExits | src/boot/post1.s:360-370 | a segment that runs does not run after a change to one word that leaves the end of its list in place |
| FlashBlocks.ParseTail | include/flash.h:89-98 | the blocks after the first parse back to the sections and the entry address, whatever follows, when all can be loaded |
| FlashBlocks.ParseLoses | src/boot/post1.s:277-349 | otherwise a list that ends has lost a section |
| FlashBlocks.BuiltSegmentLoads | src/boot/post1.s:267-408 | whatever follows a built segment, the loader copies all sections to their addresses in order and runs the entry address, if and only if the type is Xcopy, every section is a positive multiple of sixteen bytes and passes the guard, and there is no padding or the padding passes for the checksum; if it runs anything else, a section is missing |
| FlashBlocks.BuiltSegmentFails | src/boot/post1.s:277-349 | whatever follows it, a built segment hangs the copy loop exactly when the first section that cannot be loaded passes the guard and is not whole groups of sixteen bytes, is given back when the guard refuses that section, and is never read past |
| FlashBlocks.FinishedFileLoads | tools/flashbuild/buildFlash.c:211-282 | the same for the segment finishSegment makes of the blocks, read into a blank image: no pad length, or the segment's own, or a body that sums to zero before its checksum |
| FlashBlocks.FirstWithoutData | tools/flashbuild/elfFiles.c:521-554 | in that case the loader takes two words of the first section's data for the address and length of its first block |
| CacheAddress.ScacheLine | include/sys/R10k.h:346-347 | index and tag give a 40-bit address back, less its low six bits, if and only if the index adds no bit and lacks none of bits 17:6 |
| CacheAddress.ScacheLineBack | include/sys/R10k.h:346-347 | as the index with bits 22:6 of the address does |
| CacheAddress.PcacheWord | include/sys/R10k.h:349-350 | the virtual index gives the address back, less its low three bits, if and only if it has no bit of 13:12 that the physical address lacks |
| CacheAddress.PcacheWordBack | include/sys/R10k.h:349-350 | as a virtual address with the physical bits 13:12 does |
| CacheAddress.ScacheLinesApart | include/sys/R10k.h:346-347 | rebuilt addresses are equal exactly for addresses in the same line |
| AddressSpace.PredicatesAgree | include/sys/mips_addrspace.h:292-300 | range-based and mask-based kseg0, kseg1 and kuseg tests agree on every address |
| AddressSpace.TopBits | include/sys/mips_addrspace.h:292-300 | by either header, an address is in kuseg exactly when bit 31 is clear, and then in neither kseg0 nor kseg1, which are exactly those with top bits 100 and 101 |
| AddressSpace.ConversionsAgree | compat/irix_compat.h:66-71 | each pair of conversions agrees everywhere, except K0_TO_K1 where bit 31 is clear and K1_TO_K0 where bit 30 is set |
| AddressSpace.BackAgain | include/sys/mips_addrspace.h:161-173 | there and back is the identity exactly on the segment the conversion is from (for the mask-based kseg0 and kseg1 pair, exactly by bit 29) |
| AddressSpace.Lands | include/sys/mips_addrspace.h:161-173 | a conversion by either header gives the one address of the other segment for the same physical address |
| AddressSpace.ChainLands | include/sys/mips_addrspace.h:161-173 | so does every chain of conversions, however the two headers are mixed |
| AddressSpace.ChainsAgree | compat/irix_compat.h:66-71 | two chains between the same segments give the same address; one that returns to its segment returns to its address |

## Left out

- SC_ECC_PARITY_MASK (`include/sys/R10k.h:844`): the sources do not say which bits the extra parity bit covers.
- DmaSplit.Pieces: the loop around `CRM_DMA_SETUP` is not part of the sources; it is stated as a function that advances the start by `count` and takes off the rows sent, and stops at a piece without rows.
- DmaSplit.DmaSetup: the macro does not say how its arguments are declared; they are unsigned 32-bit words here, and a transfer that does not fit needs a nonzero row width, by which the macro divides. The lemmas about whole transfers are for tiles below 4GB, where the macro sets up the most rows.
- CopySpan.CopyForwardSetup: the results are signed 32-bit integers; of pixels whose bytes are not all numbered within 32 bits only the displacement is stated.
- MteZero.Mte.Zero: register writes, FIFO waits and the spin for completion are left out; that the engine finds the entry of a page by the index `mte_set_tlb` uses for it (`src/lib/mte_copy.c:199`) is taken from that code. Addresses and counts are unbounded.
- FlashRom.FlashROM.ValidHdr: offsets are those of whole addresses inside the ROM; a pointer outside it is not looked at.
- FlashRom.FlashROM.NextSegment: pointers are page numbers, which is what it returns; a search that is led below the ROM is not followed (a precondition, and the condition `LoopEnds`, exclude it). The ROM and one page after it must have addresses of 32 bits (`FlashImage.Addressed`).
- FlashRom.FlashROM.FindSegmentHdr: names are compared with bytes of the ROM (NameStays); one that leads out of the first page past the name field, with pages of less than 275 bytes, is not searched for. In FlashUpdates, names go up to the 44 bytes from the name field to the end of the header.
- FlashRom.FlashROM.RewriteFlashSegment: needs a segment inside the ROM with room for its checksum, and a buffer that fills it. Without room the code's copy loop starts past the place of the checksum and runs on (`FlashLayout.ChecksumEndsBody` gives the exact lengths).
- FlashRom.FlashROM.WriteFlashSegment: the fault path (setjmp), the write enable, and the sector-by-sector timing of `flashWrite` (`src/libsk/ml/IP32.c:500-525`) are left out; a write stores its word and no other.
- FlashBuild.FlashBuilder.FinishSegment: the allocation descriptors are left out, and so is what a sum that does not end, or a segment past the image, does to the memory there (`ReadyExactly` gives the exact condition for neither to happen). Pad lengths are whole words, without which the code's own assertion (`tools/flashbuild/buildFlash.c:273`) stops the builder; names and versions fit their fields.
- FlashBuild.FlashBuilder.LoadFile: code files go through the ELF loader, whose section placement and relocation are not modelled; opening files, read errors, compressed segments (refused by the code) and messages are left out.
- FlashBuild.ImageReadsBack: is stated where no file is refused; after a refusal the builder writes no image.
- FlashBlocks.WriteSections: only the case of a segment copied to RAM; the data of a section are whole words. Without a code section the entry address is whatever the variable held, a parameter here.
- FlashBlocks.Loader: copies are recorded at the block's address, which the code forces into kseg1; that a copy the guard lets through may overwrite the loader itself is not followed any further; reads past the words given end in Stray; the memory controller and cache settings around the jump are left out.
- FlashRom.FlashROM.FindSegment: a search that comes to a segment of the name that leads out of the ROM, before an intact one, is excluded: the code would sum what lies past the ROM.
- AddressSpace.PredicatesAgree: `IS_KSEG2` is left out, because its range in `include/sys/mips_addrspace.h:328` ends at KPTE_SHDUBASE, which is not part of this model; so are the 64-bit and EVEREST variants.
- Allocation, environment variables, console, SCSI, file systems, the configuration tree and the register maps would add other subjects or easy members only.
