// The address macros of a flash segment (include/flash.h:158-184), in bytes, and
// the word positions the other modules use for them.
module FlashLayout {
  import Words
  import opened FlashFormat
  import opened FlashImage

  const HDR_BYTES := 4 * HDR_WORDS

  // __RUP
  function RoundUp(x: nat): nat {
    (x + 3) / 4 * 4
  }

  // chksum, body, bodySize, and segChksum, which newSegChksum repeats for a header
  // that is not in place yet.
  function ChksumAt(f: nat): nat {
    f + 4 * FS_SUM
  }

  function BodyAt(f: nat): nat {
    ChksumAt(f) + 4
  }

  function BodySize(segLen: nat): int {
    segLen - HDR_BYTES
  }

  function SegChksumAt(f: nat, segLen: nat): int {
    RoundUp(f + segLen) - 4
  }

  // The segment checksum is the last word of the body exactly when the length is
  // whole words, and it lies past the header checksum exactly when the segment is
  // longer than its header.
  lemma ChecksumEndsBody(f: nat, segLen: nat)
    requires f % 4 == 0
    ensures SegChksumAt(f, segLen) + 4 == BodyAt(f) + BodySize(segLen) <==> segLen % 4 == 0
    ensures SegChksumAt(f, segLen) > ChksumAt(f) <==> segLen > HDR_BYTES
  {
    RoundUpFromWord(f, segLen);
  }

  lemma RoundUpFromWord(f: nat, n: nat)
    requires f % 4 == 0
    ensures RoundUp(f + n) == f + RoundUp(n) && n <= RoundUp(n) < n + 4
    ensures RoundUp(n) == n <==> n % 4 == 0
  {
    assert (f + n + 3) / 4 == f / 4 + (n + 3) / 4;
  }

  lemma HeldLength(g: Geometry, rom: seq<Words.Word>, k: nat)
    requires Shaped(g, rom) && Holds(g, rom, k)
    ensures Hdr(g, rom, k)[FS_SEGLEN] == 4 * SegWords(Hdr(g, rom, k)) && SegWords(Hdr(g, rom, k)) >= HDR_WORDS
    ensures |Body(g, rom, k)| == SegWords(Hdr(g, rom, k)) - HDR_WORDS
  {
    assert HeaderOk(Hdr(g, rom, k));
  }

  // In a ROM that starts at base, the bytes from body on, bodySize of them, are
  // the words of Body, and segChksum is the last of these.
  lemma BodyIsAtBody(g: Geometry, rom: seq<Words.Word>, k: nat, base: nat)
    requires Shaped(g, rom) && Holds(g, rom, k) && base % 4 == 0
    ensures var f, segLen := base + 4 * Pos(g, k), Hdr(g, rom, k)[FS_SEGLEN];
            && BodySize(segLen) == 4 * |Body(g, rom, k)|
            && BodyAt(f) == base + 4 * (Pos(g, k) + HDR_WORDS)
            && SegChksumAt(f, segLen) == base + 4 * (Pos(g, k) + SegWords(Hdr(g, rom, k)) - 1)
  {
    hide Slots, Addressed;
    HeldLength(g, rom, k);
    RoundUpFromWord(base + 4 * Pos(g, k), Hdr(g, rom, k)[FS_SEGLEN]);
  }

  // The length writeFlashSegment puts in a header leaves room for the bytes of
  // the body and less than a word more.
  lemma NewSegmentRoom(f: nat, bodyLen: nat)
    requires f % 4 == 0
    ensures var segLen := HDR_BYTES + RoundUp(bodyLen) + 4;
            && segLen == 4 * NewWords(bodyLen)
            && bodyLen <= SegChksumAt(f, segLen) - BodyAt(f) < bodyLen + 4
  {
    RoundUpFromWord(0, bodyLen);
    RoundUpFromWord(f, HDR_BYTES + RoundUp(bodyLen) + 4);
  }
}
