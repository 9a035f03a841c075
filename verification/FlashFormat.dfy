// The layout of flash segments (include/flash.h) over the words of a flash ROM.
// Positions count 32-bit words from the start of the ROM, which is page aligned;
// segLen, a byte count in the header, is divided by four accordingly.
module FlashFormat {
  import opened Checksum
  import opened Words

  const HDR_WORDS := 16
  const FS_MAGIC := 2
  const FS_SEGLEN := 3
  const FS_LENS := 4   // nameLen, vsnLen, segType and pad, one byte each
  const FS_NAME := 5
  const FS_SUM := 15
  const SEG_MAX_NAME := 32
  const SEG_MAX_VSN := 8
  const FLASH_SEGMENT_MAGIC: Word := 0x53484452

  // ---- bytes in words, high byte first ----

  type Byte = b: int | 0 <= b < 256

  function ByteOf(w: Word, k: int): Byte
    requires 0 <= k < 4
  {
    if k == 0 then w / 0x1000000
    else if k == 1 then w / 0x10000 % 256
    else if k == 2 then w / 0x100 % 256
    else w % 256
  }

  function Join(b0: Byte, b1: Byte, b2: Byte, b3: Byte): Word {
    b0 * 0x1000000 + b1 * 0x10000 + b2 * 0x100 + b3
  }

  function Unpack(ws: seq<Word>): (bs: seq<Byte>)
    ensures |bs| == 4 * |ws|
  {
    seq(4 * |ws|, i requires 0 <= i < 4 * |ws| => ByteOf(ws[i / 4], i % 4))
  }

  function Pack(bs: seq<Byte>): (ws: seq<Word>)
    requires |bs| % 4 == 0
    ensures 4 * |ws| == |bs|
  {
    seq(|bs| / 4, i requires 0 <= i < |bs| / 4 => Join(bs[4 * i], bs[4 * i + 1], bs[4 * i + 2], bs[4 * i + 3]))
  }

  lemma JoinedBytes(b0: Byte, b1: Byte, b2: Byte, b3: Byte)
    ensures ByteOf(Join(b0, b1, b2, b3), 0) == b0 && ByteOf(Join(b0, b1, b2, b3), 1) == b1
    ensures ByteOf(Join(b0, b1, b2, b3), 2) == b2 && ByteOf(Join(b0, b1, b2, b3), 3) == b3
  {
    var w := Join(b0, b1, b2, b3);
    var top: int := b0 * 256 + b1;
    var high: int := top * 256 + b2;
    assert w == high * 256 + b3;
    assert w / 0x100 == high && w / 0x10000 == top;
  }

  // Bytes packed into words read back.
  lemma UnpackPack(bs: seq<Byte>)
    requires |bs| % 4 == 0
    ensures Unpack(Pack(bs)) == bs
  {
    var ws := Pack(bs);
    forall i | 0 <= i < |bs|
      ensures ByteOf(ws[i / 4], i % 4) == bs[i]
    {
      var w := i / 4;
      JoinedByteAt(bs[4 * w..4 * w + 4], i % 4);
    }
  }

  // And words unpacked pack back.
  lemma PackUnpack(ws: seq<Word>)
    ensures Pack(Unpack(ws)) == ws
  {
    hide ByteOf, Join;
    forall i | 0 <= i < |ws|
      ensures Pack(Unpack(ws))[i] == ws[i]
    {
      ByteAt(ws, i, 0);
      ByteAt(ws, i, 1);
      ByteAt(ws, i, 2);
      ByteAt(ws, i, 3);
      JoinBytes(ws[i]);
    }
  }

  lemma ByteAt(ws: seq<Word>, i: nat, k: nat)
    requires i < |ws| && k < 4
    ensures Unpack(ws)[4 * i + k] == ByteOf(ws[i], k)
  {
    assert (4 * i + k) / 4 == i && (4 * i + k) % 4 == k;
  }

  lemma UnpackConcat(v: seq<Word>, w: seq<Word>)
    ensures Unpack(v + w) == Unpack(v) + Unpack(w)
  {
    hide ByteOf;
    var all, parts := Unpack(v + w), Unpack(v) + Unpack(w);
    forall b | 0 <= b < |all|
      ensures all[b] == parts[b]
    {
      ByteAt(v + w, b / 4, b % 4);
      if b >= 4 * |v| {
        ByteAt(w, b / 4 - |v|, b % 4);
      }
    }
  }

  lemma UnpackSlice(ws: seq<Word>, i: nat, j: nat)
    requires i <= j <= |ws|
    ensures Unpack(ws[i..j]) == Unpack(ws)[4 * i..4 * j]
  {
    UnpackConcat(ws[..i], ws[i..j]);
    UnpackConcat(ws[..i] + ws[i..j], ws[j..]);
    assert ws == ws[..i] + ws[i..j] + ws[j..];
  }

  lemma JoinBytes(w: Word)
    ensures Join(ByteOf(w, 0), ByteOf(w, 1), ByteOf(w, 2), ByteOf(w, 3)) == w
  {
    var high, top := w / 0x100, w / 0x10000;
    assert w == high * 256 + w % 256 && high == top * 256 + high % 256;
    assert high / 256 == top && top / 256 == w / 0x1000000;
  }

  lemma JoinedByteAt(bs: seq<Byte>, k: nat)
    requires |bs| == 4 && k < 4
    ensures ByteOf(Join(bs[0], bs[1], bs[2], bs[3]), k) == bs[k]
  {
    JoinedBytes(bs[0], bs[1], bs[2], bs[3]);
  }

  // ---- headers ----

  type Header = h: seq<Word> | |h| == HDR_WORDS witness seq(HDR_WORDS, _ => 0)

  // What validHdr checks of a page-aligned header.
  predicate HeaderOk(hdr: Header) {
    hdr[FS_MAGIC] == FLASH_SEGMENT_MAGIC && hdr[FS_SEGLEN] % 4 == 0 && SumsToZero(hdr)
  }

  // The length of the segment, header and both checksums included, in words.
  function SegWords(hdr: Header): nat {
    hdr[FS_SEGLEN] / 4
  }

  function NameLen(hdr: Header): Byte {
    ByteOf(hdr[FS_LENS], 0)
  }

  // The bytes from the name field to the end of the header: name, version and
  // checksum.
  const NAME_ROOM := 44

  // The name and version fields, byte by byte.
  function NameBytes(hdr: Header): seq<Byte> {
    Unpack(hdr[FS_NAME..FS_SUM])
  }

  // A name is compared from the name field on, and may run past it.
  predicate HasName(hdr: Header, name: seq<Byte>)
    requires |name| <= NAME_ROOM
  {
    |name| == NameLen(hdr) && name == Unpack(hdr[FS_NAME..])[..|name|]
  }

  lemma NameInFields(hdr: Header, name: seq<Byte>)
    requires |name| <= 40 && |name| == NameLen(hdr) && name == NameBytes(hdr)[..|name|]
    ensures HasName(hdr, name)
  {
    var fields, all := NameBytes(hdr), Unpack(hdr[FS_NAME..]);
    forall i | 0 <= i < |name|
      ensures all[i] == name[i]
    {
      assert fields[..|name|][i] == fields[i];
      assert hdr[FS_NAME..FS_SUM][i / 4] == hdr[FS_NAME..][i / 4];
    }
  }

  // Words followed by the checksum that makes them sum to zero.
  function Seal(ws: seq<Word>): seq<Word> {
    ws + [Negate(Sum(ws) % TWO_TO_THE_32)]
  }

  lemma SealSumsToZero(ws: seq<Word>)
    ensures SumsToZero(Seal(ws))
  {
    var s := Seal(ws);
    assert s[|ws| := s[|ws|]] == s;
    assert s[|ws| := 0] == ws + [0];
    SumConcat(ws, [0]);
    SumOne(0);
    OnlyOneChecksum(s, |ws|, s[|ws|]);
  }

  // The bytes of the name and version fields after bcopy has put in the name and
  // then the version; what does not fit runs over the fields that follow.
  function FieldBytes(name: seq<Byte>, vsn: seq<Byte>): (bs: seq<Byte>)
    ensures |bs| == 40
  {
    seq(40, o requires 0 <= o < 40 =>
      if SEG_MAX_NAME <= o < SEG_MAX_NAME + |vsn| then vsn[o - SEG_MAX_NAME]
      else if o < |name| then name[o]
      else 0)
  }

  // The header of a segment of the given length, up to its checksum.
  function HeaderFront(reserved: seq<Word>, lens: seq<Byte>, fields: seq<Byte>, words: nat): (ws: seq<Word>)
    requires |reserved| == 2 && |lens| == 4 && |fields| == 40 && 4 * words < TWO_TO_THE_32
    ensures |ws| == FS_SUM
  {
    reserved + [FLASH_SEGMENT_MAGIC, 4 * words, Join(lens[0], lens[1], lens[2], lens[3])] + Pack(fields)
  }

  // Sealed, it is a valid header that reads back what went in.
  lemma SealedFront(reserved: seq<Word>, lens: seq<Byte>, fields: seq<Byte>, words: nat)
    requires |reserved| == 2 && |lens| == 4 && |fields| == 40 && 4 * words < TWO_TO_THE_32
    ensures var hdr := Seal(HeaderFront(reserved, lens, fields, words));
            HeaderOk(hdr) && SegWords(hdr) == words && NameLen(hdr) == lens[0] && NameBytes(hdr) == fields
  {
    var front := HeaderFront(reserved, lens, fields, words);
    assert front[FS_NAME..] == Pack(fields);
    JoinedBytes(lens[0], lens[1], lens[2], lens[3]);
    SealedFields(front, fields);
  }

  lemma SealedFields(front: seq<Word>, fields: seq<Byte>)
    requires |front| == FS_SUM && |fields| == 40 && front[FS_NAME..] == Pack(fields)
    requires front[FS_MAGIC] == FLASH_SEGMENT_MAGIC && front[FS_SEGLEN] % 4 == 0
    ensures HeaderOk(Seal(front)) && NameBytes(Seal(front)) == fields
  {
    SealSumsToZero(front);
    assert Seal(front)[FS_NAME..FS_SUM] == front[FS_NAME..];
    UnpackPack(fields);
  }

  // The header writeFlashSegment builds.
  function NewHeader(name: seq<Byte>, vsn: seq<Byte>, words: nat): Header
    requires |name| < 255 && |vsn| < 255 && 4 * words < TWO_TO_THE_32
  {
    Seal(NewFront(name, vsn, words))
  }

  function NewFront(name: seq<Byte>, vsn: seq<Byte>, words: nat): (ws: seq<Word>)
    requires |name| < 255 && |vsn| < 255 && 4 * words < TWO_TO_THE_32
    ensures |ws| == FS_SUM
  {
    HeaderFront([0, 0], [|name|, |vsn|, 0, 0], FieldBytes(name, vsn), words)
  }

  lemma NewHeaderOk(name: seq<Byte>, vsn: seq<Byte>, words: nat)
    requires |name| < 255 && |vsn| < 255 && 4 * words < TWO_TO_THE_32
    ensures var hdr := NewHeader(name, vsn, words);
            HeaderOk(hdr) && SegWords(hdr) == words && NameLen(hdr) == |name|
  {
    SealedFront([0, 0], [|name|, |vsn|, 0, 0], FieldBytes(name, vsn), words);
  }

  // A name of up to SEG_MAX_NAME bytes reads back, and so does a version of up
  // to SEG_MAX_VSN.
  lemma NewHeaderNamed(name: seq<Byte>, vsn: seq<Byte>, words: nat)
    requires |name| <= SEG_MAX_NAME && |vsn| < 255 && 4 * words < TWO_TO_THE_32
    ensures HasName(NewHeader(name, vsn, words), name)
    ensures |vsn| <= SEG_MAX_VSN ==>
              NameBytes(NewHeader(name, vsn, words))[SEG_MAX_NAME..SEG_MAX_NAME + |vsn|] == vsn
  {
    SealedFront([0, 0], [|name|, |vsn|, 0, 0], FieldBytes(name, vsn), words);
    FieldsReadBack(NewHeader(name, vsn, words), name, vsn);
  }

  lemma FieldsReadBack(hdr: Header, name: seq<Byte>, vsn: seq<Byte>)
    requires NameBytes(hdr) == FieldBytes(name, vsn) && NameLen(hdr) == |name| <= SEG_MAX_NAME
    ensures HasName(hdr, name)
    ensures |vsn| <= SEG_MAX_VSN ==> NameBytes(hdr)[SEG_MAX_NAME..SEG_MAX_NAME + |vsn|] == vsn
  {
    var bs := FieldBytes(name, vsn);
    assert bs[..|name|] == name;
    NameInFields(hdr, name);
    assert |vsn| <= SEG_MAX_VSN ==> bs[SEG_MAX_NAME..SEG_MAX_NAME + |vsn|] == vsn;
  }

  // ---- headers byte by byte ----

  // What the accessors read, by the offsets of the structure: four bytes of magic number
  // at 8, of length at 12, and the length of the name at 16.
  lemma HeaderFields(hdr: Header)
    ensures var bs := Unpack(hdr);
            && hdr[FS_MAGIC] == Join(bs[8], bs[9], bs[10], bs[11])
            && hdr[FS_SEGLEN] == Join(bs[12], bs[13], bs[14], bs[15])
            && NameLen(hdr) == bs[16] && NameBytes(hdr) == bs[20..60]
  {
    JoinBytes(hdr[FS_MAGIC]);
    JoinBytes(hdr[FS_SEGLEN]);
    UnpackSlice(hdr, FS_NAME, FS_SUM);
  }

  // The first 60 bytes of a sealed header.
  lemma FrontBytes(reserved: seq<Word>, lens: seq<Byte>, fields: seq<Byte>, words: nat)
    requires |reserved| == 2 && |lens| == 4 && |fields| == 40 && 4 * words < TWO_TO_THE_32
    ensures Unpack(Seal(HeaderFront(reserved, lens, fields, words)))[..60] ==
            Unpack(reserved) + [0x53, 0x48, 0x44, 0x52] + Unpack([4 * words]) + lens + fields
  {
    var front := HeaderFront(reserved, lens, fields, words);
    var third: Word := Join(lens[0], lens[1], lens[2], lens[3]);
    var hdr := Seal(front);
    UnpackSlice(hdr, 0, FS_SUM);
    assert hdr[0..FS_SUM] == reserved + [FLASH_SEGMENT_MAGIC] + [4 * words] + [third] + Pack(fields);
    Unpack5(reserved, [FLASH_SEGMENT_MAGIC], [4 * words], [third], Pack(fields));
    UnpackPack(fields);
    MagicBytes();
    LensBytes(lens);
  }

  lemma Unpack5(a: seq<Word>, b: seq<Word>, c: seq<Word>, d: seq<Word>, e: seq<Word>)
    ensures Unpack(a + b + c + d + e) == Unpack(a) + Unpack(b) + Unpack(c) + Unpack(d) + Unpack(e)
  {
    hide Unpack;
    UnpackConcat(a + b + c + d, e);
    UnpackConcat(a + b + c, d);
    UnpackConcat(a + b, c);
    UnpackConcat(a, b);
  }

  lemma MagicBytes()
    ensures Unpack([FLASH_SEGMENT_MAGIC]) == [0x53, 0x48, 0x44, 0x52]
  {}

  lemma LensBytes(lens: seq<Byte>)
    requires |lens| == 4
    ensures Unpack([Join(lens[0], lens[1], lens[2], lens[3])]) == lens
  {
    hide Unpack;
    assert Pack(lens) == [Join(lens[0], lens[1], lens[2], lens[3])];
    UnpackPack(lens);
  }

  // So the fields of a sealed header are at the offsets of the structure.
  lemma SealedBytes(reserved: seq<Word>, lens: seq<Byte>, fields: seq<Byte>, words: nat)
    requires |reserved| == 2 && |lens| == 4 && |fields| == 40 && 4 * words < TWO_TO_THE_32
    ensures var bs := Unpack(Seal(HeaderFront(reserved, lens, fields, words)));
            && bs[..8] == Unpack(reserved) && bs[8..12] == [0x53, 0x48, 0x44, 0x52]
            && Join(bs[12], bs[13], bs[14], bs[15]) == 4 * words && bs[16..20] == lens && bs[20..60] == fields
  {
    hide Unpack, HeaderFront, Join;
    var hdr := Seal(HeaderFront(reserved, lens, fields, words));
    FrontBytes(reserved, lens, fields, words);
    BytesInPlace(Unpack(hdr), Unpack(reserved), Unpack([4 * words]), lens, fields);
    JoinedLength(4 * words, Unpack(hdr));
  }

  lemma JoinedLength(len: Word, bs: seq<Byte>)
    requires |bs| == 64 && bs[12..16] == Unpack([len])
    ensures Join(bs[12], bs[13], bs[14], bs[15]) == len
  {
    JoinBytes(len);
    assert bs[12..16][0] == bs[12] && bs[12..16][1] == bs[13] && bs[12..16][2] == bs[14] && bs[12..16][3] == bs[15];
  }

  // The header writeFlashSegment builds, byte by byte: magic number, length, the lengths
  // of name and version, both from their fields on, and zeros.
  lemma NewHeaderBytes(name: seq<Byte>, vsn: seq<Byte>, words: nat)
    requires |name| < 255 && |vsn| < 255 && 4 * words < TWO_TO_THE_32
    ensures var bs := Unpack(NewHeader(name, vsn, words));
            && bs[..8] == seq(8, _ => 0) && bs[8..12] == [0x53, 0x48, 0x44, 0x52]
            && Join(bs[12], bs[13], bs[14], bs[15]) == 4 * words && bs[16..20] == [|name|, |vsn|, 0, 0]
            && bs[20..60] == seq(40, o requires 0 <= o < 40 =>
                 if 32 <= o < 32 + |vsn| then vsn[o - 32] else if o < |name| then name[o] else 0)
  {
    hide HeaderFront, Seal, Join;
    SealedBytes([0, 0], [|name|, |vsn|, 0, 0], FieldBytes(name, vsn), words);
    assert Unpack([0, 0]) == seq(8, _ => 0);
    hide Unpack;
  }

  lemma BytesInPlace(bs: seq<Byte>, reserved: seq<Byte>, len: seq<Byte>, lens: seq<Byte>, fields: seq<Byte>)
    requires |bs| == 64 && |reserved| == 8 && |len| == 4 && |lens| == 4 && |fields| == 40
    requires bs[..60] == reserved + [0x53, 0x48, 0x44, 0x52] + len + lens + fields
    ensures bs[..8] == reserved && bs[8..12] == [0x53, 0x48, 0x44, 0x52] && bs[12..16] == len
    ensures bs[16..20] == lens && bs[20..60] == fields
  {
    var front := bs[..60];
    assert bs[..8] == front[..8] && bs[8..12] == front[8..12] && bs[12..16] == front[12..16];
    assert bs[16..20] == front[16..20] && bs[20..60] == front[20..60];
  }

  // A change confined to one word of a header, or of a body, shows.
  lemma HeaderDamageShows(hdr: Header, i: nat, w: Word)
    requires HeaderOk(hdr) && i < HDR_WORDS && w != hdr[i]
    ensures !HeaderOk(hdr[i := w])
  {
    OneChangeDetected(hdr, i, w);
  }
}
