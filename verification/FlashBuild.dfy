// Building a flash image from files (tools/flashbuild/buildFlash.c): each file
// becomes one segment, and the image reads back as the files, in order.
module FlashBuild {
  import opened Checksum
  import opened FlashFormat
  import opened FlashWalk
  import opened FlashImage
  import opened FlashUpdates
  import opened Words

  // A file to load.  Its first 64 bytes leave room for the segment header; padTo is the
  // length to pad the segment to, zero for none.
  datatype File = File(name: seq<Byte>, vsn: seq<Byte>, segType: Byte, data: seq<Byte>, padTo: nat)

  // The words it takes up, the last one perhaps in part.
  function DataWords(f: File): nat {
    (|f.data| + 3) / 4
  }

  // What the builder takes for granted: a name and a version that fit their
  // fields, and a pad length of whole words.
  predicate Loadable(f: File) {
    0 < |f.name| <= SEG_MAX_NAME && |f.vsn| <= SEG_MAX_VSN && f.padTo % 4 == 0
  }

  // The builder leaves a file unfinished when it is longer than its pad length,
  // and goes on as if it were not there.
  predicate Dropped(f: File) {
    f.padTo != 0 && f.padTo < 4 * (DataWords(f) + 1)
  }

  // Is there no pad length, or one for the file rounded up to words and a checksum?
  predicate WithinPad(f: File) {
    f.padTo == 0 || (|f.data| + 3) / 4 * 4 + 4 <= f.padTo
  }

  // The length of the segment: the data and a checksum, padded.
  function FinalWords(f: File): nat {
    if f.padTo != 0 && !Dropped(f) then f.padTo / 4 else DataWords(f) + 1
  }

  // The name and version copied over what the file has in their fields.
  function Overlay(fields: seq<Byte>, name: seq<Byte>, vsn: seq<Byte>): (bs: seq<Byte>)
    requires |fields| == 40
    ensures |bs| == 40
  {
    seq(40, o requires 0 <= o < 40 =>
      if SEG_MAX_NAME <= o < SEG_MAX_NAME + |vsn| then vsn[o - SEG_MAX_NAME]
      else if o < |name| then name[o]
      else fields[o])
  }

  // The header finishSegment makes out of the words at its place, up to its sum.
  function Stamped(f: File, head: Header): (ws: seq<Word>)
    requires Loadable(f) && 4 * FinalWords(f) < TWO_TO_THE_32
    ensures |ws| == FS_SUM
  {
    HeaderFront(head[..FS_MAGIC], [|f.name|, |f.vsn|, f.segType, ByteOf(head[FS_LENS], 3)],
      Overlay(NameBytes(head), f.name, f.vsn), FinalWords(f))
  }

  // The words of the image finishSegment looks at or writes, from the header on.
  function Reach(f: File): nat {
    var words := if Dropped(f) then DataWords(f) else FinalWords(f);
    if words < HDR_WORDS then HDR_WORDS else words
  }

  // What finishSegment makes of the words at its place in the image.
  function Finished(f: File, rom: seq<Word>, at: nat): (ws: seq<Word>)
    requires Loadable(f) && 4 * FinalWords(f) < TWO_TO_THE_32 && at + Reach(f) <= |rom|
    requires Dropped(f) || FinalWords(f) > HDR_WORDS
    ensures |ws| == if Dropped(f) then FS_SUM else FinalWords(f)
  {
    var stamped := Stamped(f, rom[at..at + HDR_WORDS]);
    if Dropped(f) then stamped
    else Seal(stamped) + Seal(rom[at + HDR_WORDS..at + FinalWords(f) - 1])
  }

  function Zeros(n: nat): seq<Word> {
    seq(n, _ => 0)
  }

  lemma PosOf(g: Geometry, k: nat)
    ensures Pos(g, k) == k * g.page
  {}

  lemma FinishedParts(f: File, rom: seq<Word>, at: nat)
    requires Loadable(f) && 4 * FinalWords(f) < TWO_TO_THE_32 && at + Reach(f) <= |rom|
    requires Dropped(f) || FinalWords(f) > HDR_WORDS
    ensures var stamped := Stamped(f, rom[at..at + HDR_WORDS]);
            if Dropped(f) then Finished(f, rom, at) == stamped
            else Finished(f, rom, at) == Seal(stamped) + Seal(rom[at + HDR_WORDS..at + FinalWords(f) - 1])
  {}

  // ---- reading a file in ----

  // Bytes put over words.  The bytes of the last word they do not reach stay.
  function Over(data: seq<Byte>, under: seq<Word>): (ws: seq<Word>)
    requires |data| <= 4 * |under|
    ensures |ws| == (|data| + 3) / 4
  {
    Pack(data + Unpack(under)[|data|..4 * ((|data| + 3) / 4)])
  }

  // Bytes filled up with zeros to whole words.
  function Filled(data: seq<Byte>, words: nat): (ws: seq<Word>)
    requires |data| <= 4 * words
    ensures |ws| == words
  {
    Pack(data + seq(4 * words - |data|, _ => 0))
  }

  // What read does to the image.
  function ReadIn(rom: seq<Word>, at: nat, data: seq<Byte>): (r: seq<Word>)
    requires 4 * at + |data| <= 4 * |rom|
    ensures |r| == |rom|
  {
    PutWords(rom, at, Over(data, rom[at..]))
  }

  // It stores the bytes and no other.
  lemma ReadStores(rom: seq<Word>, at: nat, data: seq<Byte>)
    requires 4 * at + |data| <= 4 * |rom|
    ensures Unpack(ReadIn(rom, at, data)) == Unpack(rom)[..4 * at] + data + Unpack(rom)[4 * at + |data|..]
  {
    hide Pack, Unpack;
    var n, all := (|data| + 3) / 4, Unpack(rom);
    var under := all[4 * at..];
    UnpackSlice(rom, at, |rom|);
    assert rom[at..] == rom[at..|rom|];
    assert all[4 * at..] == all[4 * at..4 * |rom|];
    assert Over(data, rom[at..]) == Pack(data + under[|data|..4 * n]);
    UnpackPack(data + under[|data|..4 * n]);
    UnpackPut(rom, at, Over(data, rom[at..]));
    Regroup(all, 4 * at, data, 4 * n);
  }

  lemma Regroup(all: seq<Byte>, at: nat, data: seq<Byte>, n: nat)
    requires |data| <= n && at + n <= |all|
    ensures all[..at] + (data + all[at..][|data|..n]) + all[at + n..] == all[..at] + data + all[at + |data|..]
  {}

  lemma UnpackPut(rom: seq<Word>, at: nat, ws: seq<Word>)
    requires at + |ws| <= |rom|
    ensures Unpack(PutWords(rom, at, ws)) == Unpack(rom)[..4 * at] + Unpack(ws) + Unpack(rom)[4 * at + 4 * |ws|..]
  {
    hide Unpack;
    var end := at + |ws|;
    UnpackConcat(rom[..at] + ws, rom[end..]);
    UnpackConcat(rom[..at], ws);
    UnpackSlice(rom, 0, at);
    UnpackSlice(rom, end, |rom|);
    assert rom[..at] == rom[0..at] && rom[end..] == rom[end..|rom|];
  }

  // ---- which files are taken ----

  // The most bytes of a file that are read: all the room left, but for eight.
  function MaxData(g: Geometry, k: nat): int {
    4 * (g.pages * g.page - Pos(g, k)) - 8
  }

  // A file that gives as many is refused.
  predicate Takes(g: Geometry, k: nat, f: File) {
    MaxData(g, k) < 0 || |f.data| < MaxData(g, k)
  }

  predicate PadFits(g: Geometry, k: nat, f: File) {
    f.padTo != 0 && !Dropped(f) ==> Pos(g, k) + f.padTo / 4 <= g.pages * g.page
  }

  // Can the file be loaded at page k?  There must be a page left; of a file that is
  // taken, the pad length must fit, and the segment must be longer than a header.
  predicate Ready(g: Geometry, k: nat, f: File) {
    && Loadable(f) && k < g.pages
    && (Takes(g, k, f) ==> PadFits(g, k, f) && (Dropped(f) || FinalWords(f) > HDR_WORDS))
  }

  // That is what it takes to stay inside the image: a file that is taken does so
  // exactly when there is a page left and the pad length fits.
  lemma StaysInside(g: Geometry, k: nat, f: File)
    requires g.page >= HDR_WORDS && k <= g.pages && Loadable(f) && Takes(g, k, f)
    ensures Pos(g, k) + Reach(f) <= g.pages * g.page <==> k < g.pages && PadFits(g, k, f)
  {
    if k < g.pages {
      PageFits(g, k);
    }
  }

  // The word of the segment that the sum of the body comes to after n others.
  function SumAt(n: nat): nat {
    HDR_WORDS + n
  }

  // Does the sum of the body ever come to the place of its checksum, where it stops?
  ghost predicate SumEnds(f: File) {
    exists n :: SumAt(n) == FinalWords(f) - 1
  }

  // So a file that is taken can be loaded exactly when its segment stays inside the
  // image and, if it is finished, its sum ends; one no longer than a header goes on
  // past the image.
  lemma ReadyExactly(g: Geometry, k: nat, f: File)
    requires g.page >= HDR_WORDS && k <= g.pages && Loadable(f) && Takes(g, k, f)
    ensures Ready(g, k, f) <==> Pos(g, k) + Reach(f) <= g.pages * g.page && (Dropped(f) || SumEnds(f))
  {
    StaysInside(g, k, f);
    if FinalWords(f) > HDR_WORDS {
      assert SumAt(FinalWords(f) - 1 - HDR_WORDS) == FinalWords(f) - 1;
    }
  }

  // A file padded to the size of the flash fills the image.  Then nothing is left to
  // read into, and the next file, whatever it is, is not refused but stamped past
  // the end of the image.
  lemma PaddedToTheEnd(g: Geometry, f: File, next: File)
    requires g.page >= HDR_WORDS && Ready(g, 0, f) && Takes(g, 0, f) && !Dropped(f)
    requires f.padTo == 4 * (g.pages * g.page) && Loadable(next)
    ensures EndOf(g, [f]) == g.pages && MaxData(g, g.pages) == -8
    ensures Takes(g, g.pages, next) && Pos(g, g.pages) + Reach(next) > g.pages * g.page
  {
    var total := g.pages * g.page;
    assert f.padTo / 4 == total && Pos(g, g.pages) == total;
    QuotientUnique(total + g.page - 1, g.page, g.pages, g.page - 1);
    OneFile(g, f);
  }

  lemma OneFile(g: Geometry, f: File)
    requires g.page > 0 && Takes(g, 0, f)
    ensures EndOf(g, [f]) == PagesTaken(g, f)
  {
    assert [f][..|[f]| - 1] == [];
    assert Placed(g, []) == Progress(0, true);
  }

  // For one, a file of sixteen words, and a flash of one page of 256 bytes.
  lemma OnePageFlash()
    ensures var g, f := Geometry(64, 1, 0), File([65], [], 0, seq(64, _ => 0), 256);
            Ready(g, 0, f) && Takes(g, 0, f) && !Dropped(f) && f.padTo == 4 * (g.pages * g.page)
  {}

  // ---- the builder ----

  // The image after a file is loaded at page k.
  function Loaded(g: Geometry, rom: seq<Word>, k: nat, f: File): (r: seq<Word>)
    requires HasSize(g) && Shaped(g, rom) && Ready(g, k, f) && Takes(g, k, f)
    ensures |r| == |rom|
  {
    StaysInside(g, k, f);
    var raw := ReadIn(rom, Pos(g, k), f.data);
    PutWords(raw, Pos(g, k), Finished(f, raw, Pos(g, k)))
  }

  // The pages it takes up.
  function PagesTaken(g: Geometry, f: File): nat
    requires g.page > 0
  {
    if Dropped(f) then 0 else PagesOf(g, FinalWords(f))
  }

  // The image after a file is refused: what was read of it is left there.
  function Spilled(g: Geometry, rom: seq<Word>, k: nat, f: File): (r: seq<Word>)
    requires Shaped(g, rom) && Ready(g, k, f) && !Takes(g, k, f)
    ensures |r| == |rom|
  {
    ReadIn(rom, Pos(g, k), f.data[..MaxData(g, k)])
  }

  // A file that is refused has left there as many bytes as were read.
  lemma SpilledBytes(g: Geometry, rom: seq<Word>, k: nat, f: File, b: nat)
    requires Shaped(g, rom) && Ready(g, k, f) && !Takes(g, k, f) && b + 8 < 4 * (g.pages * g.page - k * g.page)
    ensures b < |f.data| && 4 * (k * g.page) + b < 4 * |rom|
    ensures Unpack(Spilled(g, rom, k, f))[4 * (k * g.page) + b] == f.data[b]
  {
    hide Unpack, Over, ReadIn;
    ReadStores(rom, Pos(g, k), f.data[..MaxData(g, k)]);
  }

  // One that is taken has its bytes from the 64th on there, whether it is finished or
  // dropped, and the header stamped before them.  (It stays inside, by StaysInside.)
  lemma LoadedBytes(g: Geometry, rom: seq<Word>, k: nat, f: File, at: nat, raw: seq<Word>, r: seq<Word>)
    requires HasSize(g) && Shaped(g, rom) && Ready(g, k, f) && Takes(g, k, f)
    requires at == Pos(g, k) && at + Reach(f) <= |rom| == |raw| == |r|
    requires raw == ReadIn(rom, at, f.data) && r == Loaded(g, rom, k, f)
    ensures r[at..at + FS_SUM] == Stamped(f, raw[at..at + HDR_WORDS])
    ensures forall b :: 64 <= b < |f.data| ==> Unpack(r)[4 * at + b] == f.data[b]
  {
    hide Unpack, Over, ReadIn, Stamped, Finished;
    FinishedParts(f, raw, at);
    KeepsBody(f, raw, at, r);
    forall b | 64 <= b < |f.data|
      ensures Unpack(r)[4 * at + b] == f.data[b]
    {
      SameWordByte(raw, r, at, 4 * at + b, at + DataWords(f));
      ReadStores(rom, at, f.data);
    }
  }

  // finishSegment leaves the words after the header up to its end alone.
  lemma KeepsBody(f: File, raw: seq<Word>, at: nat, r: seq<Word>)
    requires Loadable(f) && 4 * FinalWords(f) < TWO_TO_THE_32 && at + Reach(f) <= |raw|
    requires Dropped(f) || FinalWords(f) > HDR_WORDS
    requires r == PutWords(raw, at, Finished(f, raw, at))
    ensures forall i :: at + HDR_WORDS <= i < at + DataWords(f) ==> r[i] == raw[i]
    ensures r[at..at + FS_SUM] == Stamped(f, raw[at..at + HDR_WORDS])
  {
    hide Stamped, Finished;
    FinishedParts(f, raw, at);
  }

  lemma SameWordByte(raw: seq<Word>, r: seq<Word>, at: nat, b: nat, end: nat)
    requires |raw| == |r| && end <= |r| && 4 * (at + HDR_WORDS) <= b < 4 * end
    requires forall i :: at + HDR_WORDS <= i < end ==> r[i] == raw[i]
    ensures Unpack(r)[b] == Unpack(raw)[b]
  {}

  class FlashBuilder {
    const g: Geometry
    const image: array<Word>
    var end: nat   // the page the next segment starts at

    ghost predicate Valid()
      reads image
    {
      HasSize(g) && Shaped(g, image[..])
    }

    constructor (g: Geometry)
      requires HasSize(g)
      ensures Valid() && fresh(image) && this.g == g && end == 0 && image[..] == Zeros(g.pages * g.page)
    {
      this.g := g;
      image := new Word[g.pages * g.page](_ => 0);
      end := 0;
    }

    // loadFile, for a data file: read it in, and unless it is too long finish the
    // segment.  Whether that succeeds is not looked at.
    method LoadFile(f: File) returns (sts: nat)
      requires Valid() && Ready(g, end, f)
      modifies this, image
      ensures Valid() && (sts == 0 <==> Takes(g, old(end), f))
      ensures var room := 4 * image.Length - 4 * (old(end) * g.page); sts == 0 <==> room < 8 || |f.data| < room - 8
      ensures sts == 0 ==> image[..] == Loaded(g, old(image[..]), old(end), f) && end == old(end) + PagesTaken(g, f)
      ensures sts != 0 ==> image[..] == Spilled(g, old(image[..]), old(end), f) && end == old(end)
    {
      hide Pack, Unpack, Finished, Over;
      PageFits(g, end);
      var seg := end * g.page;
      var maxData := 4 * (image.Length - seg) - 8;
      var len := if |f.data| < maxData then |f.data| else maxData;
      CopyIn(seg, Over(f.data[..len], image[seg..]));
      if len == maxData {
        return 1;
      }
      assert f.data[..len] == f.data;
      StaysInside(g, end, f);
      var _ := FinishSegment(f);
      return 0;
    }

    // buildFlash: one segment after the other, until a file is refused.
    method BuildFlash(files: seq<File>) returns (sts: nat)
      requires Valid() && end == 0 && image[..] == Zeros(g.pages * g.page) && Fit(g, files)
      modifies this, image
      ensures Valid() && (sts == 0 <==> Accepted(g, files))
      ensures image[..] == ImageOf(g, files) && end == EndOf(g, files)
    {
      var i := 0;
      assert files[..0] == [];
      while i < |files|
        invariant 0 <= i <= |files|
        invariant Fit(g, files[..i]) && Accepted(g, files[..i])
        invariant Valid() && image[..] == ImageOf(g, files[..i]) && end == EndOf(g, files[..i])
      {
        sts := LoadNext(files, i);
        i := i + 1;
        if sts != 0 {
          RefusedStays(g, files, i);
          return;
        }
      }
      assert files[..i] == files;
      return 0;
    }

    method LoadNext(files: seq<File>, i: nat) returns (sts: nat)
      requires Valid() && Fit(g, files) && i < |files| && Fit(g, files[..i]) && Accepted(g, files[..i])
      requires image[..] == ImageOf(g, files[..i]) && end == EndOf(g, files[..i])
      modifies this, image
      ensures Valid() && Fit(g, files[..i + 1]) && (sts == 0 <==> Accepted(g, files[..i + 1]))
      ensures image[..] == ImageOf(g, files[..i + 1]) && end == EndOf(g, files[..i + 1])
    {
      FitsNext(g, files, i);
      OneFurther(g, files, i);
      sts := LoadFile(files[i]);
    }

    method CopyIn(at: nat, ws: seq<Word>)
      requires at + |ws| <= image.Length
      modifies image
      ensures image[..] == PutWords(old(image[..]), at, ws)
    {
      ghost var was := image[..];
      var i := 0;
      while i != |ws|
        invariant 0 <= i <= |ws|
        invariant image[..] == PutWords(was, at, ws[..i])
      {
        image[at + i] := ws[i];
        PutOneMore(was, at, ws, i);
        i := i + 1;
      }
      assert ws[..i] == ws;
    }

    // Sum n words and store the negated sum after them.
    method SealInPlace(at: nat, n: nat)
      requires at + n < image.Length
      modifies image
      ensures image[..] == PutWords(old(image[..]), at, Seal(old(image[..])[at..at + n]))
    {
      ghost var was := image[..];
      ghost var ws := was[at..at + n];
      var xsum: Word := 0;
      var fp := 0;
      while fp != n
        invariant 0 <= fp <= n && image[..] == was
        invariant xsum == Sum(ws[..fp]) % TWO_TO_THE_32
      {
        PassWord(ws, fp);
        xsum := Add(xsum, image[at + fp]);
        fp := fp + 1;
      }
      assert ws[..n] == ws;
      image[at + n] := Negate(xsum);
      PutLast(was, at, ws, Negate(xsum));
      PutBack(was, at, n);
    }

    // finishSegment: stamp the header; unless the segment is longer than its pad
    // length, store both checksums and move the end to the first page after it.
    method FinishSegment(f: File) returns (sts: nat)
      requires Valid() && Loadable(f) && end < g.pages && Pos(g, end) + Reach(f) <= image.Length
      requires 4 * FinalWords(f) < TWO_TO_THE_32 && (Dropped(f) || FinalWords(f) > HDR_WORDS)
      modifies this, image
      ensures image[..] == PutWords(old(image[..]), Pos(g, old(end)), Finished(f, old(image[..]), Pos(g, old(end))))
      ensures end == old(end) + PagesTaken(g, f) && (sts == 1 <==> !WithinPad(f))
    {
      hide Stamped, Finished, PagesOf, Seal, Addressed, PutWords, Pos;
      assert Pos(g, end) == end * g.page by {
        PosOf(g, end);
      }
      FinishedParts(f, image[..], end * g.page);
      var seg := end * g.page;
      ghost var was := image[..];
      StampHeader(f, seg);
      var words := DataWords(f) + 1;
      if f.padTo != 0 {
        if f.padTo < 4 * words {
          return 1;
        }
        words := f.padTo / 4;
      }
      assert words == FinalWords(f);
      SealBoth(was, seg, Stamped(f, was[seg..seg + HDR_WORDS]), words);
      end := PageAfter(end, words);
      return 0;
    }

    // Round the end of the segment up to a page.
    method PageAfter(k: nat, words: nat) returns (next: nat)
      requires g.page > 0
      ensures next == k + PagesOf(g, words)
    {
      RoundUpFrom(g, k, words);
      next := (k * g.page + words + g.page - 1) / g.page;
    }

    // Set the fields of the header, its checksum excepted.
    method StampHeader(f: File, seg: nat)
      requires Loadable(f) && 4 * FinalWords(f) < TWO_TO_THE_32 && seg + HDR_WORDS <= image.Length
      modifies image
      ensures image[..] == PutWords(old(image[..]), seg, Stamped(f, old(image[..])[seg..seg + HDR_WORDS]))
    {
      var head := image[seg..seg + HDR_WORDS];
      assert head == image[..][seg..seg + HDR_WORDS];
      CopyIn(seg, Stamped(f, head));
    }

    // The two checksums.
    method SealBoth(ghost was: seq<Word>, seg: nat, ghost front: seq<Word>, words: nat)
      requires |front| == FS_SUM && HDR_WORDS < words && seg + words <= image.Length == |was|
      requires image[..] == PutWords(was, seg, front)
      modifies image
      ensures image[..] == PutWords(was, seg, Seal(front) + Seal(was[seg + HDR_WORDS..seg + words - 1]))
    {
      assert image[..][seg..seg + FS_SUM] == front;
      SealInPlace(seg, FS_SUM);
      ghost var headed := image[..];
      ghost var content := was[seg + HDR_WORDS..seg + words - 1];
      PutOver(was, seg, front, Seal(front));
      assert headed[seg + HDR_WORDS..seg + words - 1] == content;
      SealInPlace(seg + HDR_WORDS, words - 1 - HDR_WORDS);
      PutTwice(was, seg, Seal(front), Seal(content));
    }
  }

  lemma PutBack(rom: seq<Word>, at: nat, n: nat)
    requires at + n <= |rom|
    ensures PutWords(rom, at, rom[at..at + n]) == rom
  {}

  // ---- lists of files ----

  // How far the files get: the first page after their segments, and whether all of
  // them are taken.
  datatype Progress = Progress(end: nat, ok: bool)

  function Placed(g: Geometry, files: seq<File>): Progress
    requires g.page > 0
  {
    if files == [] then Progress(0, true)
    else
      var before, f := Placed(g, files[..|files| - 1]), files[|files| - 1];
      if !before.ok then before
      else if Takes(g, before.end, f) then Progress(before.end + PagesTaken(g, f), true)
      else Progress(before.end, false)
  }

  function EndOf(g: Geometry, files: seq<File>): nat
    requires g.page > 0
  {
    Placed(g, files).end
  }

  predicate Accepted(g: Geometry, files: seq<File>)
    requires g.page > 0
  {
    Placed(g, files).ok
  }

  // Can the files be loaded one after the other, as far as the first that is
  // refused?
  predicate Fit(g: Geometry, files: seq<File>)
    requires g.page > 0
  {
    files == [] || (
      var before := files[..|files| - 1];
      Fit(g, before) && (Accepted(g, before) ==> Ready(g, EndOf(g, before), files[|files| - 1])))
  }

  predicate HasSize(g: Geometry) {
    g.page >= HDR_WORDS && Addressed(g)
  }

  // The image with the files loaded, each at the first page after those before it.
  function ImageOf(g: Geometry, files: seq<File>): (rom: seq<Word>)
    requires HasSize(g) && Fit(g, files)
    ensures Shaped(g, rom)
  {
    if files == [] then Zeros(g.pages * g.page)
    else
      var before, f := files[..|files| - 1], files[|files| - 1];
      var rom, end := ImageOf(g, before), EndOf(g, before);
      if !Accepted(g, before) then rom
      else if Takes(g, end, f) then Loaded(g, rom, end, f)
      else Spilled(g, rom, end, f)
  }

  lemma {:induction false} FitsNext(g: Geometry, files: seq<File>, i: nat)
    requires g.page > 0 && Fit(g, files) && i < |files|
    ensures Fit(g, files[..i]) && Fit(g, files[..i + 1])
    ensures Accepted(g, files[..i]) ==> Ready(g, EndOf(g, files[..i]), files[i])
    decreases |files|
  {
    if i + 1 == |files| {
      assert files[..i + 1] == files;
    } else {
      FitsNext(g, files[..|files| - 1], i);
      assert files[..|files| - 1][..i + 1] == files[..i + 1] && files[..|files| - 1][..i] == files[..i];
    }
  }

  lemma OneFurther(g: Geometry, files: seq<File>, i: nat)
    requires HasSize(g) && i < |files| && Fit(g, files[..i + 1]) && Fit(g, files[..i]) && Accepted(g, files[..i])
    ensures Ready(g, EndOf(g, files[..i]), files[i])
    ensures var end, rom, f := EndOf(g, files[..i]), ImageOf(g, files[..i]), files[i];
            if Takes(g, end, f) then
              && Accepted(g, files[..i + 1]) && EndOf(g, files[..i + 1]) == end + PagesTaken(g, f)
              && ImageOf(g, files[..i + 1]) == Loaded(g, rom, end, f)
            else
              && !Accepted(g, files[..i + 1]) && EndOf(g, files[..i + 1]) == end
              && ImageOf(g, files[..i + 1]) == Spilled(g, rom, end, f)
  {
    assert files[..i + 1][..i] == files[..i];
  }

  // After a file is refused, the others are not looked at.
  lemma {:induction false} RefusedStays(g: Geometry, files: seq<File>, i: nat)
    requires HasSize(g) && Fit(g, files) && i <= |files| && Fit(g, files[..i]) && !Accepted(g, files[..i])
    ensures !Accepted(g, files) && EndOf(g, files) == EndOf(g, files[..i])
            && ImageOf(g, files) == ImageOf(g, files[..i])
    decreases |files|
  {
    if i == |files| {
      assert files[..i] == files;
    } else {
      assert files[..|files| - 1][..i] == files[..i];
      RefusedStays(g, files[..|files| - 1], i);
    }
  }

  // ---- the image reads back as the files ----

  // The files that are not dropped, and the pages their segments start at.
  function Kept(files: seq<File>): seq<File> {
    if files == [] then []
    else
      var before, f := Kept(files[..|files| - 1]), files[|files| - 1];
      if Dropped(f) then before else before + [f]
  }

  function SegsOf(g: Geometry, files: seq<File>): seq<nat>
    requires g.page > 0
  {
    if files == [] then []
    else
      var before, f := files[..|files| - 1], files[|files| - 1];
      if Dropped(f) then SegsOf(g, before) else SegsOf(g, before) + [EndOf(g, before)]
  }

  // The bytes of a file after the header.
  function AfterHeader(f: File): seq<Byte> {
    if |f.data| <= 4 * HDR_WORDS then [] else f.data[4 * HDR_WORDS..]
  }

  // The words of the segment between header and checksum.
  function BodyWords(f: File): int {
    FinalWords(f) - HDR_WORDS - 1
  }

  // Does page k hold an intact segment of the file's name, with its bytes followed
  // by padding?  The padding is zeros where no file has been dropped before.
  ghost predicate IsFile(g: Geometry, rom: seq<Word>, k: nat, f: File, clean: bool)
    requires Shaped(g, rom)
  {
    && Loadable(f) && Good(g, rom, k, f.name)
    && |Body(g, rom, k)| == BodyWords(f) + 1 && |AfterHeader(f)| <= 4 * BodyWords(f)
    && Unpack(Body(g, rom, k))[..|AfterHeader(f)|] == AfterHeader(f)
    && (clean ==> Body(g, rom, k) == Seal(Filled(AfterHeader(f), BodyWords(f))))
  }

  // Does each page listed hold the segment of the file in the same place?
  ghost predicate AreFiles(g: Geometry, rom: seq<Word>, segs: seq<nat>, files: seq<File>, clean: bool)
    requires Shaped(g, rom)
  {
    if files == [] then segs == []
    else
      && segs != [] && IsFile(g, rom, segs[|segs| - 1], files[|files| - 1], clean)
      && AreFiles(g, rom, segs[..|segs| - 1], files[..|files| - 1], clean)
  }

  // Is every word from page k on zero, as memset left it?
  ghost predicate BlankFrom(g: Geometry, rom: seq<Word>, k: nat) {
    forall i :: Pos(g, k) <= i < |rom| ==> rom[i] == 0
  }

  lemma {:induction false} EachIsFile(g: Geometry, rom: seq<Word>, segs: seq<nat>, files: seq<File>, clean: bool,
                                      i: nat)
    requires Shaped(g, rom) && AreFiles(g, rom, segs, files, clean) && i < |files|
    ensures |segs| == |files| && IsFile(g, rom, segs[i], files[i], clean)
  {
    if i == |files| - 1 {
      if i > 0 {
        EachIsFile(g, rom, segs[..|segs| - 1], files[..i], clean, 0);
      }
    } else {
      EachIsFile(g, rom, segs[..|segs| - 1], files[..|files| - 1], clean, i);
    }
  }

  lemma SameFile(g: Geometry, rom: seq<Word>, rom': seq<Word>, k: nat, f: File, clean: bool)
    requires Shaped(g, rom) && Shaped(g, rom') && SameSegment(g, rom, rom', k) && IsFile(g, rom, k, f, clean)
    ensures IsFile(g, rom', k, f, clean)
  {
    SameName(g, rom, rom', k, f.name);
  }

  lemma {:induction false} FilesKept(g: Geometry, rom: seq<Word>, rom': seq<Word>, files: seq<File>, segs: seq<nat>,
                                     clean: bool)
    requires Shaped(g, rom) && Shaped(g, rom') && AreFiles(g, rom, segs, files, clean)
    requires forall i :: 0 <= i < |segs| ==> SameSegment(g, rom, rom', segs[i])
    ensures AreFiles(g, rom', segs, files, clean)
  {
    if files != [] {
      var n := |segs| - 1;
      assert SameSegment(g, rom, rom', segs[n]);
      SameFile(g, rom, rom', segs[n], files[|files| - 1], clean);
      FilesKept(g, rom, rom', files[..|files| - 1], segs[..n], clean);
    }
  }

  // The words before page end decide what the walk meets before it ...
  lemma ArrivesUpTo(g: Geometry, rom: seq<Word>, rom': seq<Word>, segs: seq<nat>, end: nat)
    requires Shaped(g, rom) && Shaped(g, rom') && Arrives(Slots(g, rom), 0, segs, end)
    requires Pos(g, end) <= |rom| && rom[..Pos(g, end)] == rom'[..Pos(g, end)]
    ensures Arrives(Slots(g, rom'), 0, segs, end)
  {
    forall k | 0 <= k < end && k < g.pages
      ensures Slots(g, rom)[k] == Slots(g, rom')[k]
    {
      HeaderUpTo(g, rom, rom', k, end);
    }
    ArrivesAgrees(Slots(g, rom), Slots(g, rom'), 0, segs, end);
  }

  // ... and what is found there.
  lemma FilesUpTo(g: Geometry, rom: seq<Word>, rom': seq<Word>, files: seq<File>, segs: seq<nat>, end: nat, clean: bool)
    requires Shaped(g, rom) && Shaped(g, rom') && Arrives(Slots(g, rom), 0, segs, end)
             && AreFiles(g, rom, segs, files, clean)
    requires Pos(g, end) <= |rom| && rom[..Pos(g, end)] == rom'[..Pos(g, end)]
    ensures AreFiles(g, rom', segs, files, clean)
  {
    forall i | 0 <= i < |segs|
      ensures SameSegment(g, rom, rom', segs[i])
    {
      SegmentUpTo(g, rom, rom', segs, end, i);
    }
    FilesKept(g, rom, rom', files, segs, clean);
  }

  lemma HeaderUpTo(g: Geometry, rom: seq<Word>, rom': seq<Word>, k: nat, end: nat)
    requires Shaped(g, rom) && Shaped(g, rom') && k < end && k < g.pages
    requires Pos(g, end) <= |rom| && rom[..Pos(g, end)] == rom'[..Pos(g, end)]
    ensures Hdr(g, rom, k) == Hdr(g, rom', k)
  {
    PageFits(g, k);
    PageBefore(g, k, end);
    SameSlice(rom, rom', Pos(g, end), Pos(g, k), Pos(g, k) + HDR_WORDS);
  }

  lemma SameSlice(s: seq<Word>, t: seq<Word>, n: nat, i: nat, j: nat)
    requires i <= j <= n <= |s| && n <= |t| && s[..n] == t[..n]
    ensures s[i..j] == t[i..j]
  {
    assert s[i..j] == s[..n][i..j] && t[i..j] == t[..n][i..j];
  }

  lemma SegmentUpTo(g: Geometry, rom: seq<Word>, rom': seq<Word>, segs: seq<nat>, end: nat, i: nat)
    requires Shaped(g, rom) && Shaped(g, rom') && Arrives(Slots(g, rom), 0, segs, end) && i < |segs|
    requires Pos(g, end) <= |rom| && rom[..Pos(g, end)] == rom'[..Pos(g, end)]
    ensures SameSegment(g, rom, rom', segs[i])
  {
    var k := segs[i];
    ArrivesAfter(Slots(g, rom), 0, segs, end, i);
    HeaderUpTo(g, rom, rom', k, end);
    EndsBefore(g, rom, k, end);
    if Holds(g, rom, k) {
      SameSlice(rom, rom', Pos(g, end), Pos(g, k) + HDR_WORDS, Pos(g, k) + SegWords(Hdr(g, rom, k)));
    }
  }

  lemma AreFilesNext(g: Geometry, rom: seq<Word>, segs: seq<nat>, files: seq<File>, k: nat, f: File, clean: bool)
    requires Shaped(g, rom) && AreFiles(g, rom, segs, files, clean) && IsFile(g, rom, k, f, clean)
    ensures AreFiles(g, rom, segs + [k], files + [f], clean)
  {
    hide IsFile;
    assert (files + [f])[..|files|] == files && (segs + [k])[..|segs|] == segs;
  }

  // ---- one more file ----

  // A file that is kept is put in place as a whole.
  lemma LoadedWhole(g: Geometry, rom: seq<Word>, k: nat, f: File)
    requires HasSize(g) && Shaped(g, rom) && Ready(g, k, f) && Takes(g, k, f) && !Dropped(f)
    requires Pos(g, k) + Reach(f) <= |rom|
    ensures Loaded(g, rom, k, f) == PutWords(rom, Pos(g, k), Finished(f, ReadIn(rom, Pos(g, k), f.data), Pos(g, k)))
  {
    var raw := ReadIn(rom, Pos(g, k), f.data);
    PutOver(rom, Pos(g, k), Over(f.data, rom[Pos(g, k)..]), Finished(f, raw, Pos(g, k)));
  }

  lemma StampedHeader(f: File, head: Header)
    requires Loadable(f) && 4 * FinalWords(f) < TWO_TO_THE_32
    ensures var hdr := Seal(Stamped(f, head));
            HeaderOk(hdr) && SegWords(hdr) == FinalWords(f) && NameLen(hdr) == |f.name| && HasName(hdr, f.name)
  {
    var fields := NameBytes(head);
    var lens := [|f.name|, |f.vsn|, f.segType, ByteOf(head[FS_LENS], 3)];
    SealedFront(head[..FS_MAGIC], lens, Overlay(fields, f.name, f.vsn), FinalWords(f));
    OverlaidName(Seal(Stamped(f, head)), fields, f.name, f.vsn);
  }

  // The header finishSegment leaves, byte by byte, over the 64 bytes at its place: the
  // first eight, the byte after the type and what name and version do not fill stay.
  lemma StampedBytes(f: File, head: Header)
    requires Loadable(f) && 4 * FinalWords(f) < TWO_TO_THE_32
    ensures var bs, was := Unpack(Seal(Stamped(f, head))), Unpack(head);
            && bs[..8] == was[..8] && bs[8..12] == [0x53, 0x48, 0x44, 0x52]
            && Join(bs[12], bs[13], bs[14], bs[15]) == 4 * FinalWords(f)
            && bs[16..20] == [|f.name|, |f.vsn|, f.segType, was[19]]
            && bs[20..60] == seq(40, o requires 0 <= o < 40 =>
                 if 32 <= o < 32 + |f.vsn| then f.vsn[o - 32] else if o < |f.name| then f.name[o] else was[20 + o])
  {
    hide HeaderFront, Seal, Join;
    SealedBytes(head[..FS_MAGIC], [|f.name|, |f.vsn|, f.segType, ByteOf(head[FS_LENS], 3)],
      Overlay(NameBytes(head), f.name, f.vsn), FinalWords(f));
    UnpackSlice(head, 0, FS_MAGIC);
    assert head[..FS_MAGIC] == head[0..FS_MAGIC];
    HeaderFields(head);
    ByteAt(head, FS_LENS, 3);
    hide Unpack;
  }

  lemma OverlaidName(hdr: Header, fields: seq<Byte>, name: seq<Byte>, vsn: seq<Byte>)
    requires |fields| == 40 && |name| <= SEG_MAX_NAME && NameLen(hdr) == |name|
    requires NameBytes(hdr) == Overlay(fields, name, vsn)
    ensures HasName(hdr, name)
  {
    assert Overlay(fields, name, vsn)[..|name|] == name;
    NameInFields(hdr, name);
  }

  // The words that go under the body's checksum: the bytes of the file, then what was
  // there.
  lemma BodyBytes(raw: seq<Word>, rom: seq<Word>, at: nat, f: File, words: nat, content: seq<Word>)
    requires HDR_WORDS < words && DataWords(f) < words && at + words <= |rom| && raw == ReadIn(rom, at, f.data)
    requires content == raw[at + HDR_WORDS..at + words - 1]
    ensures |AfterHeader(f)| <= 4 * |content| && Unpack(content)[..|AfterHeader(f)|] == AfterHeader(f)
    ensures (forall i :: at <= i < |rom| ==> rom[i] == 0) ==> content == Filled(AfterHeader(f), |content|)
  {
    hide Pack, Unpack, Over, ReadIn;
    var rest := BytesSeen(raw, rom, at, f, words, content);
    if forall i :: at <= i < |rom| ==> rom[i] == 0 {
      ZeroBytes(rom, at);
      AllZero(Unpack(content), AfterHeader(f), rest);
      PackUnpack(content);
    }
  }

  lemma BytesSeen(raw: seq<Word>, rom: seq<Word>, at: nat, f: File, words: nat, content: seq<Word>)
    returns (rest: seq<Byte>)
    requires HDR_WORDS < words && DataWords(f) < words && at + words <= |rom| && raw == ReadIn(rom, at, f.data)
    requires content == raw[at + HDR_WORDS..at + words - 1]
    ensures Unpack(content) == AfterHeader(f) + rest
    ensures forall x :: x in rest ==> x in Unpack(rom)[4 * at..]
  {
    hide Pack, Unpack, Over, ReadIn;
    var all, len, skip := Unpack(rom), 4 * (words - 1), if |f.data| <= 64 then 64 else |f.data|;
    ReadStores(rom, at, f.data);
    UnpackSlice(raw, at + HDR_WORDS, at + words - 1);
    Within(all, 4 * at, f.data, len, Unpack(raw), Unpack(content));
    rest := all[4 * at + skip..4 * at + len];
    SliceOf(all, 4 * at, skip, len);
  }

  lemma SliceOf(all: seq<Byte>, at: nat, skip: nat, len: nat)
    requires skip <= len && at + len <= |all|
    ensures forall x :: x in all[at + skip..at + len] ==> x in all[at..]
  {
    assert all[at + skip..at + len] == all[at..][skip..len];
  }

  lemma AllZero(seen: seq<Byte>, after: seq<Byte>, rest: seq<Byte>)
    requires seen == after + rest && forall x :: x in rest ==> x == 0
    ensures seen == after + seq(|seen| - |after|, _ => 0)
  {
    assert forall i :: 0 <= i < |rest| ==> rest[i] in rest;
  }

  lemma ZeroBytes(rom: seq<Word>, at: nat)
    requires at <= |rom| && forall i :: at <= i < |rom| ==> rom[i] == 0
    ensures forall x :: x in Unpack(rom)[4 * at..] ==> x == 0
  {}

  // The bytes put in, and then those that were there, as seen from 64 bytes on.
  lemma Within(all: seq<Byte>, at: nat, data: seq<Byte>, len: nat, raw: seq<Byte>, seen: seq<Byte>)
    requires at + len <= |all| && |data| <= len && 64 <= len
    requires raw == all[..at] + data + all[at + |data|..] && seen == raw[at + 64..at + len]
    ensures seen ==
              (if |data| <= 64 then [] else data[64..]) + all[if |data| <= 64 then at + 64 else at + |data|..at + len]
  {
    var tail := all[at + |data|..];
    if |data| <= 64 {
      assert seen == tail[64 - |data|..len - |data|];
      assert tail[64 - |data|..len - |data|] == all[at + 64..at + len];
    } else {
      assert seen == data[64..] + tail[..len - |data|];
      assert tail[..len - |data|] == all[at + |data|..at + len];
    }
  }

  // So a page where a file is loaded holds it.
  lemma LoadedIsFile(g: Geometry, rom: seq<Word>, k: nat, f: File, clean: bool)
    requires HasSize(g) && Shaped(g, rom) && Ready(g, k, f) && Takes(g, k, f) && !Dropped(f)
    requires clean ==> BlankFrom(g, rom, k)
    ensures var rom' := Loaded(g, rom, k, f);
            Slots(g, rom')[k] == Segment(k + PagesOf(g, FinalWords(f)), true, true) && IsFile(g, rom', k, f, clean)
  {
    var at := Pos(g, k);
    StaysInside(g, k, f);
    LoadedWhole(g, rom, k, f);
    RawIsFile(g, rom, k, f, clean, ReadIn(rom, at, f.data), at, Loaded(g, rom, k, f));
  }

  lemma RawIsFile(g: Geometry, rom: seq<Word>, k: nat, f: File, clean: bool, raw: seq<Word>, at: nat, rom': seq<Word>)
    requires Shaped(g, rom) && k < g.pages && Loadable(f) && !Dropped(f) && 4 * FinalWords(f) < TWO_TO_THE_32
    requires at == Pos(g, k) && at + FinalWords(f) <= |rom| && HDR_WORDS < FinalWords(f) && DataWords(f) < FinalWords(f)
    requires raw == ReadIn(rom, at, f.data) && (clean ==> BlankFrom(g, rom, k))
    requires rom' == PutWords(rom, at, Finished(f, raw, at))
    ensures Slots(g, rom')[k] == Segment(k + PagesOf(g, FinalWords(f)), true, true) && IsFile(g, rom', k, f, clean)
  {
    hide Stamped, IsFile, Pack, Unpack, ReadIn, Slots;
    var head, content := raw[at..at + HDR_WORDS], raw[at + HDR_WORDS..at + FinalWords(f) - 1];
    var hdr := Seal(Stamped(f, head));
    assert Finished(f, raw, at) == hdr + Seal(content);
    StampedHeader(f, head);
    BodyBytes(raw, rom, at, f, FinalWords(f), content);
    PlacedIsFile(g, rom, k, f, clean, hdr, content, rom');
  }

  lemma PlacedIsFile(g: Geometry, rom: seq<Word>, k: nat, f: File, clean: bool, hdr: Header, content: seq<Word>,
                     rom': seq<Word>)
    requires Shaped(g, rom) && k < g.pages && Pos(g, k) + FinalWords(f) <= |rom| && Loadable(f)
    requires HeaderOk(hdr) && SegWords(hdr) == FinalWords(f) && NameLen(hdr) == |f.name| && HasName(hdr, f.name)
    requires |AfterHeader(f)| <= 4 * BodyWords(f) && |content| == BodyWords(f)
    requires Unpack(content)[..|AfterHeader(f)|] == AfterHeader(f)
    requires clean ==> content == Filled(AfterHeader(f), BodyWords(f))
    requires rom' == PutWords(rom, Pos(g, k), hdr + Seal(content))
    ensures Slots(g, rom')[k] == Segment(k + PagesOf(g, FinalWords(f)), true, true) && IsFile(g, rom', k, f, clean)
  {
    hide Pack, Unpack, Filled, Slots;
    PlacedSegment(g, rom, k, f.name, hdr, content, rom');
    SameStart(Seal(content), content, |AfterHeader(f)|);
  }

  // A header and a sealed body, put in place, are a segment that is intact.
  lemma PlacedSegment(g: Geometry, rom: seq<Word>, k: nat, name: seq<Byte>, hdr: Header, content: seq<Word>,
                      rom': seq<Word>)
    requires Shaped(g, rom) && k < g.pages && 0 < |name| <= SEG_MAX_NAME
    requires HeaderOk(hdr) && SegWords(hdr) == HDR_WORDS + |content| + 1 && HasName(hdr, name)
    requires Pos(g, k) + SegWords(hdr) <= |rom| && rom' == PutWords(rom, Pos(g, k), hdr + Seal(content))
    ensures Slots(g, rom')[k] == Segment(k + PagesOf(g, SegWords(hdr)), true, true)
    ensures Good(g, rom', k, name) && Body(g, rom', k) == Seal(content)
  {
    hide Pack, Unpack;
    PageFits(g, k);
    PutParts(rom, Pos(g, k), hdr, Seal(content));
    assert Hdr(g, rom', k) == hdr;
    NamedByHeader(g, rom', k, name);
    SealSumsToZero(content);
  }

  // One more file: the words before it stay, and one that is kept comes next.
  lemma EarlierWordsStay(g: Geometry, rom: seq<Word>, k: nat, f: File)
    requires HasSize(g) && Shaped(g, rom) && Ready(g, k, f) && Takes(g, k, f)
    ensures Pos(g, k) <= |rom| && rom[..Pos(g, k)] == Loaded(g, rom, k, f)[..Pos(g, k)]
  {
    PageFits(g, k);
  }

  lemma KeptArrives(g: Geometry, rom: seq<Word>, segs: seq<nat>, k: nat, f: File)
    requires HasSize(g) && Shaped(g, rom) && Ready(g, k, f) && Takes(g, k, f) && !Dropped(f)
    requires Arrives(Slots(g, rom), 0, segs, k)
    ensures Arrives(Slots(g, Loaded(g, rom, k, f)), 0, segs + [k], k + PagesOf(g, FinalWords(f)))
  {
    hide IsFile, Arrives, Slots, Stamped;
    StaysInside(g, k, f);
    LoadedIsFile(g, rom, k, f, false);
    LoadedWhole(g, rom, k, f);
    ArrivesNext(g, rom, segs, k, Finished(f, ReadIn(rom, Pos(g, k), f.data), Pos(g, k)), Loaded(g, rom, k, f),
      k + PagesOf(g, FinalWords(f)));
  }

  lemma ArrivesNext(g: Geometry, rom: seq<Word>, segs: seq<nat>, k: nat, ws: seq<Word>, rom': seq<Word>, end: nat)
    requires Shaped(g, rom) && k < g.pages && Pos(g, k) + |ws| <= |rom| && |ws| > 0
    requires rom' == PutWords(rom, Pos(g, k), ws) && end == k + PagesOf(g, |ws|)
    requires Slots(g, rom')[k] == Segment(end, true, true)
    requires Arrives(Slots(g, rom), 0, segs, k)
    ensures Arrives(Slots(g, rom'), 0, segs + [k], end)
  {
    PutExtendsWalk(g, rom, segs, k, ws, rom', end);
    PagesOfCovers(g, |ws|);
    ArrivesPast(Slots(g, rom'), 0, segs, k, end);
  }

  // What is loaded ends before the next page, so the rest stays blank.
  lemma BlankAfter(g: Geometry, rom: seq<Word>, k: nat, f: File, rom': seq<Word>, end: nat)
    requires HasSize(g) && Shaped(g, rom) && Ready(g, k, f) && Takes(g, k, f) && !Dropped(f) && BlankFrom(g, rom, k)
    requires rom' == Loaded(g, rom, k, f) && end == k + PagesOf(g, FinalWords(f))
    ensures BlankFrom(g, rom', end)
  {
    hide Loaded, Finished, Stamped, Over, Pack, Unpack;
    StaysInside(g, k, f);
    LoadedWhole(g, rom, k, f);
    PagesOfCovers(g, FinalWords(f));
    PosAdd(g, k, PagesOf(g, FinalWords(f)));
    StaysBlank(rom, Pos(g, k), Finished(f, ReadIn(rom, Pos(g, k), f.data), Pos(g, k)), Pos(g, end), rom');
  }

  lemma StaysBlank(rom: seq<Word>, at: nat, ws: seq<Word>, from: nat, rom': seq<Word>)
    requires at + |ws| <= |rom| && at + |ws| <= from && rom' == PutWords(rom, at, ws)
    requires forall i :: at <= i < |rom| ==> rom[i] == 0
    ensures forall i :: from <= i < |rom'| ==> rom'[i] == 0
  {}

  predicate NoneDropped(files: seq<File>) {
    forall i :: 0 <= i < |files| ==> !Dropped(files[i])
  }

  // ---- the whole image ----

  lemma LastFits(g: Geometry, files: seq<File>)
    requires HasSize(g) && Fit(g, files) && Accepted(g, files) && files != []
    ensures var before, f := files[..|files| - 1], files[|files| - 1];
            && Fit(g, before) && Accepted(g, before) && Ready(g, EndOf(g, before), f) && Takes(g, EndOf(g, before), f)
            && EndOf(g, files) == EndOf(g, before) + PagesTaken(g, f)
  {}

  lemma {:induction false} ImageArrives(g: Geometry, files: seq<File>)
    requires HasSize(g) && Fit(g, files) && Accepted(g, files)
    ensures Arrives(Slots(g, ImageOf(g, files)), 0, SegsOf(g, files), EndOf(g, files))
  {
    hide Loaded, Slots, Spilled;
    if files != [] {
      var before, f := files[..|files| - 1], files[|files| - 1];
      LastFits(g, files);
      ImageArrives(g, before);
      var rom, end := ImageOf(g, before), EndOf(g, before);
      if Dropped(f) {
        EarlierWordsStay(g, rom, end, f);
        ArrivesUpTo(g, rom, Loaded(g, rom, end, f), SegsOf(g, before), end);
      } else {
        KeptArrives(g, rom, SegsOf(g, before), end, f);
      }
    }
  }

  lemma {:induction false} ImageBlank(g: Geometry, files: seq<File>)
    requires HasSize(g) && Fit(g, files) && Accepted(g, files) && NoneDropped(files)
    ensures BlankFrom(g, ImageOf(g, files), EndOf(g, files))
  {
    if files != [] {
      var before, f := files[..|files| - 1], files[|files| - 1];
      LastFits(g, files);
      DroppedLast(files);
      ImageBlank(g, before);
      BlankAfter(g, ImageOf(g, before), EndOf(g, before), f, ImageOf(g, files), EndOf(g, files));
    }
  }

  lemma DroppedLast(files: seq<File>)
    requires files != []
    ensures NoneDropped(files) <==> NoneDropped(files[..|files| - 1]) && !Dropped(files[|files| - 1])
  {
    var before := files[..|files| - 1];
    assert forall i :: 0 <= i < |before| ==> files[i] == before[i];
  }

  lemma {:induction false} ImageFiles(g: Geometry, files: seq<File>, clean: bool)
    requires HasSize(g) && Fit(g, files) && Accepted(g, files) && (clean ==> NoneDropped(files))
    ensures AreFiles(g, ImageOf(g, files), SegsOf(g, files), Kept(files), clean)
  {
    if files != [] {
      var before, f := files[..|files| - 1], files[|files| - 1];
      LastFits(g, files);
      DroppedLast(files);
      ImageFiles(g, before, clean);
      ImageArrives(g, before);
      if clean {
        ImageBlank(g, before);
      }
      FilesNext(g, ImageOf(g, before), SegsOf(g, before), Kept(before), EndOf(g, before), f, clean);
    }
  }

  lemma FilesNext(g: Geometry, rom: seq<Word>, segs: seq<nat>, files: seq<File>, end: nat, f: File, clean: bool)
    requires HasSize(g) && Shaped(g, rom) && Ready(g, end, f) && Takes(g, end, f) && (clean ==> BlankFrom(g, rom, end))
    requires Arrives(Slots(g, rom), 0, segs, end) && AreFiles(g, rom, segs, files, clean)
    ensures var rom' := Loaded(g, rom, end, f);
            if Dropped(f) then AreFiles(g, rom', segs, files, clean)
            else AreFiles(g, rom', segs + [end], files + [f], clean)
  {
    var rom' := Loaded(g, rom, end, f);
    EarlierWordsStay(g, rom, end, f);
    FilesUpTo(g, rom, rom', files, segs, end, clean);
    if !Dropped(f) {
      LoadedIsFile(g, rom, end, f, clean);
      AreFilesNext(g, rom', segs, files, end, f, clean);
    }
  }

  lemma {:induction false} EndInside(g: Geometry, files: seq<File>)
    requires HasSize(g) && Fit(g, files) && Accepted(g, files)
    ensures EndOf(g, files) <= g.pages && Pos(g, EndOf(g, files)) <= g.pages * g.page
    ensures |SegsOf(g, files)| == |Kept(files)|
  {
    if files != [] {
      var before, f := files[..|files| - 1], files[|files| - 1];
      LastFits(g, files);
      EndInside(g, before);
      if !Dropped(f) {
        StaysInside(g, EndOf(g, before), f);
        PagesInside(g, EndOf(g, before), FinalWords(f));
      }
    }
    NotBefore(g, EndOf(g, files), g.pages);
  }

  lemma PagesInside(g: Geometry, k: nat, words: nat)
    requires g.page > 0 && Pos(g, k) + words <= g.pages * g.page
    ensures k + PagesOf(g, words) <= g.pages
  {
    PagesOfCovers(g, words);
    var n := PagesOf(g, words);
    if k + n > g.pages {
      NotBefore(g, g.pages, k + n - 1);
      LastPageStart(g, k, n);
    }
  }

  // The image file ends at the end of the segments.  In a ROM it is written to,
  // whatever follows it there, the walk meets the segments of the files that are not
  // dropped, in their order and before anything else, and a search by name finds the
  // first such file of that name, with its words.
  lemma ImageReadsBack(g: Geometry, files: seq<File>, rom: seq<Word>)
    requires HasSize(g) && Fit(g, files) && Accepted(g, files) && Shaped(g, rom)
    requires StartsWith(rom, g, files)
    ensures var kept, segs := Kept(files), SegsOf(g, files);
            && Walk(Slots(g, rom), 0) == segs + Walk(Slots(g, rom), EndOf(g, files)) && |segs| == |kept|
            && forall i :: 0 <= i < |kept| && (forall j :: 0 <= j < i ==> kept[j].name != kept[i].name) ==>
                 && First(g, rom, Walk(Slots(g, rom), 0), kept[i].name) == Some(segs[i])
                 && IsFile(g, rom, segs[i], kept[i], NoneDropped(files))
  {
    var kept, segs, end := Kept(files), SegsOf(g, files), EndOf(g, files);
    EndInside(g, files);
    ImageArrives(g, files);
    ImageFiles(g, files, NoneDropped(files));
    ArrivesUpTo(g, ImageOf(g, files), rom, segs, end);
    FilesUpTo(g, ImageOf(g, files), rom, kept, segs, end, NoneDropped(files));
    ArrivesWalk(Slots(g, rom), 0, segs, end);
    forall i | 0 <= i < |kept| && (forall j :: 0 <= j < i ==> kept[j].name != kept[i].name)
      ensures First(g, rom, Walk(Slots(g, rom), 0), kept[i].name) == Some(segs[i])
      ensures IsFile(g, rom, segs[i], kept[i], NoneDropped(files))
    {
      BuiltFinds(g, rom, kept, segs, NoneDropped(files), i, Walk(Slots(g, rom), end));
    }
  }

  // Does the ROM start with the image file of the files?
  predicate StartsWith(rom: seq<Word>, g: Geometry, files: seq<File>)
    requires HasSize(g) && Fit(g, files) && Accepted(g, files) && Shaped(g, rom)
  {
    EndInside(g, files);
    rom[..Pos(g, EndOf(g, files))] == ImageOf(g, files)[..Pos(g, EndOf(g, files))]
  }

  lemma BuiltFinds(g: Geometry, rom: seq<Word>, files: seq<File>, segs: seq<nat>, clean: bool, i: nat, rest: seq<nat>)
    requires Shaped(g, rom) && AreFiles(g, rom, segs, files, clean) && i < |files|
    requires forall j :: 0 <= j < i ==> files[j].name != files[i].name
    ensures i < |segs| && First(g, rom, segs + rest, files[i].name) == Some(segs[i])
    ensures IsFile(g, rom, segs[i], files[i], clean)
  {
    hide Good, IsFile, GoodPages, First;
    EachIsFile(g, rom, segs, files, clean, i);
    forall j | 0 <= j < i
      ensures segs[j] !in GoodPages(g, rom, files[i].name)
    {
      EachIsFile(g, rom, segs, files, clean, j);
      OtherFile(g, rom, segs[j], files[j], clean, files[i].name);
    }
    FileIsGood(g, rom, segs[i], files[i], clean);
    assert IsFirst(segs, GoodPages(g, rom, files[i].name), segs[i], i);
    FirstIsFirst(g, rom, segs, files[i].name, segs[i]);
    FirstOfTwo(g, rom, segs, rest, files[i].name);
  }

  lemma FileIsGood(g: Geometry, rom: seq<Word>, k: nat, f: File, clean: bool)
    requires Shaped(g, rom) && IsFile(g, rom, k, f, clean)
    ensures k in GoodPages(g, rom, f.name)
  {
    hide Unpack, Pack;
  }

  lemma OtherFile(g: Geometry, rom: seq<Word>, k: nat, f: File, clean: bool, name: seq<Byte>)
    requires Shaped(g, rom) && IsFile(g, rom, k, f, clean) && f.name != name
    ensures k !in GoodPages(g, rom, name)
  {
    hide Unpack, Pack;
    OneName(g, rom, k, f.name, name);
  }

  // ---- the same, file by file ----

  // Does page k hold a segment of the file's name, with its bytes from the 64th on in
  // their places and the length asked for, or that of the file and a checksum?
  ghost predicate HoldsFile(g: Geometry, rom: seq<Word>, k: nat, f: File)
    requires Shaped(g, rom)
  {
    && k < g.pages && Named(g, rom, k, f.name) && Holds(g, rom, k) && BodyOk(g, rom, k)
    && Hdr(g, rom, k)[FS_SEGLEN] == (if f.padTo == 0 then (|f.data| + 3) / 4 * 4 + 4 else f.padTo)
    && Offset(g, k) + |f.data| <= 4 * |rom|
    && forall b :: 64 <= b < |f.data| ==> Unpack(rom)[Offset(g, k) + b] == f.data[b]
  }

  lemma FileIsHeld(g: Geometry, rom: seq<Word>, k: nat, f: File, clean: bool)
    requires Shaped(g, rom) && IsFile(g, rom, k, f, clean) && WithinPad(f)
    ensures HoldsFile(g, rom, k, f)
  {
    hide Unpack, Filled, Seal;
    LengthAsked(g, rom, k, f, clean);
    BytesHeld(g, rom, k, f, AfterHeader(f));
  }

  lemma LengthAsked(g: Geometry, rom: seq<Word>, k: nat, f: File, clean: bool)
    requires Shaped(g, rom) && IsFile(g, rom, k, f, clean) && WithinPad(f)
    ensures Hdr(g, rom, k)[FS_SEGLEN] == if f.padTo == 0 then (|f.data| + 3) / 4 * 4 + 4 else f.padTo
  {
    hide Unpack, Filled, Seal;
    PageFits(g, k);
    assert |Body(g, rom, k)| == SegWords(Hdr(g, rom, k)) - HDR_WORDS;
  }

  lemma BytesHeld(g: Geometry, rom: seq<Word>, k: nat, f: File, after: seq<Byte>)
    requires Shaped(g, rom) && Holds(g, rom, k) && after == AfterHeader(f)
    requires |after| <= 4 * |Body(g, rom, k)| && Unpack(Body(g, rom, k))[..|after|] == after
    ensures Offset(g, k) + |f.data| <= 4 * |rom|
    ensures forall b :: 64 <= b < |f.data| ==> Unpack(rom)[Offset(g, k) + b] == f.data[b]
  {
    hide Unpack, Slots, Addressed, Body, Holds, Hdr, Offset, Pos;
    var from := BodyPlace(g, rom, k);
    var body, at := Body(g, rom, k), Offset(g, k);
    UnpackSlice(rom, from, from + |body|);
    forall b | 64 <= b < |f.data|
      ensures Unpack(rom)[at + b] == f.data[b]
    {
      assert after[b - 64] == Unpack(body)[b - 64];
    }
  }

  lemma BodyPlace(g: Geometry, rom: seq<Word>, k: nat) returns (from: nat)
    requires Shaped(g, rom) && Holds(g, rom, k)
    ensures 4 * from == Offset(g, k) + 64 && from + |Body(g, rom, k)| <= |rom|
    ensures Body(g, rom, k) == rom[from..from + |Body(g, rom, k)|]
  {
    hide Addressed;
    PageFits(g, k);
    OffsetOfPage(g, k);
    from := Pos(g, k) + HDR_WORDS;
  }

  // Are these the indices of the files within their pad length, in their order?
  ghost predicate AreWithin(files: seq<File>, index: seq<nat>) {
    && (forall m, n :: 0 <= m < n < |index| ==> index[m] < index[n])
    && (forall m :: 0 <= m < |index| ==> index[m] < |files| && WithinPad(files[index[m]]))
    && (forall i :: 0 <= i < |files| && WithinPad(files[i]) ==> i in index)
  }

  // Those files are the ones that are not dropped.
  lemma {:induction false} KeptIndices(files: seq<File>) returns (index: seq<nat>)
    ensures AreWithin(files, index) && AreAt(Kept(files), files, index)
  {
    if files == [] {
      index := [];
    } else {
      var before := KeptIndices(files[..|files| - 1]);
      index := OneMoreIndex(files, before);
    }
  }

  lemma OneMoreIndex(files: seq<File>, before: seq<nat>) returns (index: seq<nat>)
    requires files != [] && AreWithin(files[..|files| - 1], before)
    requires AreAt(Kept(files[..|files| - 1]), files[..|files| - 1], before)
    ensures AreWithin(files, index) && AreAt(Kept(files), files, index)
  {
    hide AreWithin, AreAt, WithinPad, Kept;
    var last := |files| - 1;
    KeptNext(files);
    WithinNext(files, before);
    AtNext(Kept(files[..last]), files, before);
    index := if WithinPad(files[last]) then before + [last] else before;
  }

  ghost predicate AreAt(kept: seq<File>, files: seq<File>, index: seq<nat>) {
    |index| == |kept| && forall m :: 0 <= m < |index| ==> index[m] < |files| && kept[m] == files[index[m]]
  }

  lemma KeptNext(files: seq<File>)
    requires files != []
    ensures var before, f := Kept(files[..|files| - 1]), files[|files| - 1];
            Kept(files) == if WithinPad(f) then before + [f] else before
  {}

  lemma AtNext(kept: seq<File>, files: seq<File>, before: seq<nat>)
    requires files != [] && AreAt(kept, files[..|files| - 1], before)
    ensures AreAt(kept, files, before)
    ensures AreAt(kept + [files[|files| - 1]], files, before + [|files| - 1])
  {}

  lemma WithinNext(files: seq<File>, before: seq<nat>)
    requires files != [] && AreWithin(files[..|files| - 1], before)
    ensures var last := |files| - 1;
            AreWithin(files, if WithinPad(files[last]) then before + [last] else before)
  {
    hide WithinPad;
    var last := |files| - 1;
    var index := if WithinPad(files[last]) then before + [last] else before;
    forall i | 0 <= i < |files| && WithinPad(files[i])
      ensures i in index
    {
      if i < last {
        assert files[..last][i] == files[i];
        assert i in before;
      }
    }
  }

  // In a ROM that starts with the image file, the walk first meets one segment for each
  // file within its pad length, in the order of the files, and none for any other.  A
  // search by name finds the first such file of that name.
  lemma FilesReadBack(g: Geometry, files: seq<File>, rom: seq<Word>) returns (index: seq<nat>, segs: seq<nat>)
    requires HasSize(g) && Fit(g, files) && Accepted(g, files) && Shaped(g, rom) && StartsWith(rom, g, files)
    ensures AreWithin(files, index) && |segs| == |index|
    ensures Walk(Slots(g, rom), 0) == segs + Walk(Slots(g, rom), EndOf(g, files))
    ensures forall m :: 0 <= m < |index| ==> HoldsFile(g, rom, segs[m], files[index[m]])
    ensures forall m :: 0 <= m < |index| && IsNew(files, index[m]) ==>
              First(g, rom, Walk(Slots(g, rom), 0), files[index[m]].name) == Some(segs[m])
  {
    hide IsFile, HoldsFile, First, Slots, WithinPad, Fit, Accepted, StartsWith;
    segs := SegsOf(g, files);
    index := KeptIndices(files);
    ImageHolds(g, files, rom);
    ImageReadsBack(g, files, rom);
    forall m | 0 <= m < |index|
      ensures HoldsFile(g, rom, segs[m], files[index[m]])
    {
      FileIsHeld(g, rom, segs[m], files[index[m]], NoneDropped(files));
    }
    forall m | 0 <= m < |index| && IsNew(files, index[m])
      ensures First(g, rom, Walk(Slots(g, rom), 0), files[index[m]].name) == Some(segs[m])
    {
      NewIsFirst(files, index, m);
    }
  }

  // Is file i the first within its pad length that has its name?
  predicate IsNew(files: seq<File>, i: nat)
    requires i < |files|
  {
    forall j :: 0 <= j < i && WithinPad(files[j]) ==> files[j].name != files[i].name
  }

  lemma NewIsFirst(files: seq<File>, index: seq<nat>, m: nat)
    requires AreWithin(files, index) && m < |index| && IsNew(files, index[m]) && AreAt(Kept(files), files, index)
    ensures forall j :: 0 <= j < m ==> Kept(files)[j].name != Kept(files)[m].name
  {
    hide WithinPad, Kept;
  }

  // Every segment of the image holds its file.
  lemma ImageHolds(g: Geometry, files: seq<File>, rom: seq<Word>)
    requires HasSize(g) && Fit(g, files) && Accepted(g, files) && Shaped(g, rom) && StartsWith(rom, g, files)
    ensures |SegsOf(g, files)| == |Kept(files)|
    ensures forall m :: 0 <= m < |Kept(files)| ==>
              IsFile(g, rom, SegsOf(g, files)[m], Kept(files)[m], NoneDropped(files))
  {
    hide IsFile;
    var kept, segs := Kept(files), SegsOf(g, files);
    EndInside(g, files);
    ImageArrives(g, files);
    ImageFiles(g, files, NoneDropped(files));
    FilesUpTo(g, ImageOf(g, files), rom, kept, segs, EndOf(g, files), NoneDropped(files));
    forall m | 0 <= m < |kept|
      ensures IsFile(g, rom, segs[m], kept[m], NoneDropped(files))
    {
      EachIsFile(g, rom, segs, kept, NoneDropped(files), m);
    }
  }

  // What no dropped file has touched is blank after the segments, and then the walk
  // meets nothing else in the image itself.
  lemma ImageWalk(g: Geometry, files: seq<File>)
    requires HasSize(g) && Fit(g, files) && Accepted(g, files) && NoneDropped(files)
    ensures Walk(Slots(g, ImageOf(g, files)), 0) == SegsOf(g, files)
  {
    var rom, end := ImageOf(g, files), EndOf(g, files);
    ImageArrives(g, files);
    ImageBlank(g, files);
    forall k | end <= k < g.pages
      ensures Slots(g, rom)[k].Blank?
    {
      BlankSlot(g, rom, end, k);
    }
    BlankWalk(Slots(g, rom), end);
    ArrivesWalk(Slots(g, rom), 0, SegsOf(g, files), end);
  }

  lemma BlankSlot(g: Geometry, rom: seq<Word>, end: nat, k: nat)
    requires Shaped(g, rom) && BlankFrom(g, rom, end) && end <= k < g.pages
    ensures Slots(g, rom)[k].Blank?
  {
    PageFits(g, k);
    NotBefore(g, end, k);
    assert Hdr(g, rom, k)[FS_MAGIC] == 0;
  }
}
