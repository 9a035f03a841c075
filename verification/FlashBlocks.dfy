// Segments that are copied to RAM: the list of blocks the image builder writes
// (tools/flashbuild/elfFiles.c:485-597) and the loader that copies them and sums
// the segment on the way (src/boot/post1.s:267-408).
module FlashBlocks {
  import opened Checksum
  import opened FlashFormat
  import FlashImage
  import opened FlashBuild
  import opened Words

  // One block: words and the address they are copied to.
  datatype Block = Block(addr: Word, data: seq<Word>)

  // How a load ends.  Stray: the list leads past the words there are.  Hang: a
  // block length that is not a multiple of the sixteen bytes copied at a time.
  datatype Fault = Exit | Stray | Hang
  datatype Outcome = Fails(fault: Fault) | Run(entry: Word, copies: seq<Block>)

  // ---- the overwrite guard ----

  // The regions a load must not overwrite, by their physical bounds: the loader's
  // own code and the page its stack is in.
  datatype Guard = Guard(codeLow: Word, codeHigh: Word, stackLow: Word, stackHigh: Word)

  // The physical part of an address.
  function PhysicalPart(addr: nat): Word {
    addr % 0x2000_0000
  }

  // Where the copy of a block ends; its address is moved to kseg1, which leaves the
  // physical part alone.
  function BlockEnd(addr: Word, length: Word): Word {
    PhysicalPart(addr + length)
  }

  // Does validate let a block pass?  It compares the register t1, where the end of
  // the block before is left, and not the end of this one.
  predicate Accepts(guard: Guard, t1: Word, addr: Word, length: Word) {
    && addr % 4 == 0 && length % 4 == 0
    && !(PhysicalPart(t1) < guard.stackLow && guard.stackHigh < PhysicalPart(addr))
    && !(PhysicalPart(t1) < guard.codeLow && guard.codeHigh < PhysicalPart(addr))
  }

  // validate; zero is a pass.
  method Validate(guard: Guard, t1: Word, a0: Word, a1: Word) returns (v0: int)
    ensures v0 == 0 <==> Accepts(guard, t1, a0, a1)
    ensures v0 == 0 <==>
            && a0 % 4 == 0 && a1 % 4 == 0
            && (t1 % 0x2000_0000 < guard.stackLow ==> a0 % 0x2000_0000 <= guard.stackHigh)
            && (t1 % 0x2000_0000 < guard.codeLow ==> a0 % 0x2000_0000 <= guard.codeHigh)
  {
    if a0 % 4 != 0 || a1 % 4 != 0 {
      return 1;
    }
    var t0 := PhysicalPart(a0);
    var bu := PhysicalPart(t1);
    if bu < guard.stackLow {
      if guard.stackHigh < t0 {
        return 1;
      }
    }
    if bu < guard.codeLow {
      return if guard.codeHigh < t0 then 1 else 0;
    }
    return 0;
  }

  predicate Overlaps(low: Word, high: Word, addr: Word, length: Word) {
    PhysicalPart(addr) <= high && low < PhysicalPart(addr) + length
  }

  // A block over the code is refused by the test for the stack or not at all: only
  // when it starts past the stack and the block before ended below it.
  lemma OverCodeAccepted(guard: Guard, t1: Word, addr: Word, length: Word)
    requires addr % 4 == 0 && length % 4 == 0 && Overlaps(guard.codeLow, guard.codeHigh, addr, length)
    ensures Accepts(guard, t1, addr, length) <==>
            !(PhysicalPart(t1) < guard.stackLow && guard.stackHigh < PhysicalPart(addr))
  {}

  // A block over the stack, likewise, by the test for the code only; so a block over
  // both passes whatever was copied before.
  lemma OverStackAccepted(guard: Guard, t1: Word, addr: Word, length: Word)
    requires addr % 4 == 0 && length % 4 == 0 && Overlaps(guard.stackLow, guard.stackHigh, addr, length)
    ensures Accepts(guard, t1, addr, length) <==>
            !(PhysicalPart(t1) < guard.codeLow && guard.codeHigh < PhysicalPart(addr))
    ensures Overlaps(guard.codeLow, guard.codeHigh, addr, length) ==> Accepts(guard, t1, addr, length)
  {}

  // With the block's own end in the register, the guard would refuse no aligned block
  // at all.
  lemma OwnEndAccepted(guard: Guard, addr: Word, length: Word)
    requires guard.codeLow <= guard.codeHigh && guard.stackLow <= guard.stackHigh
    requires PhysicalPart(addr) + length < 0x2000_0000
    ensures Accepts(guard, BlockEnd(addr, length), addr, length) <==> addr % 4 == 0 && length % 4 == 0
  {
    EndOfBlock(addr, length);
  }

  lemma EndOfBlock(addr: Word, length: Word)
    requires PhysicalPart(addr) + length < 0x2000_0000
    ensures PhysicalPart(BlockEnd(addr, length)) == PhysicalPart(addr) + length
  {
    var q := addr / 0x2000_0000;
    assert addr + length == q * 0x2000_0000 + (PhysicalPart(addr) + length);
  }

  // ---- what the loader does, block by block ----

  // What the loader finds at p: a reason to stop, the end of the list, or words
  // to copy.  The first block starts at the segment header, has its block header
  // after it and is copied headers and all.
  datatype Turn = Stop(fault: Fault) | Last(entry: Word) | Copy(addr: Word, from: nat, to: nat)

  function Look(ws: seq<Word>, p: nat, first: bool, t1: Word, guard: Guard): (turn: Turn)
    ensures turn.Last? ==> p + 3 <= |ws|
    ensures turn.Copy? && !first ==> p + 2 <= |ws|
    ensures turn.Copy? ==> p <= turn.from < turn.to <= |ws| && (turn.to - turn.from) % 4 == 0
    ensures turn.Copy? ==> 4 * (turn.to - turn.from) < TWO_TO_THE_32
  {
    var at := if first then p + HDR_WORDS else p;
    if at + 2 > |ws| then Stop(Stray)
    else
      var addr, length := ws[at], ws[at + 1];
      if length == 0 then
        if p + 3 > |ws| then Stop(Stray) else Last(addr)
      else if !Accepts(guard, t1, addr, length) then Stop(Exit)
      else if length % 16 != 0 then Stop(Hang)
      else
        Quarter(length);
        var from := if first then p else p + 2;
        if from + length / 4 > |ws| then Stop(Stray) else Copy(addr, from, from + length / 4)
  }

  // The first block header is summed once, as part of what is copied.
  function HeaderSum(ws: seq<Word>, p: nat, first: bool, sum: Word): Word
    requires first || p + 2 <= |ws|
  {
    if first then sum else Add(Add(sum, ws[p]), ws[p + 1])
  }

  function Load(ws: seq<Word>, p: nat, first: bool, t1: Word, sum: Word, copies: seq<Block>, guard: Guard): Outcome
    decreases |ws| - p
  {
    match Look(ws, p, first, t1, guard)
    case Stop(fault) => Fails(fault)
    case Last(entry) =>
      if Add(HeaderSum(ws, p, first, sum), ws[p + 2]) == 0 then Run(entry, copies) else Fails(Exit)
    case Copy(addr, from, to) =>
      var sum' := Add(HeaderSum(ws, p, first, sum), Sum(ws[from..to]) % TWO_TO_THE_32);
      Load(ws, to, false, BlockEnd(addr, 4 * (to - from)), sum', copies + [Block(addr, ws[from..to])], guard)
  }

  // A segment of another type is not loaded.  Its type is what is in the register
  // t1 when the first block is validated.
  const FS_XCOPY: Word := 3

  predicate IsXcopy(ws: seq<Word>)
    requires |ws| > FS_LENS
  {
    ByteOf(ws[FS_LENS], 2) == FS_XCOPY
  }

  function LoadSegment(ws: seq<Word>, guard: Guard): Outcome {
    if |ws| <= FS_LENS then Fails(Stray)
    else if !IsXcopy(ws) then Fails(Exit)
    else Load(ws, 0, true, FS_XCOPY, 0, [], guard)
  }

  // The loader.
  method Loader(ws: seq<Word>, guard: Guard) returns (outcome: Outcome)
    ensures outcome == LoadSegment(ws, guard)
  {
    if |ws| <= FS_LENS {
      return Fails(Stray);
    }
    var t1: Word := ByteOf(ws[FS_LENS], 2);
    if t1 != FS_XCOPY {
      return Fails(Exit);
    }
    var s0: nat, s1: Word := 0, 0;
    var first := true;
    var copies: seq<Block> := [];
    while true
      invariant LoadSegment(ws, guard) == Load(ws, s0, first, t1, s1, copies, guard)
      decreases |ws| - s0
    {
      var turn := NextBlock(ws, s0, first, t1, guard);
      if turn.Stop? {
        return Fails(turn.fault);
      }
      if !first {
        s1 := Add(Add(s1, ws[s0]), ws[s0 + 1]);
      }
      if turn.Last? {
        s1 := Add(s1, ws[s0 + 2]);
        return if s1 != 0 then Fails(Exit) else Run(turn.entry, copies);
      }
      var block := ws[turn.from..turn.to];
      s1 := SumBlock(s1, block);
      copies := copies + [Block(turn.addr, block)];
      t1 := BlockEnd(turn.addr, 4 * |block|);
      s0, first := turn.to, false;
    }
  }

  // From nextBlock to the copy loop: fetch the block header and check it.
  method NextBlock(ws: seq<Word>, s0: nat, first: bool, t1: Word, guard: Guard) returns (turn: Turn)
    ensures turn == Look(ws, s0, first, t1, guard)
  {
    var s2 := if first then s0 + HDR_WORDS else s0;
    if s2 + 2 > |ws| {
      return Stop(Stray);
    }
    var a0, a1 := ws[s2], ws[s2 + 1];
    if a1 == 0 {
      return if s0 + 3 > |ws| then Stop(Stray) else Last(a0);
    }
    var v0 := Validate(guard, t1, a0, a1);
    if v0 != 0 {
      return Stop(Exit);
    }
    if a1 % 16 != 0 {
      return Stop(Hang);
    }
    var t0 := if first then s0 else s0 + 2;
    return if t0 + a1 / 4 > |ws| then Stop(Stray) else Copy(a0, t0, t0 + a1 / 4);
  }

  lemma Quarter(bytes: nat)
    requires bytes % 16 == 0
    ensures bytes / 4 % 4 == 0
  {}

  // The copy loop, four words a turn.
  method SumBlock(start: Word, data: seq<Word>) returns (sum: Word)
    requires |data| % 4 == 0
    ensures sum == Add(start, Sum(data) % TWO_TO_THE_32)
  {
    hide Sum, Add;
    sum := start;
    var t := 0;
    NothingSummed(start, data);
    while t != |data|
      invariant 0 <= t <= |data| && t % 4 == 0
      invariant sum == Add(start, Sum(data[..t]) % TWO_TO_THE_32)
    {
      FourMore(start, data, t);
      sum := Add(Add(Add(Add(sum, data[t]), data[t + 1]), data[t + 2]), data[t + 3]);
      t := t + 4;
    }
    assert data[..t] == data;
  }

  lemma NothingSummed(start: Word, data: seq<Word>)
    ensures Add(start, Sum(data[..0]) % TWO_TO_THE_32) == start
  {}

  lemma FourMore(start: Word, data: seq<Word>, t: nat)
    requires t + 4 <= |data|
    ensures var x := Add(start, Sum(data[..t]) % TWO_TO_THE_32);
            Add(Add(Add(Add(x, data[t]), data[t + 1]), data[t + 2]), data[t + 3]) ==
            Add(start, Sum(data[..t + 4]) % TWO_TO_THE_32)
  {
    hide Sum, Add;
    OneMore(start, data, t);
    OneMore(start, data, t + 1);
    OneMore(start, data, t + 2);
    OneMore(start, data, t + 3);
  }

  lemma OneMore(start: Word, data: seq<Word>, t: nat)
    requires t < |data|
    ensures Add(Add(start, Sum(data[..t]) % TWO_TO_THE_32), data[t]) == Add(start, Sum(data[..t + 1]) % TWO_TO_THE_32)
  {
    SumStep(data, t);
    AddRegrouped(start, Sum(data[..t]), data[t]);
  }

  lemma AddRegrouped(start: Word, sum: nat, w: Word)
    ensures Add(Add(start, sum % TWO_TO_THE_32), w) == Add(start, (sum + w) % TWO_TO_THE_32)
  {
    hide Add;
    AddRemainders(start, sum);
    AddWraps(start + sum, w);
    AddRemainders(start, sum + w);
  }

  // ---- what the builder writes ----

  // A section to place: where it goes in RAM, its words, and whether it is code.
  datatype Section = Section(addr: Word, data: seq<Word>, exec: bool)

  // The blocks after the first, and the zero-length block that ends the list.
  function Tail(sections: seq<Section>, entry: Word): seq<Word>
    requires Sized(sections)
  {
    if sections == [] then [entry, 0]
    else [sections[0].addr, 4 * |sections[0].data|] + sections[0].data + Tail(sections[1..], entry)
  }

  predicate Sized(sections: seq<Section>) {
    forall i :: 0 <= i < |sections| ==> 4 * |sections[i].data| < TWO_TO_THE_32
  }

  // The first section leaves room for the segment header and its block header.
  function FirstBlock(section: Section): seq<Word>
    requires |section.data| >= HDR_WORDS + 2 && 4 * |section.data| < TWO_TO_THE_32
  {
    section.data[..HDR_WORDS] + [section.addr, 4 * |section.data|] + section.data[HDR_WORDS + 2..]
  }

  // The address of the last code section.
  function EntryOf(sections: seq<Section>, otherwise: Word): Word {
    if sections == [] then otherwise
    else if sections[|sections| - 1].exec then sections[|sections| - 1].addr
    else EntryOf(sections[..|sections| - 1], otherwise)
  }

  // A placed section has data in the file or not, like one that is only cleared.
  datatype Placed = NoBits | Bits(section: Section)

  function SectionsOf(placed: seq<Placed>): seq<Section> {
    if placed == [] then []
    else
      match placed[0]
      case NoBits => SectionsOf(placed[1..])
      case Bits(section) => [section] + SectionsOf(placed[1..])
  }

  // The first section placed has the room for the headers.  If that one has no data,
  // no other section is taken for the first.
  predicate HasFirst(placed: seq<Placed>) {
    placed != [] && placed[0].Bits?
  }

  // That is the last one, wherever it stands.
  lemma {:induction false} EntryIsLastCode(sections: seq<Section>, otherwise: Word, i: nat)
    requires i < |sections| && sections[i].exec && forall j :: i < j < |sections| ==> !sections[j].exec
    ensures EntryOf(sections, otherwise) == sections[i].addr
    decreases |sections|
  {
    if i < |sections| - 1 {
      EntryIsLastCode(sections[..|sections| - 1], otherwise, i);
    }
  }

  // Where the blocks are: each starts with the address, at offset 0, and the length in
  // bytes, at 4, and has its data at 8; the last has length zero and the entry address.
  lemma {:induction false} TailWords(sections: seq<Section>, entry: Word, i: nat) returns (at: nat)
    requires Sized(sections) && i <= |sections|
    ensures var tail := Tail(sections, entry);
            if i == |sections| then at + 2 == |tail| && tail[at] == entry && tail[at + 1] == 0
            else
              && at + 2 + |sections[i].data| <= |tail| && tail[at] == sections[i].addr
              && tail[at + 1] == 4 * |sections[i].data| && tail[at + 2..at + 2 + |sections[i].data|] == sections[i].data
    decreases |sections|
  {
    if i == 0 {
      at := 0;
    } else {
      var rest := TailWords(sections[1..], entry, i - 1);
      at := 2 + |sections[0].data| + rest;
    }
  }

  // The image of a segment.
  function ImageWords(placed: seq<Placed>, entry: Word): seq<Word>
    requires Sized(SectionsOf(placed)) && (HasFirst(placed) ==> |placed[0].section.data| >= HDR_WORDS + 2)
  {
    if HasFirst(placed) then FirstBlock(SectionsOf(placed)[0]) + Tail(SectionsOf(placed)[1..], entry)
    else Tail(SectionsOf(placed), entry)
  }

  // writeSections, for a segment that is copied to RAM.  Without a code section the
  // entry address is whatever exaddr held.
  method WriteSections(placed: seq<Placed>, exaddr: Word) returns (image: seq<Word>)
    requires Sized(SectionsOf(placed)) && (HasFirst(placed) ==> |placed[0].section.data| >= HDR_WORDS + 2)
    ensures image == ImageWords(placed, EntryOf(SectionsOf(placed), exaddr))
  {
    hide SectionsOf, EntryOf, Tail, ImageWords, FirstBlock, Sized;
    var entry := exaddr;
    image := [];
    var i := 0;
    ghost var last := EntryOf(SectionsOf(placed), exaddr);
    ghost var all := ImageWords(placed, last);
    FirstPlaced(placed, last);
    while i < |placed|
      invariant 0 <= i <= |placed| && Sized(SectionsOf(placed[i..]))
      invariant EntryOf(SectionsOf(placed[i..]), entry) == last
      invariant i > 0 || !HasFirst(placed) ==> image + Tail(SectionsOf(placed[i..]), last) == all
    {
      NextPlaced(placed, i, entry);
      match placed[i] {
        case NoBits =>
        case Bits(section) =>
          if i == 0 {
            image := section.data[..HDR_WORDS] + [section.addr, 4 * |section.data|] + section.data[HDR_WORDS + 2..];
          } else {
            TailStep(image, section, SectionsOf(placed[i + 1..]), last);
            image := image + [section.addr, 4 * |section.data|] + section.data;
          }
          if section.exec {
            entry := section.addr;
          }
      }
      i := i + 1;
    }
    assert placed[i..] == [];
    NothingPlaced(placed, entry);
    image := image + [entry, 0];
  }

  lemma FirstPlaced(placed: seq<Placed>, entry: Word)
    requires Sized(SectionsOf(placed)) && (HasFirst(placed) ==> |placed[0].section.data| >= HDR_WORDS + 2)
    ensures placed[0..] == placed
    ensures if !HasFirst(placed) then ImageWords(placed, entry) == Tail(SectionsOf(placed), entry)
            else
              var section := placed[0].section;
              && 4 * |section.data| < TWO_TO_THE_32 && Sized(SectionsOf(placed[1..]))
              && ImageWords(placed, entry) ==
                 section.data[..HDR_WORDS] + [section.addr, 4 * |section.data|] + section.data[HDR_WORDS + 2..]
                 + Tail(SectionsOf(placed[1..]), entry)
  {
    if HasFirst(placed) {
      assert 4 * |SectionsOf(placed)[0].data| < TWO_TO_THE_32;
      assert forall j :: 1 <= j < |SectionsOf(placed)| ==> SectionsOf(placed)[j] == SectionsOf(placed)[1..][j - 1];
    }
  }

  lemma NothingPlaced(placed: seq<Placed>, entry: Word)
    ensures SectionsOf(placed[|placed|..]) == [] && EntryOf([], entry) == entry && Sized([])
            && Tail([], entry) == [entry, 0]
  {}

  lemma TailStep(image: seq<Word>, section: Section, rest: seq<Section>, entry: Word)
    requires Sized([section] + rest)
    ensures Sized(rest) && image + Tail([section] + rest, entry) ==
            image + [section.addr, 4 * |section.data|] + section.data + Tail(rest, entry)
  {
    assert ([section] + rest)[1..] == rest;
  }

  lemma NextPlaced(placed: seq<Placed>, i: nat, entry: Word)
    requires i < |placed| && Sized(SectionsOf(placed[i..]))
    ensures match placed[i]
            case NoBits => SectionsOf(placed[i..]) == SectionsOf(placed[i + 1..])
            case Bits(section) =>
              && SectionsOf(placed[i..]) == [section] + SectionsOf(placed[i + 1..])
              && 4 * |section.data| < TWO_TO_THE_32 && Sized(SectionsOf(placed[i + 1..]))
              && EntryOf(SectionsOf(placed[i..]), entry) ==
                 EntryOf(SectionsOf(placed[i + 1..]), if section.exec then section.addr else entry)
  {
    assert placed[i..][1..] == placed[i + 1..];
    if placed[i].Bits? {
      var section, rest := placed[i].section, SectionsOf(placed[i + 1..]);
      assert ([section] + rest)[0] == section && forall j :: 0 <= j < |rest| ==> rest[j] == ([section] + rest)[j + 1];
      EntryOfRest(section, rest, entry);
    }
  }

  lemma {:induction false} EntryOfRest(section: Section, rest: seq<Section>, otherwise: Word)
    ensures EntryOf([section] + rest, otherwise) == EntryOf(rest, if section.exec then section.addr else otherwise)
  {
    if rest == [] {
      assert [section] + rest == [section] && [section][..0] == [];
    } else {
      assert ([section] + rest)[..|rest|] == [section] + rest[..|rest| - 1];
      EntryOfRest(section, rest[..|rest| - 1], otherwise);
    }
  }

  // ---- what the loader makes of it ----

  // Can the loader copy the section as a block?  A section without words looks
  // like the end of the list; one that is not whole groups of sixteen bytes never
  // ends the copy loop.
  predicate Copyable(section: Section) {
    section.data != [] && |section.data| % 4 == 0
  }

  function CopiesOf(sections: seq<Section>): seq<Block> {
    seq(|sections|, i requires 0 <= i < |sections| => Block(sections[i].addr, sections[i].data))
  }

  // Can it copy them all, one after the other?
  predicate CanLoad(guard: Guard, t1: Word, sections: seq<Section>)
    requires Sized(sections)
    decreases |sections|
  {
    sections == [] || (
      var addr, length := sections[0].addr, 4 * |sections[0].data|;
      Copyable(sections[0]) && Accepts(guard, t1, addr, length)
      && CanLoad(guard, BlockEnd(addr, length), sections[1..]))
  }

  // ---- the list without the sums ----

  datatype List = Broken(fault: Fault) | Ended(entry: Word, copies: seq<Block>, end: nat)

  // The blocks of a list, and where the checksum after it ends.
  function Parse(ws: seq<Word>, p: nat, first: bool, t1: Word, copies: seq<Block>, guard: Guard): (list: List)
    ensures list.Ended? ==> list.end <= |ws|
    decreases |ws| - p
  {
    match Look(ws, p, first, t1, guard)
    case Stop(fault) => Broken(fault)
    case Last(entry) => Ended(entry, copies, p + 3)
    case Copy(addr, from, to) =>
      Parse(ws, to, false, BlockEnd(addr, 4 * (to - from)), copies + [Block(addr, ws[from..to])], guard)
  }

  // The blocks of a segment.
  function ListOf(ws: seq<Word>, guard: Guard): (list: List)
    ensures list.Ended? ==> list.end <= |ws|
  {
    if |ws| <= FS_LENS then Broken(Stray)
    else if !IsXcopy(ws) then Broken(Exit)
    else Parse(ws, 0, true, FS_XCOPY, [], guard)
  }

  function Verdict(ws: seq<Word>, list: List): Outcome
    requires list.Ended? ==> list.end <= |ws|
  {
    match list
    case Broken(fault) => Fails(fault)
    case Ended(entry, copies, end) => if SumsToZero(ws[..end]) then Run(entry, copies) else Fails(Exit)
  }

  // From the second block on, the running sum is the sum of all words passed.
  lemma {:induction false} RunningSum(ws: seq<Word>, p: nat, t1: Word, sum: Word, copies: seq<Block>, guard: Guard)
    requires p <= |ws| && sum == Sum(ws[..p]) % TWO_TO_THE_32
    ensures Load(ws, p, false, t1, sum, copies, guard) == Verdict(ws, Parse(ws, p, false, t1, copies, guard))
    decreases |ws| - p
  {
    var turn := Look(ws, p, false, t1, guard);
    if turn.Last? {
      PassHeader(ws, p, sum);
      PassWord(ws, p + 2);
    } else if turn.Copy? {
      PassHeader(ws, p, sum);
      PassWords(ws, turn.from, turn.to);
      var sum' := Add(HeaderSum(ws, p, false, sum), Sum(ws[turn.from..turn.to]) % TWO_TO_THE_32);
      RunningSum(ws, turn.to, BlockEnd(turn.addr, 4 * (turn.to - turn.from)), sum',
        copies + [Block(turn.addr, ws[turn.from..turn.to])], guard);
    }
  }

  lemma PassHeader(ws: seq<Word>, p: nat, sum: Word)
    requires p + 2 <= |ws| && sum == Sum(ws[..p]) % TWO_TO_THE_32
    ensures HeaderSum(ws, p, false, sum) == Sum(ws[..p + 2]) % TWO_TO_THE_32
  {
    PassWord(ws, p);
    PassWord(ws, p + 1);
  }

  // With an empty first block the header is taken for the end of the list, the magic
  // number in it for the checksum.
  function EmptyVerdict(ws: seq<Word>): Outcome
    requires |ws| >= HDR_WORDS + 2
  {
    if !IsXcopy(ws) || ws[FS_MAGIC] != 0 then Fails(Exit) else Run(ws[HDR_WORDS], [])
  }

  predicate FirstIsEmpty(ws: seq<Word>) {
    |ws| >= HDR_WORDS + 2 && ws[HDR_WORDS + 1] == 0
  }

  // The loader runs a segment exactly when its block list ends properly and all
  // the words up to and including the checksum after the list sum to zero; or, if
  // the first block is empty, when the third word is zero, which it is in no valid
  // header.
  lemma LoaderVerdict(ws: seq<Word>, guard: Guard)
    ensures LoadSegment(ws, guard) == if FirstIsEmpty(ws) then EmptyVerdict(ws) else Verdict(ws, ListOf(ws, guard))
    ensures FirstIsEmpty(ws) && HeaderOk(ws[..HDR_WORDS]) ==> LoadSegment(ws, guard) == Fails(Exit)
  {
    var turn := Look(ws, 0, true, FS_XCOPY, guard);
    if turn.Copy? {
      PassWords(ws, 0, turn.to);
      RunningSum(ws, turn.to, BlockEnd(turn.addr, 4 * (turn.to - turn.from)),
        Add(0, Sum(ws[0..turn.to]) % TWO_TO_THE_32),
        [] + [Block(turn.addr, ws[0..turn.to])], guard);
    }
  }

  // The header sums to zero by itself, so this is the sum of the body, as validBody
  // takes it, and the header does cancel out.
  lemma LoaderChecksBody(ws: seq<Word>, guard: Guard)
    requires |ws| >= HDR_WORDS && HeaderOk(ws[..HDR_WORDS])
    requires ListOf(ws, guard).Ended? && ListOf(ws, guard).end >= HDR_WORDS
    ensures var list := ListOf(ws, guard);
            LoadSegment(ws, guard) ==
            if SumsToZero(ws[HDR_WORDS..list.end]) then Run(list.entry, list.copies) else Fails(Exit)
  {
    var end := ListOf(ws, guard).end;
    LoaderVerdict(ws, guard);
    assert ws[..end] == ws[..HDR_WORDS] + ws[HDR_WORDS..end];
    ZeroAddsNothing(ws[..HDR_WORDS], ws[HDR_WORDS..end]);
  }

  // So for a segment in a ROM whose list ends where its header says, the loader and
  // validBody decide alike.
  lemma LoaderAgreesWithValidBody(g: FlashImage.Geometry, rom: seq<Word>, k: nat, guard: Guard)
    requires FlashImage.Shaped(g, rom) && FlashImage.Holds(g, rom, k)
    requires var ws := rom[FlashImage.Pos(g, k)..];
             ListOf(ws, guard).Ended? && ListOf(ws, guard).end == SegWords(FlashImage.Hdr(g, rom, k))
    ensures LoadSegment(rom[FlashImage.Pos(g, k)..], guard).Run? <==> FlashImage.BodyOk(g, rom, k)
  {
    var p := FlashImage.Pos(g, k);
    var ws, hdr := rom[p..], FlashImage.Hdr(g, rom, k);
    assert ws[..HDR_WORDS] == hdr;
    assert ws[HDR_WORDS..SegWords(hdr)] == FlashImage.Body(g, rom, k);
    LoaderChecksBody(ws, guard);
  }

  // A segment that runs does not run after any change to one of its words that
  // leaves the end of its block list where it was.
  lemma DamagedSegmentExits(ws: seq<Word>, i: nat, w: Word, guard: Guard)
    requires HDR_WORDS + 2 <= |ws| && i < |ws| && ws[HDR_WORDS + 1] != 0 && LoadSegment(ws, guard).Run?
    requires var list, list' := ListOf(ws, guard), ListOf(ws[i := w], guard);
             list.Ended? && list'.Ended? && i < list.end == list'.end
    requires w != ws[i] && ws[i := w][HDR_WORDS + 1] != 0
    ensures LoadSegment(ws[i := w], guard) == Fails(Exit)
  {
    var end := ListOf(ws, guard).end;
    LoaderVerdict(ws, guard);
    LoaderVerdict(ws[i := w], guard);
    assert ws[i := w][..end] == ws[..end][i := w];
    OneChangeDetected(ws[..end], i, w);
  }

  // One section: it is passed when it can be copied, and otherwise nothing after
  // it is loaded.
  lemma LookSection(ws: seq<Word>, p: nat, section: Section, t1: Word, guard: Guard)
    requires 4 * |section.data| < TWO_TO_THE_32
    requires p + 2 + |section.data| <= |ws| && ws[p] == section.addr && ws[p + 1] == 4 * |section.data|
    ensures var turn := Look(ws, p, false, t1, guard);
            if section.data == [] then !turn.Copy? && (p + 3 <= |ws| ==> turn.Last?)
            else if !Accepts(guard, t1, section.addr, 4 * |section.data|) then turn == Stop(Exit)
            else if !Copyable(section) then turn == Stop(Hang)
            else turn == Copy(section.addr, p + 2, p + 2 + |section.data|)
  {}

  // The blocks of the sections are the words at p, the list ends at end and
  // something follows it.
  predicate ListAt(ws: seq<Word>, p: nat, sections: seq<Section>, entry: Word, end: nat)
    requires Sized(sections)
    decreases |sections|
  {
    if sections == [] then end == p + 2 < |ws| && ws[p] == entry && ws[p + 1] == 0
    else
      var data := sections[0].data;
      && p + 2 + |data| <= |ws| && ws[p] == sections[0].addr && ws[p + 1] == 4 * |data|
      && ws[p + 2..p + 2 + |data|] == data && ListAt(ws, p + 2 + |data|, sections[1..], entry, end)
  }

  lemma {:induction false} TailListed(ws: seq<Word>, before: seq<Word>, sections: seq<Section>, entry: Word,
                                      after: seq<Word>, end: nat)
    requires Sized(sections) && after != [] && ws == before + Tail(sections, entry) + after
    requires end == |before| + |Tail(sections, entry)|
    ensures ListAt(ws, |before|, sections, entry, end)
    decreases |sections|
  {
    if sections == [] {
      PassedParts(ws, before, [entry, 0], [], after);
    } else {
      var block, data, tail := [sections[0].addr, 4 * |sections[0].data|], sections[0].data, Tail(sections[1..], entry);
      Reassociate(before, block, data, tail, after);
      PassedParts(ws, before, block, data, tail + after);
      var next := |before| + 2 + |data|;
      assert |before + block + data| == next;
      TailListed(ws, before + block + data, sections[1..], entry, after, end);
      ListGrows(ws, |before|, sections, entry, next, end);
    }
  }

  lemma ListGrows(ws: seq<Word>, p: nat, sections: seq<Section>, entry: Word, next: nat, end: nat)
    requires Sized(sections) && sections != [] && next == p + 2 + |sections[0].data| <= |ws|
    requires ws[p] == sections[0].addr && ws[p + 1] == 4 * |sections[0].data| && ws[p + 2..next] == sections[0].data
    requires ListAt(ws, next, sections[1..], entry, end)
    ensures ListAt(ws, p, sections, entry, end)
  {}

  lemma Reassociate(before: seq<Word>, block: seq<Word>, data: seq<Word>, tail: seq<Word>, after: seq<Word>)
    ensures before + (block + data + tail) + after == before + block + data + tail + after
    ensures before + (block + data + tail) + after == before + block + data + (tail + after)
  {}

  lemma PassedParts(ws: seq<Word>, before: seq<Word>, block: seq<Word>, data: seq<Word>, after: seq<Word>)
    requires |block| == 2 && ws == before + block + data + after
    ensures var p := |before|;
            ws[p] == block[0] && ws[p + 1] == block[1] && ws[p + 2..p + 2 + |data|] == data
  {}

  // The blocks of the sections come back, in order, with the entry address, when
  // all can be loaded.
  lemma {:induction false} ParseTail(ws: seq<Word>, p: nat, t1: Word, copies: seq<Block>, sections: seq<Section>,
                                     entry: Word, guard: Guard, all: seq<Block>, end: nat)
    requires Sized(sections) && CanLoad(guard, t1, sections)
    requires ListAt(ws, p, sections, entry, end) && all == copies + CopiesOf(sections)
    ensures Parse(ws, p, false, t1, copies, guard) == Ended(entry, all, end + 1)
    decreases |sections|
  {
    if sections == [] {
      assert all == copies;
    } else {
      hide Look, Accepts;
      SplitFirst(copies, sections);
      var section := sections[0];
      LookSection(ws, p, section, t1, guard);
      ParseTail(ws, p + 2 + |section.data|, BlockEnd(section.addr, 4 * |section.data|),
        copies + [Block(section.addr, section.data)], sections[1..], entry, guard, all, end);
    }
  }

  // Otherwise some block is lost.
  lemma {:induction false} ParseLoses(ws: seq<Word>, p: nat, t1: Word, copies: seq<Block>, sections: seq<Section>,
                                      entry: Word, guard: Guard, end: nat)
    requires Sized(sections) && !CanLoad(guard, t1, sections)
    requires ListAt(ws, p, sections, entry, end)
    ensures var list := Parse(ws, p, false, t1, copies, guard);
            list.Ended? ==> |list.copies| < |copies| + |sections|
    decreases |sections|
  {
    SplitFirst(copies, sections);
    var section := sections[0];
    LookSection(ws, p, section, t1, guard);
    if Copyable(section) && Accepts(guard, t1, section.addr, 4 * |section.data|) {
      ParseLoses(ws, p + 2 + |section.data|, BlockEnd(section.addr, 4 * |section.data|),
        copies + [Block(section.addr, section.data)], sections[1..], entry, guard, end);
    }
  }

  lemma SplitFirst(copies: seq<Block>, sections: seq<Section>)
    requires sections != [] && Sized(sections)
    ensures Sized(sections[1..]) && 4 * |sections[0].data| < TWO_TO_THE_32
    ensures copies + [Block(sections[0].addr, sections[0].data)] + CopiesOf(sections[1..]) ==
              copies + CopiesOf(sections)
  {
    assert forall i :: 1 <= i < |sections| ==> sections[i] == sections[1..][i - 1];
  }

  // ---- a segment, built and loaded ----

  // The words of a segment's body before padding and checksum.
  function Content(sections: seq<Section>, entry: Word): seq<Word>
    requires Sized(sections) && sections != [] && |sections[0].data| >= HDR_WORDS + 2
  {
    (FirstBlock(sections[0]) + Tail(sections[1..], entry))[HDR_WORDS..]
  }

  // The segment the builder leaves in the ROM: the image with the header put in
  // place of its first words, padding, and the checksum of the body after it.
  function SegmentWords(hdr: Header, sections: seq<Section>, entry: Word, padding: seq<Word>): seq<Word>
    requires Sized(sections) && sections != [] && |sections[0].data| >= HDR_WORDS + 2
  {
    hdr + Seal(Content(sections, entry) + padding)
  }

  // What the first block brings to RAM: the section with both headers put in.
  function FirstCopy(hdr: Header, section: Section): seq<Word>
    requires |section.data| >= HDR_WORDS + 2 && 4 * |section.data| < TWO_TO_THE_32
  {
    hdr + [section.addr, 4 * |section.data|] + section.data[HDR_WORDS + 2..]
  }

  // All of it in RAM, and the last code section run.
  function Whole(hdr: Header, sections: seq<Section>, entry: Word): Outcome
    requires Sized(sections) && sections != [] && |sections[0].data| >= HDR_WORDS + 2
  {
    Run(entry, [Block(sections[0].addr, FirstCopy(hdr, sections[0]))] + CopiesOf(sections[1..]))
  }

  // The loader takes the word after the list for the checksum.  With padding that is
  // a word of padding.
  predicate PaddingPasses(sections: seq<Section>, entry: Word, padding: seq<Word>)
    requires Sized(sections) && sections != [] && |sections[0].data| >= HDR_WORDS + 2
  {
    padding == [] || SumsToZero(Content(sections, entry) + padding[..1])
  }

  // Whatever follows the segment, the loader copies every section to its address,
  // in order, and runs the last code section, exactly when the segment is of the type
  // it loads, each section can be copied as a block and passes the guard, and there is
  // no padding, or one that passes for the checksum.  If it runs anything else, a
  // section is missing.
  lemma BuiltSegmentLoads(hdr: Header, sections: seq<Section>, entry: Word, padding: seq<Word>, after: seq<Word>,
                          guard: Guard)
    requires Sized(sections) && sections != [] && |sections[0].data| >= HDR_WORDS + 2 && HeaderOk(hdr)
    ensures LoadSegment(SegmentWords(hdr, sections, entry, padding) + after, guard) == Whole(hdr, sections, entry) <==>
            IsXcopy(hdr) && CanLoad(guard, FS_XCOPY, sections) && PaddingPasses(sections, entry, padding)
    ensures var outcome := LoadSegment(SegmentWords(hdr, sections, entry, padding) + after, guard);
            outcome.Run? && outcome != Whole(hdr, sections, entry) ==> |outcome.copies| < |sections|
  {
    var segment := SegmentWords(hdr, sections, entry, padding);
    var ws, end := segment + after, HDR_WORDS + |Content(sections, entry)| + 1;
    SegmentLayout(hdr, sections, entry, padding, after, end);
    SegmentSums(hdr, sections, entry, padding, after, end);
    SegmentLoads(ws, FirstCopy(hdr, sections[0]), sections, entry, guard, end, LoadSegment(ws, guard));
  }

  lemma SegmentLoads(ws: seq<Word>, copied: seq<Word>, sections: seq<Section>, entry: Word, guard: Guard, end: nat,
                     outcome: Outcome)
    requires Sized(sections) && sections != [] && IsSegment(ws, copied, sections, entry, end)
             && outcome == LoadSegment(ws, guard)
    ensures outcome == Run(entry, [Block(sections[0].addr, copied)] + CopiesOf(sections[1..])) <==>
            IsXcopy(ws) && CanLoad(guard, FS_XCOPY, sections) && SumsToZero(ws[..end])
    ensures outcome.Run? && outcome != Run(entry, [Block(sections[0].addr, copied)] + CopiesOf(sections[1..])) ==>
              |outcome.copies| < |sections|
  {
    LoaderVerdict(ws, guard);
    if IsXcopy(ws) {
      ParseSegment(ws, copied, sections, entry, guard, end);
    }
  }

  predicate IsSegment(ws: seq<Word>, copied: seq<Word>, sections: seq<Section>, entry: Word, end: nat)
    requires Sized(sections) && sections != []
  {
    var n := |sections[0].data|;
    && HDR_WORDS + 2 <= n <= |ws| && ws[HDR_WORDS] == sections[0].addr && ws[HDR_WORDS + 1] == 4 * n
    && ws[0..n] == copied && Sized(sections[1..])
    && 0 < end <= |ws| && ListAt(ws, n, sections[1..], entry, end - 1)
  }

  // The words of a segment, whatever they sum to.
  lemma {:induction false} ParseSegment(ws: seq<Word>, copied: seq<Word>, sections: seq<Section>, entry: Word,
                                        guard: Guard, end: nat)
    requires Sized(sections) && sections != [] && IsSegment(ws, copied, sections, entry, end)
    ensures var list := Parse(ws, 0, true, FS_XCOPY, [], guard);
            if CanLoad(guard, FS_XCOPY, sections) then
              list == Ended(entry, [Block(sections[0].addr, copied)] + CopiesOf(sections[1..]), end)
            else
              list.Ended? ==> |list.copies| < |sections|
  {
    hide Look, Accepts;
    var first, rest := sections[0], sections[1..];
    var n, length := |first.data|, 4 * |first.data|;
    SplitFirst([], sections);
    var copies := [Block(first.addr, copied)];
    ParseFirst(ws, first.addr, n, copied, guard);
    if CanLoad(guard, FS_XCOPY, sections) {
      ParseTail(ws, n, BlockEnd(first.addr, length), copies, rest, entry, guard, copies + CopiesOf(rest), end - 1);
    } else if Copyable(first) && Accepts(guard, FS_XCOPY, first.addr, length) {
      ParseLoses(ws, n, BlockEnd(first.addr, length), copies, rest, entry, guard, end - 1);
    }
  }

  lemma ParseFirst(ws: seq<Word>, addr: Word, n: nat, copied: seq<Word>, guard: Guard)
    requires HDR_WORDS + 2 <= n <= |ws| && ws[0..n] == copied && 4 * n < TWO_TO_THE_32
    requires ws[HDR_WORDS] == addr && ws[HDR_WORDS + 1] == 4 * n
    ensures var list := Parse(ws, 0, true, FS_XCOPY, [], guard);
            if !Accepts(guard, FS_XCOPY, addr, 4 * n) then list == Broken(Exit)
            else if n % 4 != 0 then list == Broken(Hang)
            else list == Parse(ws, n, false, BlockEnd(addr, 4 * n), [Block(addr, copied)], guard)
  {
    LookFirst(ws, addr, n, guard);
    assert [] + [Block(addr, copied)] == [Block(addr, copied)];
  }

  lemma LookFirst(ws: seq<Word>, addr: Word, n: nat, guard: Guard)
    requires HDR_WORDS + 2 <= n <= |ws| && 4 * n < TWO_TO_THE_32
    requires ws[HDR_WORDS] == addr && ws[HDR_WORDS + 1] == 4 * n
    ensures var turn := Look(ws, 0, true, FS_XCOPY, guard);
            if !Accepts(guard, FS_XCOPY, addr, 4 * n) then turn == Stop(Exit)
            else if n % 4 != 0 then turn == Stop(Hang)
            else turn == Copy(addr, 0, n)
  {}

  // ---- how a load that does not run ends ----

  // The register the guard looks at for section i, and whether it lets it pass.
  function EndBefore(t1: Word, sections: seq<Section>, i: nat): Word
    requires Sized(sections) && i <= |sections|
  {
    if i == 0 then t1 else BlockEnd(sections[i - 1].addr, 4 * |sections[i - 1].data|)
  }

  predicate PassesGuard(guard: Guard, t1: Word, sections: seq<Section>, i: nat)
    requires Sized(sections) && i < |sections|
  {
    Accepts(guard, EndBefore(t1, sections, i), sections[i].addr, 4 * |sections[i].data|)
  }

  // Is section i the first that cannot be loaded, because it passes the guard but is
  // not whole groups of sixteen bytes?
  predicate HangsAt(guard: Guard, t1: Word, sections: seq<Section>, i: int)
    requires Sized(sections)
  {
    && 0 <= i < |sections| && Sized(sections[..i]) && CanLoad(guard, t1, sections[..i])
    && 4 * |sections[i].data| % 16 != 0 && PassesGuard(guard, t1, sections, i)
  }

  // Is it the first because the guard refuses it?
  predicate RefusedAt(guard: Guard, t1: Word, sections: seq<Section>, i: int)
    requires Sized(sections)
  {
    && 0 <= i < |sections| && Sized(sections[..i]) && CanLoad(guard, t1, sections[..i])
    && sections[i].data != [] && !PassesGuard(guard, t1, sections, i)
  }

  // Whatever follows it, a built segment never ends the copy loop exactly when the first
  // section that cannot be loaded passes the guard and is not whole groups of sixteen
  // bytes; when the guard refuses that section, the loader returns; and it never reads
  // past the words.
  lemma BuiltSegmentFails(hdr: Header, sections: seq<Section>, entry: Word, padding: seq<Word>, after: seq<Word>,
                          guard: Guard)
    requires Sized(sections) && sections != [] && |sections[0].data| >= HDR_WORDS + 2 && IsXcopy(hdr)
    ensures var outcome := LoadSegment(SegmentWords(hdr, sections, entry, padding) + after, guard);
            && (outcome == Fails(Hang) <==> exists i :: HangsAt(guard, FS_XCOPY, sections, i))
            && ((exists i :: RefusedAt(guard, FS_XCOPY, sections, i)) ==> outcome == Fails(Exit))
            && outcome != Fails(Stray)
  {
    hide SegmentWords, FirstCopy, Look, Parse, Load, HangsAt, RefusedAt;
    var ws, end := SegmentWords(hdr, sections, entry, padding) + after, HDR_WORDS + |Content(sections, entry)| + 1;
    SegmentLayout(hdr, sections, entry, padding, after, end);
    LoaderVerdict(ws, guard);
    SegmentFate(ws, FirstCopy(hdr, sections[0]), sections, entry, guard, end);
    FateByIndex(guard, FS_XCOPY, sections);
  }

  // What becomes of a list of sections: all are copied, or the first that cannot be is
  // taken for the end of the list, is refused, or never ends.
  datatype Fate = Copied | Ends | Refused | Endless

  function FateOf(guard: Guard, t1: Word, sections: seq<Section>): Fate
    requires Sized(sections)
    decreases |sections|
  {
    if sections == [] then Copied
    else
      var addr, length := sections[0].addr, 4 * |sections[0].data|;
      if length == 0 then Ends
      else if !Accepts(guard, t1, addr, length) then Refused
      else if length % 16 != 0 then Endless
      else FateOf(guard, BlockEnd(addr, length), sections[1..])
  }

  lemma SegmentFate(ws: seq<Word>, copied: seq<Word>, sections: seq<Section>, entry: Word, guard: Guard, end: nat)
    requires Sized(sections) && sections != [] && IsSegment(ws, copied, sections, entry, end)
    ensures var list := Parse(ws, 0, true, FS_XCOPY, [], guard);
            match FateOf(guard, FS_XCOPY, sections)
            case Copied | Ends => list.Ended?
            case Refused => list == Broken(Exit)
            case Endless => list == Broken(Hang)
  {
    hide Look, Accepts;
    var first := sections[0];
    var n := |first.data|;
    SplitFirst([], sections);
    ParseFirst(ws, first.addr, n, copied, guard);
    if Accepts(guard, FS_XCOPY, first.addr, 4 * n) && n % 4 == 0 {
      ParseFate(ws, n, BlockEnd(first.addr, 4 * n), [Block(first.addr, copied)], sections[1..], entry, guard, end - 1);
    }
  }

  lemma {:induction false} ParseFate(ws: seq<Word>, p: nat, t1: Word, copies: seq<Block>, sections: seq<Section>,
                                     entry: Word, guard: Guard, end: nat)
    requires Sized(sections) && ListAt(ws, p, sections, entry, end)
    ensures var list := Parse(ws, p, false, t1, copies, guard);
            match FateOf(guard, t1, sections)
            case Copied | Ends => list.Ended?
            case Refused => list == Broken(Exit)
            case Endless => list == Broken(Hang)
    decreases |sections|
  {
    if sections != [] {
      hide Look, Accepts;
      SplitFirst(copies, sections);
      var section := sections[0];
      LookSection(ws, p, section, t1, guard);
      ListEndsInside(ws, p, sections, entry, end);
      if Copyable(section) && Accepts(guard, t1, section.addr, 4 * |section.data|) {
        ParseFate(ws, p + 2 + |section.data|, BlockEnd(section.addr, 4 * |section.data|),
          copies + [Block(section.addr, section.data)], sections[1..], entry, guard, end);
      }
    }
  }

  lemma {:induction false} ListEndsInside(ws: seq<Word>, p: nat, sections: seq<Section>, entry: Word, end: nat)
    requires Sized(sections) && ListAt(ws, p, sections, entry, end)
    ensures p + 2 <= end < |ws|
    decreases |sections|
  {
    if sections != [] {
      SplitFirst([], sections);
      ListEndsInside(ws, p + 2 + |sections[0].data|, sections[1..], entry, end);
    }
  }

  lemma FateByIndex(guard: Guard, t1: Word, sections: seq<Section>)
    requires Sized(sections)
    ensures FateOf(guard, t1, sections) == Endless <==> exists i :: HangsAt(guard, t1, sections, i)
    ensures (exists i :: RefusedAt(guard, t1, sections, i)) ==> FateOf(guard, t1, sections) == Refused
  {
    hide HangsAt, RefusedAt;
    forall i | HangsAt(guard, t1, sections, i)
      ensures FateOf(guard, t1, sections) == Endless
    {
      FateAt(guard, t1, sections, i);
    }
    forall i | RefusedAt(guard, t1, sections, i)
      ensures FateOf(guard, t1, sections) == Refused
    {
      FateAt(guard, t1, sections, i);
    }
    if FateOf(guard, t1, sections) == Endless {
      var i := EndlessAt(guard, t1, sections);
    }
  }

  lemma {:induction false} FateAt(guard: Guard, t1: Word, sections: seq<Section>, i: int)
    requires Sized(sections) && (HangsAt(guard, t1, sections, i) || RefusedAt(guard, t1, sections, i))
    ensures HangsAt(guard, t1, sections, i) ==> FateOf(guard, t1, sections) == Endless
    ensures RefusedAt(guard, t1, sections, i) ==> FateOf(guard, t1, sections) == Refused
    decreases |sections|
  {
    hide Accepts;
    if i > 0 {
      SplitFirst([], sections);
      assert sections[..i][1..] == sections[1..][..i - 1];
      FateAt(guard, BlockEnd(sections[0].addr, 4 * |sections[0].data|), sections[1..], i - 1);
    }
  }

  lemma {:induction false} EndlessAt(guard: Guard, t1: Word, sections: seq<Section>) returns (i: int)
    requires Sized(sections) && FateOf(guard, t1, sections) == Endless
    ensures HangsAt(guard, t1, sections, i)
    decreases |sections|
  {
    hide Accepts;
    var length := 4 * |sections[0].data|;
    if length % 16 != 0 {
      i := 0;
    } else {
      SplitFirst([], sections);
      var j := EndlessAt(guard, BlockEnd(sections[0].addr, length), sections[1..]);
      i := j + 1;
      HangsLater(guard, t1, sections, j);
    }
  }

  lemma HangsLater(guard: Guard, t1: Word, sections: seq<Section>, j: int)
    requires Sized(sections) && sections != [] && Copyable(sections[0]) && Sized(sections[1..])
    requires Accepts(guard, t1, sections[0].addr, 4 * |sections[0].data|)
    requires HangsAt(guard, BlockEnd(sections[0].addr, 4 * |sections[0].data|), sections[1..], j)
    ensures HangsAt(guard, t1, sections, j + 1)
  {
    hide Accepts, BlockEnd;
    assert sections[..j + 1][1..] == sections[1..][..j];
  }

  lemma SegmentLayout(hdr: Header, sections: seq<Section>, entry: Word, padding: seq<Word>, after: seq<Word>, end: nat)
    requires Sized(sections) && sections != [] && |sections[0].data| >= HDR_WORDS + 2
    requires end == HDR_WORDS + |Content(sections, entry)| + 1
    ensures var ws := SegmentWords(hdr, sections, entry, padding) + after;
            IsSegment(ws, FirstCopy(hdr, sections[0]), sections, entry, end) && (IsXcopy(ws) <==> IsXcopy(hdr))
  {
    var first, tail := sections[0], Tail(sections[1..], entry);
    var data, block := first.data[HDR_WORDS + 2..], [first.addr, 4 * |first.data|];
    var ws := SegmentWords(hdr, sections, entry, padding) + after;
    var rest := Layout(hdr, first.data[..HDR_WORDS], block, data, tail, padding, after);
    assert ws == FirstCopy(hdr, first) + tail + rest;
    SegmentParts(ws, hdr, sections, entry, rest, end);
  }

  lemma Layout(hdr: Header, gone: seq<Word>, block: seq<Word>, data: seq<Word>, tail: seq<Word>, padding: seq<Word>,
               after: seq<Word>)
    returns (rest: seq<Word>)
    requires |gone| == HDR_WORDS && |block| == 2
    ensures var content := (gone + block + data + tail)[HDR_WORDS..];
            && |content| == 2 + |data| + |tail|
            && hdr + Seal(content + padding) + after == hdr + block + data + tail + rest
    ensures rest != []
  {
    var content := (gone + block + data + tail)[HDR_WORDS..];
    assert content == block + data + tail;
    var sum := Seal(content + padding)[|content| + |padding|];
    rest := padding + [sum] + after;
    assert Seal(content + padding) == content + padding + [sum];
  }

  lemma SegmentParts(ws: seq<Word>, hdr: Header, sections: seq<Section>, entry: Word, after: seq<Word>, end: nat)
    requires Sized(sections) && sections != [] && |sections[0].data| >= HDR_WORDS + 2 && after != []
    requires ws == FirstCopy(hdr, sections[0]) + Tail(sections[1..], entry) + after
    requires end == |sections[0].data| + |Tail(sections[1..], entry)| + 1
    ensures IsSegment(ws, FirstCopy(hdr, sections[0]), sections, entry, end)
  {
    var first, tail := sections[0], Tail(sections[1..], entry);
    var copied := FirstCopy(hdr, first);
    TailListed(ws, copied, sections[1..], entry, after, end - 1);
    FrontParts(ws, hdr, [first.addr, 4 * |first.data|], first.data[HDR_WORDS + 2..], tail, after);
  }

  lemma FrontParts(ws: seq<Word>, hdr: Header, block: seq<Word>, data: seq<Word>, tail: seq<Word>, after: seq<Word>)
    requires |block| == 2 && ws == hdr + block + data + tail + after
    ensures var n := HDR_WORDS + 2 + |data|;
            n <= |ws| && ws[0..n] == hdr + block + data && ws[HDR_WORDS] == block[0] && ws[HDR_WORDS + 1] == block[1]
  {}

  // What the loader sums: the header, the content and the word after it.
  lemma SegmentSums(hdr: Header, sections: seq<Section>, entry: Word, padding: seq<Word>, after: seq<Word>, end: nat)
    requires Sized(sections) && sections != [] && |sections[0].data| >= HDR_WORDS + 2 && HeaderOk(hdr)
    requires end == HDR_WORDS + |Content(sections, entry)| + 1
    ensures var ws := SegmentWords(hdr, sections, entry, padding) + after;
            end <= |ws| && (SumsToZero(ws[..end]) <==> PaddingPasses(sections, entry, padding))
  {
    SumUpToEnd(hdr, Content(sections, entry), padding, after, end);
  }

  lemma SumUpToEnd(hdr: Header, content: seq<Word>, padding: seq<Word>, after: seq<Word>, end: nat)
    requires HeaderOk(hdr) && end == HDR_WORDS + |content| + 1
    ensures var ws := hdr + Seal(content + padding) + after;
            end <= |ws| && (SumsToZero(ws[..end]) <==> padding == [] || SumsToZero(content + padding[..1]))
  {
    var ws := hdr + Seal(content + padding) + after;
    if padding == [] {
      assert content + padding == content;
      assert ws[..end] == hdr + Seal(content);
      SealSumsToZero(content);
      ZeroAddsNothing(hdr, Seal(content));
    } else {
      assert ws[..end] == hdr + (content + padding[..1]);
      ZeroAddsNothing(hdr, content + padding[..1]);
    }
  }

  // ---- a file of blocks in the image ----

  lemma StampedType(f: File, head: Header)
    requires Loadable(f) && 4 * FinalWords(f) < TWO_TO_THE_32
    ensures ByteOf(Seal(Stamped(f, head))[FS_LENS], 2) == f.segType
  {
    JoinedBytes(|f.name|, |f.vsn|, f.segType, ByteOf(head[FS_LENS], 3));
  }

  lemma ZeroPadding(content: seq<Word>, n: nat)
    ensures n > 0 ==> (SumsToZero(content + Zeros(n)[..1]) <==> SumsToZero(content))
  {
    if n > 0 {
      assert Zeros(n)[..1] == [0];
      SumConcat(content, [0]);
      SumOne(0);
    }
  }

  // So finishSegment turns the blocks of the sections into a segment that loads as a
  // whole exactly when the sections can be loaded and no padding was asked for beyond
  // the segment's own length; or else, the padding being zeros, when the words of the
  // body sum to zero by themselves.
  lemma FinishedFileLoads(g: FlashImage.Geometry, rom: seq<Word>, k: nat, f: File, sections: seq<Section>, entry: Word,
                          guard: Guard, at: nat, raw: seq<Word>, head: Header, ws: seq<Word>)
    requires FlashImage.Shaped(g, rom) && k < g.pages && Loadable(f) && !Dropped(f) && BlankFrom(g, rom, k)
    requires 4 * FinalWords(f) < TWO_TO_THE_32 && at == FlashImage.Pos(g, k) && at + FinalWords(f) <= |rom|
    requires raw == ReadIn(rom, at, f.data)
    requires Sized(sections) && sections != [] && |sections[0].data| >= HDR_WORDS + 2
    requires IsFileOf(f, sections, entry)
    requires ws == FlashImage.PutWords(raw, at, Finished(f, raw, at))[at..] && head == raw[at..at + HDR_WORDS]
    ensures LoadSegment(ws, guard) == Whole(Seal(Stamped(f, head)), sections, entry) <==>
            CanLoad(guard, FS_XCOPY, sections) && PadPasses(f, Content(sections, entry))
  {
    hide Stamped, Pack, Unpack, ReadIn, LoadSegment, Whole, CanLoad, FlashImage.Addressed;
    var after := FileWords(rom, at, f, raw, FirstBlock(sections[0]) + Tail(sections[1..], entry));
    FileLoads(ws, f, head, sections, entry, after, guard);
  }

  // Is the file the image of the sections, of the type that is loaded?
  predicate IsFileOf(f: File, sections: seq<Section>, entry: Word)
    requires Sized(sections) && sections != [] && |sections[0].data| >= HDR_WORDS + 2
  {
    f.segType == FS_XCOPY && f.data == Unpack(FirstBlock(sections[0]) + Tail(sections[1..], entry))
  }

  // No pad length, or the segment's own, or a content that is its own checksum.
  predicate PadPasses(f: File, content: seq<Word>) {
    f.padTo == 0 || f.padTo == 4 * (DataWords(f) + 1) || SumsToZero(content)
  }

  lemma FileWords(rom: seq<Word>, at: nat, f: File, raw: seq<Word>, ws: seq<Word>) returns (after: seq<Word>)
    requires Loadable(f) && !Dropped(f) && 4 * FinalWords(f) < TWO_TO_THE_32 && at + FinalWords(f) <= |rom|
    requires HDR_WORDS < |ws| < FinalWords(f) && f.data == Unpack(ws) && raw == ReadIn(rom, at, f.data)
    requires forall i :: at <= i < |rom| ==> rom[i] == 0
    ensures FlashImage.PutWords(raw, at, Finished(f, raw, at))[at..] ==
            Seal(Stamped(f, raw[at..at + HDR_WORDS])) + Seal(ws[HDR_WORDS..] + Zeros(FinalWords(f) - 1 - |ws|)) + after
  {
    hide Stamped, Pack, Unpack, Seal;
    WholeWords(rom, at, ws);
    assert raw[at + HDR_WORDS..at + FinalWords(f) - 1] == ws[HDR_WORDS..] + Zeros(FinalWords(f) - 1 - |ws|);
    FinishedParts(f, raw, at);
    after := raw[at + FinalWords(f)..];
  }

  // Whole words are read in as they are.
  lemma WholeWords(rom: seq<Word>, at: nat, ws: seq<Word>)
    requires at + |ws| <= |rom|
    ensures ReadIn(rom, at, Unpack(ws)) == FlashImage.PutWords(rom, at, ws)
  {
    hide Pack, Unpack;
    assert Unpack(ws) + Unpack(rom[at..])[4 * |ws|..4 * |ws|] == Unpack(ws);
    PackUnpack(ws);
  }

  lemma FileLoads(ws: seq<Word>, f: File, head: Header, sections: seq<Section>, entry: Word, after: seq<Word>,
                  guard: Guard)
    requires Loadable(f) && !Dropped(f) && 4 * FinalWords(f) < TWO_TO_THE_32
    requires Sized(sections) && sections != [] && |sections[0].data| >= HDR_WORDS + 2 && IsFileOf(f, sections, entry)
    requires FinalWords(f) - 1 >= HDR_WORDS + |Content(sections, entry)|
    requires var content := Content(sections, entry);
             ws == Seal(Stamped(f, head)) + Seal(content + Zeros(FinalWords(f) - 1 - HDR_WORDS - |content|)) + after
    ensures LoadSegment(ws, guard) == Whole(Seal(Stamped(f, head)), sections, entry) <==>
            CanLoad(guard, FS_XCOPY, sections) && PadPasses(f, Content(sections, entry))
  {
    hide Pack, Unpack, Stamped, LoadSegment, Whole, CanLoad;
    var n := FinalWords(f) - 1 - HDR_WORDS - |Content(sections, entry)|;
    StampedHeader(f, head);
    StampedType(f, head);
    ZeroPadding(Content(sections, entry), n);
    BuiltSegmentLoads(Seal(Stamped(f, head)), sections, entry, Zeros(n), after, guard);
  }

  // When the first section placed has no data, the next one has a block header in
  // front of it that the segment header is put over, and the loader takes two words of
  // its data for the header of the first block.
  lemma FirstWithoutData(hdr: Header, placed: seq<Placed>, entry: Word, after: seq<Word>, guard: Guard)
    requires Sized(SectionsOf(placed)) && SectionsOf(placed) != [] && !HasFirst(placed)
    requires |SectionsOf(placed)[0].data| >= HDR_WORDS && IsXcopy(hdr)
    ensures var data := SectionsOf(placed)[0].data; var ws := hdr + ImageWords(placed, entry)[HDR_WORDS..] + after;
            && (data[HDR_WORDS - 1] == 0 ==> LoadSegment(ws, guard) == EmptyVerdict(ws))
            && (data[HDR_WORDS - 1] != 0 && !Accepts(guard, FS_XCOPY, data[HDR_WORDS - 2], data[HDR_WORDS - 1]) ==>
                  LoadSegment(ws, guard) == Fails(Exit))
            && var turn := Look(ws, 0, true, FS_XCOPY, guard);
               turn.Copy? ==> turn.addr == data[HDR_WORDS - 2] && 4 * (turn.to - turn.from) == data[HDR_WORDS - 1]
  {
    var section := SectionsOf(placed)[0];
    var image := ImageWords(placed, entry);
    var ws := hdr + image[HDR_WORDS..] + after;
    assert image == [section.addr, 4 * |section.data|] + section.data + Tail(SectionsOf(placed)[1..], entry);
    assert ws[HDR_WORDS] == image[HDR_WORDS] && ws[HDR_WORDS + 1] == image[HDR_WORDS + 1];
    assert ws[FS_LENS] == hdr[FS_LENS];
    LoaderVerdict(ws, guard);
  }
}
