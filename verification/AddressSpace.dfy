// The 32-bit MIPS address space, as two headers describe it: by ranges and by
// masks.  Kernel: the macros of include/sys/mips_addrspace.h for C outside _ABI64
// and EVEREST; Compat: those of compat/irix_compat.h.
module AddressSpace {

  datatype Header = Kernel | Compat

  // ---- predicates ----

  predicate IsKseg0(hdr: Header, x: bv32) {
    if hdr == Kernel then 0x80000000 <= x < 0xA0000000 else x & 0xE0000000 == 0x80000000
  }

  predicate IsKseg1(hdr: Header, x: bv32) {
    if hdr == Kernel then 0xA0000000 <= x < 0xC0000000 else x & 0xE0000000 == 0xA0000000
  }

  predicate IsKuseg(hdr: Header, x: bv32) {
    if hdr == Kernel then x < 0x80000000 else x >> 31 == 0
  }

  // Physical addresses that have a place in kseg0 and kseg1.
  predicate IsKphys(x: bv32) {
    x & 0xE0000000 == 0
  }

  // ---- conversions ----

  datatype Conversion = K0ToK1 | K1ToK0 | K0ToPhys | K1ToPhys | PhysToK0 | PhysToK1

  function Convert(hdr: Header, c: Conversion, x: bv32): bv32 {
    match c
    case K0ToK1 => if hdr == Kernel then x | 0xA0000000 else x | 0x20000000
    case K1ToK0 => if hdr == Kernel then x & 0x9fffffff else x & 0xdfffffff
    case K0ToPhys => x & 0x1fffffff
    case K1ToPhys => x & 0x1fffffff
    case PhysToK0 => x | 0x80000000
    case PhysToK1 => x | 0xA0000000
  }

  datatype Segment = Kseg0 | Kseg1 | Phys

  predicate In(hdr: Header, seg: Segment, x: bv32) {
    match seg
    case Kseg0 => IsKseg0(hdr, x)
    case Kseg1 => IsKseg1(hdr, x)
    case Phys => IsKphys(x)
  }

  function From(c: Conversion): Segment {
    match c
    case K0ToK1 | K0ToPhys => Kseg0
    case K1ToK0 | K1ToPhys => Kseg1
    case PhysToK0 | PhysToK1 => Phys
  }

  function To(c: Conversion): Segment {
    match c
    case K1ToK0 | PhysToK0 => Kseg0
    case K0ToK1 | PhysToK1 => Kseg1
    case K0ToPhys | K1ToPhys => Phys
  }

  function Back(c: Conversion): Conversion {
    match c
    case K0ToK1 => K1ToK0
    case K1ToK0 => K0ToK1
    case K0ToPhys => PhysToK0
    case PhysToK0 => K0ToPhys
    case K1ToPhys => PhysToK1
    case PhysToK1 => K1ToPhys
  }

  // ---- the headers agree ----

  lemma PredicatesAgree(x: bv32)
    ensures IsKseg0(Kernel, x) <==> IsKseg0(Compat, x)
    ensures IsKseg1(Kernel, x) <==> IsKseg1(Compat, x)
    ensures IsKuseg(Kernel, x) <==> IsKuseg(Compat, x)
  {
    RangesAreMasks(x);
  }

  lemma RangesAreMasks(x: bv32)
    ensures 0x80000000 <= x < 0xA0000000 <==> x & 0xE0000000 == 0x80000000
    ensures 0xA0000000 <= x < 0xC0000000 <==> x & 0xE0000000 == 0xA0000000
    ensures x < 0x80000000 <==> x >> 31 == 0
  {}

  // The top bits of an address say where it lies; in kuseg exactly when bit 31 is clear,
  // and then in neither of the other two.
  lemma TopBits(hdr: Header, x: bv32)
    ensures IsKuseg(hdr, x) <==> x & 0x80000000 == 0
    ensures IsKseg0(hdr, x) <==> x >> 29 == 4
    ensures IsKseg1(hdr, x) <==> x >> 29 == 5
    ensures IsKuseg(hdr, x) ==> !IsKseg0(hdr, x) && !IsKseg1(hdr, x)
  {
    RangesAreMasks(x);
    MasksAreTopBits(x);
  }

  lemma MasksAreTopBits(x: bv32)
    ensures x >> 31 == 0 <==> x & 0x80000000 == 0
    ensures x & 0xE0000000 == 0x80000000 <==> x >> 29 == 4
    ensures x & 0xE0000000 == 0xA0000000 <==> x >> 29 == 5
    ensures x >> 29 == 4 || x >> 29 == 5 ==> x & 0x80000000 != 0
  {}

  // Where the two headers' conversions give the same address: those between kseg0
  // and kseg1 not everywhere, the rest do.
  lemma ConversionsAgree(c: Conversion, x: bv32)
    ensures Convert(Kernel, c, x) == Convert(Compat, c, x) <==>
            (c == K0ToK1 ==> x & 0x80000000 != 0) && (c == K1ToK0 ==> x & 0x40000000 == 0)
  {
    match c
    case K0ToK1 => SetBits(x);
    case K1ToK0 => ClearBits(x);
    case K0ToPhys | K1ToPhys | PhysToK0 | PhysToK1 =>
  }

  lemma SetBits(x: bv32)
    ensures x | 0xA0000000 == x | 0x20000000 <==> x & 0x80000000 != 0
  {}

  lemma ClearBits(x: bv32)
    ensures x & 0x9fffffff == x & 0xdfffffff <==> x & 0x40000000 == 0
  {}

  // The address in a segment that stands for a physical address.
  function At(seg: Segment, phys: bv32): bv32 {
    match seg
    case Kseg0 => phys | 0x80000000
    case Kseg1 => phys | 0xA0000000
    case Phys => phys
  }

  function PhysOf(x: bv32): bv32 {
    x & 0x1fffffff
  }

  // The address of a segment that stands for a physical address is the only one.
  lemma InMeansAt(seg: Segment, x: bv32)
    ensures In(Compat, seg, x) <==> x == At(seg, PhysOf(x))
  {
    match seg
    case Kseg0 => Kseg0At(x);
    case Kseg1 => Kseg1At(x);
    case Phys => PhysAt(x);
  }

  lemma Kseg0At(x: bv32)
    ensures In(Compat, Kseg0, x) <==> x == At(Kseg0, PhysOf(x))
  {}

  lemma Kseg1At(x: bv32)
    ensures In(Compat, Kseg1, x) <==> x == At(Kseg1, PhysOf(x))
  {}

  lemma PhysAt(x: bv32)
    ensures In(Compat, Phys, x) <==> x == At(Phys, PhysOf(x))
  {}

  lemma PhysOfAt(seg: Segment, x: bv32)
    ensures PhysOf(At(seg, PhysOf(x))) == PhysOf(x)
  {
    match seg
    case Kseg0 => assert PhysOf(At(Kseg0, PhysOf(x))) == PhysOf(x);
    case Kseg1 => assert PhysOf(At(Kseg1, PhysOf(x))) == PhysOf(x);
    case Phys =>
  }

  // Each conversion, from either header, takes an address of its segment to the
  // address in the other that stands for the same physical address.
  lemma Lands(hdr: Header, c: Conversion, x: bv32)
    requires In(Compat, From(c), x)
    ensures Convert(hdr, c, x) == At(To(c), PhysOf(x))
  {
    match c
    case K0ToK1 =>
      KernelK0ToK1(x);
      KsegsAgree(x);
    case K1ToK0 =>
      KernelK1ToK0(x);
      KsegsAgree(x);
    case PhysToK0 | PhysToK1 => FromPhys(hdr, x);
    case K0ToPhys | K1ToPhys =>
  }

  lemma KernelK0ToK1(x: bv32)
    requires In(Compat, Kseg0, x)
    ensures Convert(Kernel, K0ToK1, x) == At(Kseg1, PhysOf(x))
  {}

  lemma KernelK1ToK0(x: bv32)
    requires In(Compat, Kseg1, x)
    ensures Convert(Kernel, K1ToK0, x) == At(Kseg0, PhysOf(x))
  {}

  lemma KsegsAgree(x: bv32)
    ensures In(Compat, Kseg0, x) ==> Convert(Kernel, K0ToK1, x) == Convert(Compat, K0ToK1, x)
    ensures In(Compat, Kseg1, x) ==> Convert(Kernel, K1ToK0, x) == Convert(Compat, K1ToK0, x)
  {}

  lemma FromPhys(hdr: Header, x: bv32)
    requires In(Compat, Phys, x)
    ensures Convert(hdr, PhysToK0, x) == At(Kseg0, PhysOf(x)) && Convert(hdr, PhysToK1, x) == At(Kseg1, PhysOf(x))
  {}

  // Converting and converting back is the identity on the segment the conversion
  // is from, and nowhere else; except that the mask-based kseg0 and kseg1 pair
  // only looks at bit 29.
  lemma BackAgain(hdr: Header, c: Conversion, x: bv32)
    ensures Convert(hdr, Back(c), Convert(hdr, c, x)) == x <==>
            if hdr == Compat && c == K0ToK1 then x & 0x20000000 == 0
            else if hdr == Compat && c == K1ToK0 then x & 0x20000000 != 0
            else In(hdr, From(c), x)
  {
    match c
    case K0ToK1 | K1ToK0 => if hdr == Kernel { KernelBetween(x); } else { CompatBetween(x); }
    case K0ToPhys | K1ToPhys => ToPhysAndBack(hdr, x);
    case PhysToK0 | PhysToK1 => FromPhysAndBack(hdr, x);
  }

  lemma KernelBetween(x: bv32)
    ensures Convert(Kernel, K1ToK0, Convert(Kernel, K0ToK1, x)) == x <==> In(Kernel, Kseg0, x)
    ensures Convert(Kernel, K0ToK1, Convert(Kernel, K1ToK0, x)) == x <==> In(Kernel, Kseg1, x)
  {}

  lemma CompatBetween(x: bv32)
    ensures Convert(Compat, K1ToK0, Convert(Compat, K0ToK1, x)) == x <==> x & 0x20000000 == 0
    ensures Convert(Compat, K0ToK1, Convert(Compat, K1ToK0, x)) == x <==> x & 0x20000000 != 0
  {}

  lemma ToPhysAndBack(hdr: Header, x: bv32)
    ensures Convert(hdr, PhysToK0, Convert(hdr, K0ToPhys, x)) == x <==> In(hdr, Kseg0, x)
    ensures Convert(hdr, PhysToK1, Convert(hdr, K1ToPhys, x)) == x <==> In(hdr, Kseg1, x)
  {}

  lemma FromPhysAndBack(hdr: Header, x: bv32)
    ensures Convert(hdr, K0ToPhys, Convert(hdr, PhysToK0, x)) == x <==> In(hdr, Phys, x)
    ensures Convert(hdr, K1ToPhys, Convert(hdr, PhysToK1, x)) == x <==> In(hdr, Phys, x)
  {}

  // ---- chains of conversions ----

  // A conversion by the macros of either header.
  datatype Step = Step(hdr: Header, c: Conversion)

  // Does each conversion start in the segment where the one before it ended?
  predicate Chained(start: Segment, steps: seq<Step>)
    decreases |steps|
  {
    steps == [] || (From(steps[0].c) == start && Chained(To(steps[0].c), steps[1..]))
  }

  function End(start: Segment, steps: seq<Step>): Segment
    decreases |steps|
  {
    if steps == [] then start else End(To(steps[0].c), steps[1..])
  }

  function RunChain(steps: seq<Step>, x: bv32): bv32 {
    if steps == [] then x else RunChain(steps[1..], Convert(steps[0].hdr, steps[0].c, x))
  }

  // However conversions are chained, and whichever header each one comes from,
  // the result is the address in the segment the chain ends in that stands for
  // the physical address it started from ...
  lemma {:induction false} ChainLands(start: Segment, steps: seq<Step>, x: bv32)
    requires Chained(start, steps) && In(Compat, start, x)
    ensures RunChain(steps, x) == At(End(start, steps), PhysOf(x))
    decreases |steps|
  {
    if steps == [] {
      InMeansAt(start, x);
    } else {
      var c := steps[0].c;
      var y := Convert(steps[0].hdr, c, x);
      Lands(steps[0].hdr, c, x);
      PhysOfAt(To(c), x);
      InMeansAt(To(c), y);
      ChainLands(To(c), steps[1..], y);
    }
  }

  // ... so two chains between the same segments give the same address, and one
  // that comes back to its segment comes back to its address.
  lemma ChainsAgree(start: Segment, steps: seq<Step>, steps': seq<Step>, x: bv32)
    requires Chained(start, steps) && Chained(start, steps') && In(Compat, start, x)
    requires End(start, steps) == End(start, steps')
    ensures RunChain(steps, x) == RunChain(steps', x)
    ensures End(start, steps) == start ==> RunChain(steps, x) == x
  {
    ChainLands(start, steps, x);
    ChainLands(start, steps', x);
    InMeansAt(start, x);
  }
}
