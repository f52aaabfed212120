/**
  The address map of the PageMem core: a second implementation of range checks and
  page navigation, over platform-independent descriptors, with its own overflow
  handling and sentinels.
 */
module AddressMap {
  import opened Words
  import opened MemoryMap
  import opened NexusMemLib

  datatype NxType =
    | NxReserved
    | NxLoaderCode
    | NxLoaderData
    | NxBootServicesCode
    | NxBootServicesData
    | NxRuntimeServicesCode
    | NxRuntimeServicesData
    | NxConventional
    | NxAcpiReclaim
    | NxAcpiNvs
    | NxMmio
    | NxOther

  datatype NxDescriptor =
    NxDescriptor(nxType: NxType, start: u64, pages: u64, attribute: u64, uefiType: u32)

  predicate NxBrowsable(t: NxType) {
    !t.NxReserved? && !t.NxOther?
  }

  /** A UEFI type of the same browsability as a core type. */
  function RepresentativeType(t: NxType): (r: u32)
    ensures BrowsableType(r) <==> NxBrowsable(t)
  {
    if NxBrowsable(t) then EfiMemoryMappedIO else 0
  }

  /** The memory map a core map describes. */
  function Lift(c: NxDescriptor): Descriptor {
    Descriptor(RepresentativeType(c.nxType), c.start, c.pages, c.attribute)
  }

  function LiftMap(cs: seq<NxDescriptor>): (ds: seq<Descriptor>)
    ensures |ds| == |cs|
  {
    seq(|cs|, i requires 0 <= i < |cs| => Lift(cs[i]))
  }

  /** The end the core computes: empty and wrapped sizes collapse to the start. */
  predicate CoreCovers(c: NxDescriptor, address: int, end: int) {
    NxBrowsable(c.nxType) && c.start + Shl12(c.pages) <= MAX_UINT64 &&
    c.start <= address && end <= c.start + Shl12(c.pages)
  }

  predicate CoreRangeOk(cs: seq<NxDescriptor>, address: u64, size: u64) {
    size != 0 && address + size <= MAX_UINT64 &&
    exists i :: 0 <= i < |cs| && CoreCovers(cs[i], address, address + size)
  }

  /** The private page check: its page end wraps at the top of the address space. */
  predicate CorePageOk(cs: seq<NxDescriptor>, base: u64, size: u64) {
    exists i :: 0 <= i < |cs| && cs[i].pages != 0 && CoreCovers(cs[i], base, Wrap(base + size))
  }

  function FirstBrowsable(cs: seq<NxDescriptor>, i: nat): (k: nat)
    requires i <= |cs|
    ensures i <= k <= |cs|
    ensures k < |cs| ==> NxBrowsable(cs[k].nxType)
    ensures forall j :: i <= j < k ==> !NxBrowsable(cs[j].nxType)
    decreases |cs| - i
  {
    if i == |cs| || NxBrowsable(cs[i].nxType) then i else FirstBrowsable(cs, i + 1)
  }

  /** The start of the first browsable descriptor in map order, or 0. */
  function CoreFirstValid(cs: seq<NxDescriptor>): u64 {
    var k := FirstBrowsable(cs, 0);
    if k == |cs| then 0 else cs[k].start
  }

  // ----------------------------------------------- agreement with the memory map

  /** On maps whose page counts fit, the core's range check is the memory library's page check. */
  lemma RangeCheckAgrees(cs: seq<NxDescriptor>, address: u64, size: u64)
    requires PagesFit(LiftMap(cs)) && size > 0
    ensures CoreRangeOk(cs, address, size) <==> PageOk(LiftMap(cs), address, size)
  {
    var ds := LiftMap(cs);
    forall i | 0 <= i < |cs|
      ensures CoreCovers(cs[i], address, address + size) <==> Usable(ds[i]) && Covers(ds[i], address, size)
    {
      assert ds[i].pages * PAGE_SHIFT_SIZE < TWO64;
    }
  }

  /** With a page count that does not fit, the two checks part: the core's shifted size wraps to one frame. */
  lemma HugeCountSplitsTheChecks(address: u64)
    requires address + 256 <= PAGE_SHIFT_SIZE
    ensures var cs := [NxDescriptor(NxConventional, 0, 0x10_0000_0000_0001, 0, 7)];
            CoreRangeOk(cs, address, 256) && !PageOk(LiftMap(cs), address, 256)
  {
    var cs := [NxDescriptor(NxConventional, 0, 0x10_0000_0000_0001, 0, 7)];
    assert Shl12(cs[0].pages) == PAGE_SHIFT_SIZE;
    assert CoreCovers(cs[0], address, address + 256);
  }

  /** A browsable entry whose shifted page count loses bits and still passes the core's overflow test. */
  predicate ShiftWraps(c: NxDescriptor) {
    NxBrowsable(c.nxType) && c.pages >= 0x10_0000_0000_0000 &&
    Shl12(c.pages) != 0 && c.start + Shl12(c.pages) <= MAX_UINT64
  }

  /** Every range a wrapped count seems to offer lies in a usable descriptor anyway. */
  predicate WrapsAreHarmless(cs: seq<NxDescriptor>) {
    forall i :: 0 <= i < |cs| && ShiftWraps(cs[i]) ==> PageOk(LiftMap(cs), cs[i].start, Shl12(cs[i].pages))
  }

  ghost predicate RangeChecksAgree(cs: seq<NxDescriptor>) {
    forall address: u64, size: u64 :: size > 0 ==>
      (CoreRangeOk(cs, address, size) <==> PageOk(LiftMap(cs), address, size))
  }

  /** An entry that covers a range for the core is usable and covers it, or its shifted count wrapped. */
  lemma CoreCoverKinds(c: NxDescriptor, address: u64, end: int)
    requires address < end
    ensures CoreCovers(c, address, end) <==>
              end <= MAX_UINT64 &&
              if ShiftWraps(c) then c.start <= address && end <= c.start + Shl12(c.pages)
              else Usable(Lift(c)) && Covers(Lift(c), address, end - address)
  {
    if c.pages < 0x10_0000_0000_0000 {
      assert Shl12(c.pages) == c.pages * PAGE_SHIFT_SIZE;
    }
  }

  /** On any map the two checks accept the same ranges if and only if no wrapped count offers memory of its own. */
  lemma RangeChecksAgreeIff(cs: seq<NxDescriptor>)
    ensures RangeChecksAgree(cs) <==> WrapsAreHarmless(cs)
  {
    hide CoreCovers;
    hide Shl12;
    var ds := LiftMap(cs);
    if WrapsAreHarmless(cs) {
      forall address: u64, size: u64 | size > 0
        ensures CoreRangeOk(cs, address, size) <==> PageOk(ds, address, size)
      {
        HarmlessWrapsAgree(cs, address, size);
      }
    }
    if RangeChecksAgree(cs) {
      forall i | 0 <= i < |cs| && ShiftWraps(cs[i])
        ensures PageOk(ds, cs[i].start, Shl12(cs[i].pages))
      {
        CoreCoverKinds(cs[i], cs[i].start, cs[i].start + Shl12(cs[i].pages));
        assert CoreRangeOk(cs, cs[i].start, Shl12(cs[i].pages));
      }
    }
  }

  lemma HarmlessWrapsAgree(cs: seq<NxDescriptor>, address: u64, size: u64)
    requires WrapsAreHarmless(cs) && size > 0
    ensures CoreRangeOk(cs, address, size) <==> PageOk(LiftMap(cs), address, size)
  {
    hide CoreCovers;
    hide Shl12;
    var ds := LiftMap(cs);
    if CoreRangeOk(cs, address, size) {
      var i :| 0 <= i < |cs| && CoreCovers(cs[i], address, address + size);
      CoreCoverKinds(cs[i], address, address + size);
      if ShiftWraps(cs[i]) {
        var j :| 0 <= j < |ds| && Usable(ds[j]) && Covers(ds[j], cs[i].start, Shl12(cs[i].pages));
        assert Covers(ds[j], address, size);
      } else {
        assert Usable(ds[i]) && Covers(ds[i], address, size);
      }
    }
    if PageOk(ds, address, size) {
      var i :| 0 <= i < |ds| && Usable(ds[i]) && Covers(ds[i], address, size);
      CoreCoverKinds(cs[i], address, address + size);
      assert CoreCovers(cs[i], address, address + size);
    }
  }

  /** What the core makes of an entry: its shifted size has lost the high bits of the page count. */
  function Shifted(c: NxDescriptor): Descriptor {
    Lift(c).(pages := c.pages % 0x10_0000_0000_0000)
  }

  function ShiftedMap(cs: seq<NxDescriptor>): (ds: seq<Descriptor>)
    ensures |ds| == |cs|
  {
    seq(|cs|, i requires 0 <= i < |cs| => Shifted(cs[i]))
  }

  lemma ShiftedSize(c: NxDescriptor)
    ensures Shl12(c.pages) == Shifted(c).pages * PAGE_SHIFT_SIZE
    ensures c.pages < 0x10_0000_0000_0000 ==> Shifted(c) == Lift(c)
  {
    var q, r := c.pages / 0x10_0000_0000_0000, c.pages % 0x10_0000_0000_0000;
    assert c.pages * PAGE_SHIFT_SIZE == TWO64 * q + r * PAGE_SHIFT_SIZE;
    DivisionUnique(c.pages * PAGE_SHIFT_SIZE, TWO64, q, r * PAGE_SHIFT_SIZE);
  }

  /** On maps whose page counts fit, nothing is lost. */
  lemma ShiftedIsLifted(cs: seq<NxDescriptor>)
    requires PagesFit(LiftMap(cs))
    ensures ShiftedMap(cs) == LiftMap(cs)
  {
    forall i | 0 <= i < |cs|
      ensures ShiftedMap(cs)[i] == LiftMap(cs)[i]
    {
      assert LiftMap(cs)[i].pages == cs[i].pages;
      ShiftedSize(cs[i]);
    }
  }

  lemma CoreCoverIsShifted(c: NxDescriptor, address: u64, size: u64)
    requires size > 0 && address + size <= MAX_UINT64
    ensures CoreCovers(c, address, address + size) <==> Usable(Shifted(c)) && Covers(Shifted(c), address, size)
    ensures CoreCovers(c, address, address + size) ==> c.pages != 0
  {
    ShiftedSize(c);
    hide Shl12;
  }

  /** On any map both of the core's checks accept exactly the ranges inside a usable entry of the shifted map. */
  lemma ChecksAreShifted(cs: seq<NxDescriptor>, address: u64, size: u64)
    requires size > 0
    ensures CoreRangeOk(cs, address, size) <==> PageOk(ShiftedMap(cs), address, size)
    ensures address + size <= MAX_UINT64 ==> (CorePageOk(cs, address, size) <==> PageOk(ShiftedMap(cs), address, size))
  {
    hide CoreCovers;
    hide Usable;
    var ds := ShiftedMap(cs);
    if address + size <= MAX_UINT64 {
      forall i | 0 <= i < |cs|
        ensures CoreCovers(cs[i], address, address + size) <==> Usable(ds[i]) && Covers(ds[i], address, size)
        ensures CoreCovers(cs[i], address, address + size) ==> cs[i].pages != 0
      {
        CoreCoverIsShifted(cs[i], address, size);
      }
    } else {
      BeyondTheEnd(ds, address, size);
    }
  }

  lemma BeyondTheEnd(ds: seq<Descriptor>, address: int, size: int)
    requires address + size > MAX_UINT64
    ensures !PageOk(ds, address, size)
  {
  }

  /** Below the topmost page the private page check is exact; at the topmost page it accepts too much. */
  lemma PageCheckAgrees(cs: seq<NxDescriptor>, base: u64, size: u64)
    requires PagesFit(LiftMap(cs)) && 0 < size <= PAGE_SHIFT_SIZE && base + size <= TWO64
    ensures base + size < TWO64 ==> (CorePageOk(cs, base, size) <==> PageOk(LiftMap(cs), base, size))
    ensures base + size == TWO64 ==> (CorePageOk(cs, base, size) <==> HasUsable(LiftMap(cs)))
  {
    var ds := LiftMap(cs);
    forall i | 0 <= i < |cs|
      ensures base + size < TWO64 ==>
                (cs[i].pages != 0 && CoreCovers(cs[i], base, Wrap(base + size)) <==>
                 Usable(ds[i]) && Covers(ds[i], base, size))
      ensures base + size == TWO64 ==>
                (cs[i].pages != 0 && CoreCovers(cs[i], base, Wrap(base + size)) <==> Usable(ds[i]))
    {
      assert ds[i].pages * PAGE_SHIFT_SIZE < TWO64;
    }
  }

  /** What the core's "next page" answers: the successor, except just below the topmost page. */
  function CoreNext(ds: seq<Descriptor>, p: nat, cur: nat): nat
    requires p > 0
  {
    if cur + 2 * p == TWO64 && HasUsable(ds) then cur + p else NextPage(ds, p, cur)
  }

  /** The exact extent of the deviation: the page just below the topmost one, in a map with a usable descriptor. */
  lemma CoreNextIsSuccessorUnlessTop(ds: seq<Descriptor>, p: nat, cur: nat)
    requires p > 0 && cur % p == 0
    ensures IsSuccessor(ds, p, cur, CoreNext(ds, p, cur)) <==> !(cur + 2 * p == TWO64 && HasUsable(ds))
  {
    NextPageIsSuccessor(ds, p, cur);
    if cur + 2 * p == TWO64 {
      assert !ValidPage(ds, p, cur + p);
    }
  }

  // ------------------------------------------------- the loops, on any map at all

  /** `(address + (p - 1)) & ~(p - 1)`, with its wrap-around. */
  function AlignedUp(address: u64, p: u64): u64
    requires p > 0
  {
    FloorBounds(Wrap(address + (p - 1)), p);
    Floor(Wrap(address + (p - 1)), p)
  }

  /** The end the navigation loops compute, with no check against overflow. */
  function LoopEnd(c: NxDescriptor): u64 {
    Wrap(c.start + Shl12(c.pages))
  }

  /** The page one descriptor contributes to the "next" loop; its end and its pages may wrap. */
  function NextCandidate(c: NxDescriptor, p: u64, next: u64, cur: u64): Option<u64>
    requires p > 0
  {
    var end, first := LoopEnd(c), AlignedUp(c.start, p);
    if !NxBrowsable(c.nxType) || c.pages == 0 || end < p || Wrap(first + p) > end then None
    else if next <= first then
      if first > cur then Some(first) else None
    else if next < end && Wrap(AlignedUp(next, p) + p) <= end && AlignedUp(next, p) > cur then Some(AlignedUp(next, p))
    else None
  }

  /** The lowest page contributed, where the current page stands for none. */
  function BestNext(cs: seq<NxDescriptor>, p: u64, next: u64, cur: u64): u64
    requires p > 0
  {
    if cs == [] then cur
    else
      var best := BestNext(cs[..|cs| - 1], p, next, cur);
      var candidate := NextCandidate(cs[|cs| - 1], p, next, cur);
      if candidate.Some? && (best == cur || candidate.value < best) then candidate.value else best
  }

  /** The answer of "next page" from a page boundary. */
  function NextFrom(cs: seq<NxDescriptor>, p: u64, cur: u64): u64
    requires p > 0
  {
    if cur > MAX_UINT64 - p then cur
    else
      FloorBounds(cur + p, p);
      if CorePageOk(cs, Floor(cur + p, p), p) then cur + p else BestNext(cs, p, cur + p, cur)
  }

  /** What the core's "next page" answers on any map. */
  function LoopNext(cs: seq<NxDescriptor>, p: u64, address: u64): u64
    requires p > 0
  {
    FloorBounds(address, p);
    NextFrom(cs, p, Floor(address, p))
  }

  /** The highest page below `cur` among the pages `first`, ..., `last`. */
  function HighestBelow(first: u64, last: u64, p: u64, cur: u64): Option<u64> {
    if last < first || cur <= first then None
    else if cur > last then Some(last)
    else if cur - p >= first then Some(cur - p)
    else None
  }

  /** The page one descriptor contributes to the "previous" loop. */
  function PrevCandidate(c: NxDescriptor, p: u64, cur: u64): Option<u64>
    requires p > 0
  {
    var end, first := LoopEnd(c), AlignedUp(c.start, p);
    if !NxBrowsable(c.nxType) || c.pages == 0 || end < p || Wrap(first + p) > end then None
    else
      FloorBounds(end - p, p);
      HighestBelow(first, Floor(end - p, p), p, cur)
  }

  /** The highest page contributed, where 0 stands for none. */
  function BestPrev(cs: seq<NxDescriptor>, p: u64, cur: u64): u64
    requires p > 0
  {
    if cs == [] then 0
    else
      var best := BestPrev(cs[..|cs| - 1], p, cur);
      var candidate := PrevCandidate(cs[|cs| - 1], p, cur);
      if candidate.Some? && best < candidate.value < cur then candidate.value else best
  }

  /** The answer of "previous page" from a page boundary. */
  function PrevFrom(cs: seq<NxDescriptor>, p: u64, cur: u64): u64
    requires p > 0
  {
    if cur < p then cur
    else
      FloorBounds(cur - p, p);
      if CorePageOk(cs, Floor(cur - p, p), p) then cur - p
      else if BestPrev(cs, p, cur) != 0 then BestPrev(cs, p, cur)
      else cur
  }

  /** What the core's "previous page" answers on any map. */
  function LoopPrev(cs: seq<NxDescriptor>, p: u64, address: u64): u64
    requires p > 0
  {
    FloorBounds(address, p);
    if address == 0 then 0 else PrevFrom(cs, p, Floor(address, p))
  }

  lemma AlignedUpIsAligned(address: u64, p: u64)
    requires p > 0
    ensures AlignedUp(address, p) % p == 0
    ensures address % p == 0 && address + (p - 1) < TWO64 ==> AlignedUp(address, p) == address
  {
    FloorBounds(Wrap(address + (p - 1)), p);
    if address % p == 0 && address + (p - 1) < TWO64 {
      FloorUnique(address + (p - 1), p, address);
    }
  }

  lemma NextCandidateIsAligned(c: NxDescriptor, p: u64, next: u64, cur: u64)
    requires p > 0
    ensures var n := NextCandidate(c, p, next, cur); n.Some? ==> n.value % p == 0 && cur < n.value
  {
    AlignedUpIsAligned(c.start, p);
    AlignedUpIsAligned(next, p);
    hide AlignedUp;
    hide Wrap;
    hide LoopEnd;
  }

  lemma PrevCandidateIsAligned(c: NxDescriptor, p: u64, cur: u64)
    requires p > 0 && cur % p == 0 && p <= cur
    ensures var b := PrevCandidate(c, p, cur); b.Some? ==> b.value % p == 0
  {
    var end := LoopEnd(c);
    hide LoopEnd;
    if p <= end {
      FloorBounds(end - p, p);
      assert Floor(end - p, p) % p == 0;
    }
    MultipleStep(cur, p);
    hide AlignedUp;
    hide Floor;
    hide Wrap;
  }

  lemma {:induction false} BestNextIsAligned(cs: seq<NxDescriptor>, p: u64, next: u64, cur: u64)
    requires p > 0 && cur % p == 0
    ensures BestNext(cs, p, next, cur) % p == 0 && cur <= BestNext(cs, p, next, cur)
  {
    hide NextCandidate;
    if cs != [] {
      BestNextIsAligned(cs[..|cs| - 1], p, next, cur);
      NextCandidateIsAligned(cs[|cs| - 1], p, next, cur);
    }
  }

  lemma {:induction false} BestPrevIsAligned(cs: seq<NxDescriptor>, p: u64, cur: u64)
    requires p > 0 && cur % p == 0 && p <= cur
    ensures BestPrev(cs, p, cur) % p == 0 && BestPrev(cs, p, cur) < cur
  {
    hide PrevCandidate;
    if cs == [] {
      SmallMod(0, p);
    } else {
      BestPrevIsAligned(cs[..|cs| - 1], p, cur);
      PrevCandidateIsAligned(cs[|cs| - 1], p, cur);
    }
  }

  lemma BestNextStep(cs: seq<NxDescriptor>, n: nat, p: u64, next: u64, cur: u64)
    requires p > 0 && n < |cs|
    ensures var best, candidate := BestNext(cs[..n], p, next, cur), NextCandidate(cs[n], p, next, cur);
            BestNext(cs[..n + 1], p, next, cur) ==
              if candidate.Some? && (best == cur || candidate.value < best) then candidate.value else best
  {
    hide NextCandidate;
    assert cs[..n + 1][..n] == cs[..n];
  }

  lemma BestPrevStep(cs: seq<NxDescriptor>, n: nat, p: u64, cur: u64)
    requires p > 0 && n < |cs|
    ensures var best, candidate := BestPrev(cs[..n], p, cur), PrevCandidate(cs[n], p, cur);
            BestPrev(cs[..n + 1], p, cur) ==
              if candidate.Some? && best < candidate.value < cur then candidate.value else best
  {
    hide PrevCandidate;
    assert cs[..n + 1][..n] == cs[..n];
  }

  lemma StepsAreAligned(cs: seq<NxDescriptor>, p: u64, cur: u64)
    requires p > 0 && cur % p == 0
    ensures NextFrom(cs, p, cur) % p == 0 && cur <= NextFrom(cs, p, cur)
    ensures PrevFrom(cs, p, cur) % p == 0 && PrevFrom(cs, p, cur) <= cur
  {
    hide BestNext;
    hide BestPrev;
    hide CorePageOk;
    hide Floor;
    MultipleStep(cur, p);
    if cur <= MAX_UINT64 - p {
      BestNextIsAligned(cs, p, cur + p, cur);
    }
    if p <= cur {
      BestPrevIsAligned(cs, p, cur);
    }
  }

  /** On any map, overflowing and unaligned entries included, the loops answer a page boundary on the right side. */
  lemma NavigationIsAligned(cs: seq<NxDescriptor>, p: u64, address: u64)
    requires p > 0
    ensures LoopNext(cs, p, address) % p == 0 && Floor(address, p) <= LoopNext(cs, p, address)
    ensures LoopPrev(cs, p, address) % p == 0 && LoopPrev(cs, p, address) <= Floor(address, p)
  {
    hide NextFrom;
    hide PrevFrom;
    FloorBounds(address, p);
    SmallMod(0, p);
    StepsAreAligned(cs, p, Floor(address, p));
  }

  method AlignUp(address: u64, alignment: u64) returns (r: u64)
    requires alignment == 0 || IsPow2(alignment)
    ensures r == if alignment == 0 then address else AlignedUp(address, alignment)
  {
    if alignment == 0 {
      return address;
    }
    r := AlignDown(Wrap(address + (alignment - 1)), alignment);
  }

  class AddressMap {
    var descriptors: array?<NxDescriptor>
    var descriptorCount: nat

    ghost predicate Valid()
      reads this
    {
      descriptors != null ==> descriptorCount <= descriptors.Length
    }

    ghost function Entries(): seq<NxDescriptor>
      requires Valid()
      reads this, descriptors
    {
      if descriptors == null then [] else descriptors[..descriptorCount]
    }

    constructor ()
      ensures Valid() && descriptors == null
    {
      descriptors, descriptorCount := null, 0;
    }

    method Init(source: array?<NxDescriptor>, count: nat) returns (ok: bool)
      requires Valid() && (source != null ==> count <= source.Length)
      modifies this
      ensures Valid()
      ensures ok == (source != null && count != 0)
      ensures ok ==> descriptors == source && descriptorCount == count && Entries() == source[..count]
      ensures !ok ==> unchanged(this)
    {
      if source == null || count == 0 {
        return false;
      }
      descriptors := source;
      descriptorCount := count;
      ok := true;
    }

    method IsRangeValid(address: u64, size: u64) returns (r: bool)
      requires Valid()
      ensures r == CoreRangeOk(Entries(), address, size)
    {
      if descriptors == null || size == 0 {
        return false;
      }
      if address > MAX_UINT64 - size {
        return false;
      }
      var rangeEnd := address + size;
      for index := 0 to descriptorCount
        invariant forall j :: 0 <= j < index ==> !CoreCovers(descriptors[j], address, rangeEnd)
      {
        var desc := descriptors[index];
        if !NxBrowsable(desc.nxType) {
          continue;
        }
        var descStart := desc.start;
        var descEnd: u64;
        if desc.pages > 0 {
          var descriptorSize := Shl12(desc.pages);
          if descriptorSize > 0 && desc.start > MAX_UINT64 - descriptorSize {
            continue;
          }
          descEnd := Wrap(desc.start + descriptorSize);
        } else {
          descEnd := desc.start;
        }
        if address >= descStart && rangeEnd <= descEnd {
          assert CoreCovers(Entries()[index], address, rangeEnd);
          return true;
        }
      }
      return false;
    }

    method IsAddressValid(address: u64) returns (r: bool)
      requires Valid()
      ensures r == CoreRangeOk(Entries(), address, 1)
    {
      if descriptors == null {
        return false;
      }
      for index := 0 to descriptorCount
        invariant forall j :: 0 <= j < index ==> !CoreCovers(descriptors[j], address, address + 1)
      {
        var desc := descriptors[index];
        if !NxBrowsable(desc.nxType) {
          continue;
        }
        var descEnd: u64;
        if desc.pages > 0 {
          var descriptorSize := Shl12(desc.pages);
          if descriptorSize > 0 && desc.start > MAX_UINT64 - descriptorSize {
            continue;
          }
          descEnd := Wrap(desc.start + descriptorSize);
        } else {
          descEnd := desc.start;
        }
        if address >= desc.start && address < descEnd {
          assert CoreCovers(Entries()[index], address, address + 1);
          return true;
        }
      }
      return false;
    }

    method GetFirstValidAddress() returns (r: u64)
      requires Valid()
      ensures r == CoreFirstValid(Entries())
    {
      if descriptors == null {
        return 0;
      }
      for index := 0 to descriptorCount
        invariant FirstBrowsable(Entries(), 0) == FirstBrowsable(Entries(), index)
      {
        var desc := descriptors[index];
        if NxBrowsable(desc.nxType) {
          return desc.start;
        }
      }
      return 0;
    }

    method IsPageValid(address: u64, pageSize: u64) returns (r: bool)
      requires Valid() && (pageSize == 0 || IsPow2(pageSize))
      ensures pageSize == 0 ==> !r
      ensures pageSize != 0 ==> r == CorePageOk(Entries(), Floor(address, pageSize), pageSize)
    {
      if descriptors == null || pageSize == 0 {
        return false;
      }
      var pageBase := AlignDown(address, pageSize);
      var pageEnd := Wrap(pageBase + pageSize);
      for index := 0 to descriptorCount
        invariant forall j :: 0 <= j < index ==>
          !(descriptors[j].pages != 0 && CoreCovers(descriptors[j], pageBase, pageEnd))
      {
        var desc := descriptors[index];
        if !NxBrowsable(desc.nxType) || desc.pages == 0 {
          continue;
        }
        var descriptorSize := Shl12(desc.pages);
        if descriptorSize > 0 && desc.start > MAX_UINT64 - descriptorSize {
          continue;
        }
        var descEnd := Wrap(desc.start + descriptorSize);
        if pageBase >= desc.start && pageEnd <= descEnd {
          assert CoreCovers(Entries()[index], pageBase, pageEnd);
          return true;
        }
      }
      return false;
    }

    /** `PhysicalStart + (NumberOfPages << 12)`, as the loops compute it. */
    static method UncheckedSum(desc: NxDescriptor) returns (end: u64)
      ensures end == LoopEnd(desc)
    {
      end := Wrap(desc.start + Shl12(desc.pages));
    }

    /** One turn of the "next" loop. */
    static method CandidateFrom(desc: NxDescriptor, pageSize: u64, nextPage: u64, currentPage: u64)
      returns (page: Option<u64>)
      requires IsPow2(pageSize)
      ensures pageSize > 0 && page == NextCandidate(desc, pageSize, nextPage, currentPage)
    {
      IsPow2Positive(pageSize);
      hide IsPow2;
      hide AlignedUp;
      hide Floor;
      hide MaskDown;
      hide LoopEnd;
      hide Shl12;
      hide NxBrowsable;
      hide HighestBelow;
      hide Wrap;
      if !NxBrowsable(desc.nxType) || desc.pages == 0 {
        return None;
      }
      var descStart := desc.start;
      var descEnd := UncheckedSum(desc);
      var firstPage := AlignUp(descStart, pageSize);
      if descEnd < pageSize || Wrap(firstPage + pageSize) > descEnd {
        return None;
      }
      var candidate;
      if nextPage <= firstPage {
        candidate := firstPage;
      } else if nextPage < descEnd {
        candidate := AlignUp(nextPage, pageSize);
        if Wrap(candidate + pageSize) > descEnd {
          return None;
        }
      } else {
        return None;
      }
      page := if candidate > currentPage then Some(candidate) else None;
    }

    method GetNextValidPageAddress(address: u64, pageSize: u64) returns (r: u64)
      requires Valid() && (pageSize == 0 || IsPow2(pageSize))
      ensures pageSize == 0 || descriptors == null ==> r == address
      ensures pageSize != 0 && descriptors != null ==> r == LoopNext(Entries(), pageSize, address)
    {
      if descriptors == null || pageSize == 0 {
        return address;
      }
      hide NextCandidate;
      hide Floor;
      hide IsPow2;
      hide CorePageOk;
      hide MaskDown;
      MaskDownIsFloor(address, pageSize);
      var currentPage := MaskDown(address, pageSize);
      if currentPage > MAX_UINT64 - pageSize {
        return currentPage;
      }
      var nextPage := currentPage + pageSize;
      var nextValid := IsPageValid(nextPage, pageSize);
      if nextValid {
        return nextPage;
      }
      ghost var cs := Entries();
      assert BestNext(cs[..0], pageSize, nextPage, currentPage) == currentPage;
      hide BestNext;
      var bestPage := currentPage;
      for index := 0 to descriptorCount
        invariant bestPage == BestNext(cs[..index], pageSize, nextPage, currentPage)
      {
        BestNextStep(cs, index, pageSize, nextPage, currentPage);
        var desc := descriptors[index];
        var candidate := CandidateFrom(desc, pageSize, nextPage, currentPage);
        if candidate.Some? && (bestPage == currentPage || candidate.value < bestPage) {
          bestPage := candidate.value;
        }
      }
      assert cs[..descriptorCount] == cs;
      r := bestPage;
    }

    /** The mask that rounds down, stated as the floor alone. */
    static method FloorOf(address: u64, alignment: u64) returns (r: u64)
      requires IsPow2(alignment)
      ensures alignment > 0 && r == Floor(address, alignment)
    {
      MaskDownIsFloor(address, alignment);
      r := MaskDown(address, alignment);
    }

    /** The choice that closes a turn of the "previous" loop. */
    static method PageBelow(firstPage: u64, lastPage: u64, pageSize: u64, currentPage: u64)
      returns (page: Option<u64>)
      requires pageSize <= currentPage
      ensures page == HighestBelow(firstPage, lastPage, pageSize, currentPage)
    {
      if lastPage < firstPage {
        return None;
      }
      if currentPage <= firstPage {
        return None;
      }
      var candidate: u64;
      if currentPage > lastPage {
        candidate := lastPage;
      } else {
        candidate := currentPage - pageSize;
        if candidate < firstPage {
          return None;
        }
      }
      page := Some(candidate);
    }

    /** One turn of the "previous" loop. */
    static method CandidateUpTo(desc: NxDescriptor, pageSize: u64, currentPage: u64)
      returns (page: Option<u64>)
      requires IsPow2(pageSize) && pageSize <= currentPage
      ensures pageSize > 0 && page == PrevCandidate(desc, pageSize, currentPage)
    {
      IsPow2Positive(pageSize);
      hide IsPow2;
      hide AlignedUp;
      hide Floor;
      hide MaskDown;
      hide LoopEnd;
      hide Wrap;
      if !NxBrowsable(desc.nxType) || desc.pages == 0 {
        return None;
      }
      var descStart := desc.start;
      var descEnd := UncheckedSum(desc);
      var firstPage := AlignUp(descStart, pageSize);
      if descEnd < pageSize || Wrap(firstPage + pageSize) > descEnd {
        return None;
      }
      var lastPage := FloorOf(descEnd - pageSize, pageSize);
      page := PageBelow(firstPage, lastPage, pageSize, currentPage);
    }

    method GetPreviousValidPageAddress(address: u64, pageSize: u64) returns (r: u64)
      requires Valid() && (pageSize == 0 || IsPow2(pageSize))
      ensures pageSize == 0 || descriptors == null ==> r == address
      ensures pageSize != 0 && descriptors != null ==> r == LoopPrev(Entries(), pageSize, address)
    {
      if descriptors == null || pageSize == 0 || address == 0 {
        return address;
      }
      hide PrevCandidate;
      hide Floor;
      hide IsPow2;
      hide CorePageOk;
      hide MaskDown;
      MaskDownIsFloor(address, pageSize);
      var currentPage := MaskDown(address, pageSize);
      if currentPage < pageSize {
        return currentPage;
      }
      var prevPage := currentPage - pageSize;
      var prevValid := IsPageValid(prevPage, pageSize);
      if prevValid {
        return prevPage;
      }
      ghost var cs := Entries();
      assert BestPrev(cs[..0], pageSize, currentPage) == 0;
      hide BestPrev;
      var bestPage: u64 := 0;
      for index := 0 to descriptorCount
        invariant bestPage == BestPrev(cs[..index], pageSize, currentPage)
      {
        BestPrevStep(cs, index, pageSize, currentPage);
        var desc := descriptors[index];
        var candidate := CandidateUpTo(desc, pageSize, currentPage);
        if candidate.Some? && candidate.value < currentPage && candidate.value > bestPage {
          bestPage := candidate.value;
        }
      }
      assert cs[..descriptorCount] == cs;
      r := if bestPage != 0 then bestPage else currentPage;
    }
  }
}
