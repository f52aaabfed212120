/**
  The memory library: cached memory map, range and page queries, page navigation
  and physical memory access.
 */
module NexusMemLib {
  import opened Words
  import opened MemoryMap
  import opened PhysicalMemory
  import opened AccessPolicy
  import opened DescriptorBuffer

  // ------------------------------------------------------ why the loops suffice

  /** What the "next" loop knows after its first `n` descriptors. */
  ghost predicate NextScan(ds: seq<Descriptor>, n: nat, p: nat, next: nat, best: u64)
    requires p > 0 && n <= |ds|
  {
    && (best != MAX_UINT64 ==> next <= best && ValidPage(ds, p, best))
    && forall j :: 0 <= j < n && Usable(ds[j]) ==>
         var c := FirstCandidate(ds[j].start, p);
         next <= c && Covers(ds[j], c, p) ==> best <= c
  }

  /** The candidate of one descriptor, if it is a page at or above `next` and below `best`. */
  function Improve(d: Descriptor, p: nat, next: nat, best: u64): u64
    requires p > 0
  {
    var c := FirstCandidate(d.start, p);
    if Usable(d) && next <= c && Covers(d, c, p) && c < best then c else best
  }

  lemma NextScanStep(ds: seq<Descriptor>, n: nat, p: nat, next: nat, best: u64)
    requires p > 0 && n < |ds| && NextScan(ds, n, p, next, best)
    ensures NextScan(ds, n + 1, p, next, Improve(ds[n], p, next, best))
  {
    FirstCandidateIsLeast(ds[n].start, p);
  }

  lemma NextScanComplete(ds: seq<Descriptor>, p: nat, cur: nat, best: u64)
    requires p > 0 && cur % p == 0 && cur + p <= MAX_UINT64
    requires !PageOk(ds, cur + p, p) && NextScan(ds, |ds|, p, cur + p, best)
    ensures IsSuccessor(ds, p, cur, if best == MAX_UINT64 then cur else best)
  {
    var next := cur + p;
    MultipleStep(cur, p);
    forall x | cur < x && ValidPage(ds, p, x)
      ensures best <= x && best != MAX_UINT64
    {
      var j :| 0 <= j < |ds| && Usable(ds[j]) && Covers(ds[j], x, p);
      MultipleGap(cur, x, p);
      FirstCandidateSuffices(ds, j, p, next, x);
    }
  }

  /** What the "previous" loop knows after its first `n` descriptors. */
  ghost predicate PrevScan(ds: seq<Descriptor>, n: nat, p: nat, prev: nat, best: u64, found: bool)
    requires p > 0 && n <= |ds|
  {
    && (found ==> best <= prev && ValidPage(ds, p, best))
    && forall j :: 0 <= j < n && Usable(ds[j]) && p <= End(ds[j]) ==>
         var c := Floor(End(ds[j]) - p, p);
         c <= prev && Covers(ds[j], c, p) ==> found && c <= best
  }

  /** The descriptor's last page, clipped at `prev`; meaningful when the descriptor reaches a page at or below it. */
  function ClippedLast(d: Descriptor, p: nat, prev: nat): nat
    requires 0 < p <= End(d)
  {
    var c := Floor(End(d) - p, p);
    if prev < c then prev else c
  }

  predicate Offers(d: Descriptor, p: nat, prev: nat)
    requires p > 0
  {
    Usable(d) && p <= End(d) && FirstCandidate(d.start, p) <= ClippedLast(d, p, prev)
  }

  predicate Better(d: Descriptor, p: nat, prev: nat, best: u64, found: bool)
    requires p > 0
  {
    Offers(d, p, prev) && (!found || ClippedLast(d, p, prev) > best)
  }

  lemma PrevScanStep(ds: seq<Descriptor>, n: nat, p: nat, prev: nat, best: u64, found: bool)
    requires p > 0 && n < |ds| && prev % p == 0 && PrevScan(ds, n, p, prev, best, found)
    ensures var better := Better(ds[n], p, prev, best, found);
            PrevScan(ds, n + 1, p, prev, if better then ClippedLast(ds[n], p, prev) else best, found || better)
  {
    FirstCandidateIsLeast(ds[n].start, p);
    if p <= End(ds[n]) {
      LastCandidateIsGreatest(End(ds[n]), p);
    }
  }

  lemma PrevScanComplete(ds: seq<Descriptor>, p: nat, cur: nat, best: u64, found: bool)
    requires 0 < p <= cur && cur % p == 0
    requires !PageOk(ds, cur - p, p) && PrevScan(ds, |ds|, p, cur - p, best, found)
    ensures IsPredecessor(ds, p, cur, if found then best else cur)
  {
    var prev := cur - p;
    MultipleStep(cur, p);
    forall x | 0 <= x < cur && ValidPage(ds, p, x)
      ensures found && x <= best
    {
      var j :| 0 <= j < |ds| && Usable(ds[j]) && Covers(ds[j], x, p);
      MultipleGap(x, cur, p);
      LastCandidateSuffices(ds, j, p, prev, x);
    }
  }

  /** Align an address down to a power-of-two boundary; every `& ~(alignment - 1)` of the program. */
  method AlignDown(address: u64, alignment: u64) returns (r: u64)
    requires IsPow2(alignment)
    ensures alignment > 0 && r == Floor(address, alignment)
    ensures r % alignment == 0 && r <= address < r + alignment
  {
    MaskDownIsFloor(address, alignment);
    FloorBounds(address, alignment);
    r := And(address, Not(alignment - 1));
  }

  /** Natural alignment of an access. */
  method IsAligned(address: u64, width: u64) returns (r: bool)
    requires SupportedWidth(width)
    ensures r == (address % width == 0)
  {
    WidthIsPow2(width);
    MaskIsRemainder(address, width);
    r := And(address, width - 1) == 0;
  }

  class MemLib {
    var gMemMap: array?<byte>
    var gMemMapSize: nat
    var gDescSize: nat
    var gMemoryAttributeProtocol: Protocol
    /** The protocol a lookup in the firmware finds. */
    const platform: Protocol
    /** Physical memory. */
    const ram: array<byte>

    ghost predicate Valid()
      reads this, gMemMap
    {
      && ram.Length == TWO64
      && gMemMap != ram
      && (gMemMap != null && gDescSize != 0 ==> EntriesReadable(gMemMap.Length, gMemMapSize, gDescSize))
    }

    predicate Loaded()
      reads this
    {
      gMemMap != null && gDescSize != 0
    }

    /** The cached map. */
    ghost function Descriptors(): seq<Descriptor>
      requires Valid()
      reads this, gMemMap
    {
      if Loaded() then DecodeMap(gMemMap[..], gMemMapSize, gDescSize) else []
    }

    ghost function View(): Firmware
      requires Valid()
      reads this, gMemMap
    {
      Firmware(Descriptors(), gMemoryAttributeProtocol)
    }

    constructor (memory: array<byte>, platform: Protocol)
      requires memory.Length == TWO64
      ensures Valid() && ram == memory && this.platform == platform && gMemMap == null && View().protocol == platform
    {
      ram, this.platform := memory, platform;
      gMemMap := null;
      gMemMapSize, gDescSize := 0, 0;
      gMemoryAttributeProtocol := platform;
    }

    /** Stores what it is given; the map is usable when its entries lie inside the buffer. */
    method SetMemoryMap(map0: array?<byte>, mapSize: nat, descSize: nat)
      modifies this`gMemMap, this`gMemMapSize, this`gDescSize
      ensures gMemMap == map0 && gMemMapSize == mapSize && gDescSize == descSize
      ensures ram.Length == TWO64 && map0 != ram &&
              (map0 != null && descSize != 0 ==> EntriesReadable(map0.Length, mapSize, descSize)) ==>
                && Valid() && View().protocol == gMemoryAttributeProtocol
                && Descriptors() == (if map0 == null || descSize == 0 then [] else DecodeMap(map0[..], mapSize, descSize))
      ensures ram.Length == TWO64 && map0 != ram &&
              (map0 != null && descSize != 0 ==> DESCRIPTOR_SIZE <= descSize && mapSize <= map0.Length) ==>
                Valid()
    {
      gMemMap, gMemMapSize, gDescSize := map0, mapSize, descSize;
      if map0 != null && DESCRIPTOR_SIZE <= descSize && mapSize <= map0.Length {
        FullStrideIsReadable(map0.Length, mapSize, descSize);
      }
    }

    /** Without a protocol the lookup of the next query finds the platform's again. */
    method SetMemoryAttributeProtocol(protocol: Protocol)
      requires Valid()
      modifies this`gMemoryAttributeProtocol
      ensures Valid() && View() == Firmware(old(Descriptors()), if protocol.Some? then protocol else platform)
    {
      gMemoryAttributeProtocol := protocol;
      if protocol.None? {
        LocateMemoryAttributeProtocol();
      }
    }

    method LocateMemoryAttributeProtocol()
      requires Valid()
      modifies this`gMemoryAttributeProtocol
      ensures Valid() && View() == Firmware(old(Descriptors()), platform)
    {
      gMemoryAttributeProtocol := platform;
    }

    method DescriptorCount() returns (count: nat)
      requires Valid() && Loaded()
      ensures count == |Descriptors()|
    {
      count := gMemMapSize / gDescSize;
    }

    /** The descriptor at `gMemMap + index * gDescSize`. */
    method DescriptorAt(index: nat) returns (d: Descriptor)
      requires Valid() && Loaded() && index < |Descriptors()|
      ensures d == Descriptors()[index]
    {
      assert EntryOffset(index, gDescSize) == index * gDescSize;
      d := DecodeAt(gMemMap[..], index * gDescSize);
    }

    method FindDescriptorForRange(address: u64, length: u64) returns (found: Option<Descriptor>)
      requires Valid()
      ensures found == FindDescriptor(Descriptors(), address, length)
    {
      hide DecodeMap;
      hide EntriesReadable;
      if gMemMap == null || gDescSize == 0 || length == 0 || address > MAX_UINT64 - length {
        return None;
      }
      ghost var ds := Descriptors();
      var rangeEnd := address + length;
      var count := DescriptorCount();
      for index := 0 to count
        invariant FirstCover(ds, 0, address, length) == FirstCover(ds, index, address, length)
      {
        var desc := DescriptorAt(index);
        if desc.pages == 0 || desc.pages > MAX_UINT64 / PAGE_SHIFT_SIZE {
          continue;
        }
        var descriptorSize := Shl12(desc.pages);
        if desc.start > MAX_UINT64 - descriptorSize {
          continue;
        }
        var descriptorEnd := desc.start + descriptorSize;
        if address >= desc.start && rangeEnd <= descriptorEnd {
          return Some(desc);
        }
      }
      return None;
    }

    method IsToolRangeReadable(address: u64, length: u64) returns (r: bool)
      requires Valid()
      ensures r == ToolReadable(Descriptors(), address, length)
    {
      var desc := FindDescriptorForRange(address, length);
      r := desc.Some? && ReadableType(desc.value.memType);
    }

    method IsToolRangeWritable(address: u64, length: u64) returns (r: bool)
      requires Valid()
      ensures r == ToolWritable(Descriptors(), address, length)
    {
      var desc := FindDescriptorForRange(address, length);
      r := desc.Some? && WritableType(desc.value.memType);
    }

    method QueryMemoryAccess(baseAddress: u64, length: u64) returns (status: Status, info: Access)
      requires Valid()
      ensures info == QueryAccess(View(), baseAddress, length)
      ensures status == if BadRange(baseAddress, length) then InvalidParameter else Success
    {
      info := Access(InvalidParameter, 0, false, false, false, false);
      if length == 0 || baseAddress > MAX_UINT64 - length {
        info := info.(queryStatus := InvalidParameter);
        return info.queryStatus, info;
      }
      var desc := FindDescriptorForRange(baseAddress, length);
      info := info.(queryStatus := if desc.None? then NoMapping else NotFound);
      if desc.Some? {
        if gMemoryAttributeProtocol.Some? {
          match gMemoryAttributeProtocol.value(baseAddress, length)
          case Refused(error) =>
            info := info.(queryStatus := error, attributes := 0);
          case Reported(passing, attributes) =>
            info := info.(queryStatus := passing, attributes := attributes);
            AttributeTest(attributes);
            var toolReadAllowed := IsToolRangeReadable(baseAddress, length);
            var toolWriteAllowed := IsToolRangeWritable(baseAddress, length);
            info := info.(readAllowed := toolReadAllowed && And(info.attributes, EFI_MEMORY_RP) == 0);
            info := info.(writeAllowed := toolWriteAllowed && And(info.attributes, EFI_MEMORY_RO) == 0);
            info := info.(executeAllowed := And(info.attributes, EFI_MEMORY_XP) == 0);
            info := info.(accessKnown := true);
        }
      }
      status := Success;
    }

    method IsRangeValid(address: u64, size: u64) returns (r: bool)
      requires Valid()
      ensures r == CanRead(View(), address, size)
    {
      var status, info := QueryMemoryAccess(address, size);
      r := status == Success && info.accessKnown && info.readAllowed;
    }

    method IsRangeWritable(address: u64, size: u64) returns (r: bool)
      requires Valid()
      ensures r == CanWrite(View(), address, size)
    {
      var status, info := QueryMemoryAccess(address, size);
      r := status == Success && info.accessKnown && info.writeAllowed;
    }

    method IsPageValid(address: u64, pageSize: u64) returns (r: bool)
      requires Valid() && (pageSize == 0 || IsPow2(pageSize))
      ensures pageSize == 0 ==> !r
      ensures pageSize != 0 ==> r == PageOk(Descriptors(), Floor(address, pageSize), pageSize)
    {
      hide DecodeMap;
      hide EntriesReadable;
      if pageSize == 0 {
        return false;
      }
      var pageBase := AlignDown(address, pageSize);
      if pageBase > MAX_UINT64 - pageSize {
        return false;
      }
      var pageEnd := pageBase + pageSize;
      if gMemMap == null || gDescSize == 0 {
        return false;
      }
      ghost var ds := Descriptors();
      var count := DescriptorCount();
      for index := 0 to count
        invariant forall j :: 0 <= j < index ==> !(Usable(ds[j]) && Covers(ds[j], pageBase, pageSize))
      {
        var desc := DescriptorAt(index);
        if !BrowsableType(desc.memType) || desc.pages == 0 || desc.pages > MAX_UINT64 / PAGE_SHIFT_SIZE {
          continue;
        }
        var descriptorSize := Shl12(desc.pages);
        if desc.start > MAX_UINT64 - descriptorSize {
          continue;
        }
        var descriptorEnd := desc.start + descriptorSize;
        if pageBase >= desc.start && pageEnd <= descriptorEnd {
          assert Usable(ds[index]) && Covers(ds[index], pageBase, pageSize);
          return true;
        }
      }
      return false;
    }

    method GetFirstValidAddress() returns (r: u64)
      requires Valid()
      ensures r == FirstValid(Descriptors())
    {
      hide DecodeMap;
      hide EntriesReadable;
      var min: u64 := MAX_UINT64;
      if gMemMap == null || gDescSize == 0 {
        return 0;
      }
      ghost var ds := Descriptors();
      var count := DescriptorCount();
      for index := 0 to count
        invariant min == LeastStart(ds, index)
      {
        var desc := DescriptorAt(index);
        if BrowsableType(desc.memType) && desc.pages != 0 &&
           desc.pages <= MAX_UINT64 / PAGE_SHIFT_SIZE && desc.start <= MAX_UINT64 - Shl12(desc.pages) {
          if desc.start < min {
            min := desc.start;
          }
        }
      }
      r := if min == MAX_UINT64 then 0 else min;
    }

    /** One turn of the "next" loop: the page a descriptor contributes at or above `nextPage`. */
    static method CandidateFrom(desc: Descriptor, pageSize: u64, nextPage: u64) returns (page: Option<u64>)
      requires IsPow2(pageSize)
      ensures var c := FirstCandidate(desc.start, pageSize);
              page == if Usable(desc) && nextPage <= c && Covers(desc, c, pageSize) then Some(c) else None
    {
      if !BrowsableType(desc.memType) || desc.pages == 0 || desc.pages > MAX_UINT64 / PAGE_SHIFT_SIZE {
        return None;
      }
      var start := desc.start;
      var end := Shl12(desc.pages);
      if start > MAX_UINT64 - end {
        return None;
      }
      end := end + start;
      var candidate := AlignDown(start, pageSize);
      FirstCandidateIsLeast(start, pageSize);
      if candidate < start {
        if candidate > MAX_UINT64 - pageSize {
          return None;
        }
        candidate := candidate + pageSize;
      }
      if candidate >= nextPage && candidate <= end && pageSize <= end - candidate {
        return Some(candidate);
      }
      return None;
    }

    /** One turn of the "previous" loop: the page a descriptor contributes at or below `prevPage`. */
    static method CandidateUpTo(desc: Descriptor, pageSize: u64, prevPage: u64) returns (page: Option<u64>)
      requires IsPow2(pageSize)
      ensures page == if Offers(desc, pageSize, prevPage) then Some(ClippedLast(desc, pageSize, prevPage)) else None
    {
      if !BrowsableType(desc.memType) || desc.pages == 0 || desc.pages > MAX_UINT64 / PAGE_SHIFT_SIZE {
        return None;
      }
      var start := desc.start;
      var end := Shl12(desc.pages);
      if start > MAX_UINT64 - end {
        return None;
      }
      end := end + start;
      if end - start < pageSize {
        FirstCandidateIsLeast(start, pageSize);
        if pageSize <= end {
          LastCandidateIsGreatest(end, pageSize);
        }
        return None;
      }
      var firstPage := AlignDown(start, pageSize);
      if firstPage < start {
        if firstPage > MAX_UINT64 - pageSize {
          return None;
        }
        firstPage := firstPage + pageSize;
      }
      var lastPage := AlignDown(end - pageSize, pageSize);
      if firstPage > lastPage {
        return None;
      }
      if firstPage > prevPage {
        return None;
      }
      var candidate := if prevPage < lastPage then prevPage else lastPage;
      if candidate >= firstPage {
        return Some(candidate);
      }
      return None;
    }

    method GetNextValidPageAddress(address: u64, pageSize: u64) returns (r: u64)
      requires Valid() && (pageSize == 0 || IsPow2(pageSize))
      ensures pageSize == 0 || !Loaded() ==> r == address
      ensures pageSize != 0 && Loaded() ==>
                IsSuccessor(Descriptors(), pageSize, Floor(address, pageSize), r) &&
                r == NextPage(Descriptors(), pageSize, Floor(address, pageSize))
    {
      hide DecodeMap;
      hide EntriesReadable;
      if pageSize == 0 || gMemMap == null || gDescSize == 0 {
        return address;
      }
      ghost var ds := Descriptors();
      var currentPage := AlignDown(address, pageSize);
      NextPageIsSuccessor(ds, pageSize, currentPage);
      if currentPage > MAX_UINT64 - pageSize {
        return currentPage;
      }
      var nextPage := currentPage + pageSize;
      MultipleStep(currentPage, pageSize);
      FloorUnique(nextPage, pageSize, nextPage);
      var nextValid := IsPageValid(nextPage, pageSize);
      if nextValid {
        return nextPage;
      }
      var bestPage: u64 := MAX_UINT64;
      var count := DescriptorCount();
      for index := 0 to count
        invariant NextScan(ds, index, pageSize, nextPage, bestPage)
      {
        var desc := DescriptorAt(index);
        NextScanStep(ds, index, pageSize, nextPage, bestPage);
        var candidate := CandidateFrom(desc, pageSize, nextPage);
        if candidate.Some? && candidate.value < bestPage {
          bestPage := candidate.value;
        }
      }
      NextScanComplete(ds, pageSize, currentPage, bestPage);
      r := if bestPage == MAX_UINT64 then currentPage else bestPage;
    }

    method GetPreviousValidPageAddress(address: u64, pageSize: u64) returns (r: u64)
      requires Valid() && (pageSize == 0 || IsPow2(pageSize))
      ensures pageSize == 0 || !Loaded() ==> r == address
      ensures pageSize != 0 && Loaded() ==>
                IsPredecessor(Descriptors(), pageSize, Floor(address, pageSize), r) &&
                r == PrevPage(Descriptors(), pageSize, Floor(address, pageSize))
    {
      hide DecodeMap;
      hide EntriesReadable;
      if pageSize == 0 || gMemMap == null || gDescSize == 0 {
        return address;
      }
      ghost var ds := Descriptors();
      var currentPage := AlignDown(address, pageSize);
      PrevPageIsPredecessor(ds, pageSize, currentPage);
      assert currentPage % pageSize == 0;
      if currentPage < pageSize {
        return currentPage;
      }
      var prevPage := currentPage - pageSize;
      assert prevPage % pageSize == 0 && Floor(prevPage, pageSize) == prevPage by {
        MultipleStep(currentPage, pageSize);
        FloorUnique(prevPage, pageSize, prevPage);
      }
      var prevValid := IsPageValid(prevPage, pageSize);
      if prevValid {
        return prevPage;
      }
      var bestPage: u64 := 0;
      var found := false;
      var count := DescriptorCount();
      for index := 0 to count
        invariant PrevScan(ds, index, pageSize, prevPage, bestPage, found)
      {
        var desc := DescriptorAt(index);
        PrevScanStep(ds, index, pageSize, prevPage, bestPage, found);
        var candidate := CandidateUpTo(desc, pageSize, prevPage);
        if candidate.Some? && (!found || candidate.value > bestPage) {
          bestPage := candidate.value;
          found := true;
        }
      }
      PrevScanComplete(ds, pageSize, currentPage, bestPage, found);
      r := if found then bestPage else currentPage;
    }

    method MemRead(address: u64, width: u64) returns (status: Status, value: u64)
      requires Valid()
      ensures status == ReadStatus(View(), address, width)
      ensures value == ReadValue(View(), ram[..], address, width)
    {
      value := 0;
      if width != 1 && width != 2 && width != 4 && width != 8 {
        return InvalidParameter, value;
      }
      var readable := IsRangeValid(address, width);
      if !readable {
        return AccessDenied, value;
      }
      var aligned := IsAligned(address, width);
      if !aligned {
        return InvalidParameter, value;
      }
      LoadFitsWord(ram[..], address, width);
      value := Load(ram[..], address, width);
      status := Success;
    }

    method MemWrite(address: u64, width: u64, value: u64) returns (status: Status)
      requires Valid()
      modifies ram
      ensures Valid() && View() == old(View())
      ensures status == WriteStatus(View(), address, width)
      ensures ram[..] == AfterWrite(View(), old(ram[..]), address, width, value)
    {
      if width != 1 && width != 2 && width != 4 && width != 8 {
        return InvalidParameter;
      }
      var writable := IsRangeWritable(address, width);
      if !writable {
        return AccessDenied;
      }
      var aligned := IsAligned(address, width);
      if !aligned {
        return InvalidParameter;
      }
      StoreInPlace(ram, address, width, value);
      status := Success;
    }
  }
}
