/**
  The UEFI bridge and the memory adapter: two bounded copies of the memory map, and
  the lookups that run on them.
 */
module Adapters {
  import opened Words
  import opened MemoryMap
  import opened AccessPolicy
  import opened DescriptorBuffer
  import opened NexusMemLib
  import opened AddressMap

  /** Capacity of the bridge's and of the adapter's descriptor table. */
  const TABLE_SIZE: nat := 128

  /** Size of one bridge descriptor, whose fields are those of `Descriptor`. */
  const BRIDGE_DESCRIPTOR_SIZE: nat := 32

  function MapMemoryType(t: u32): NxType {
    match t
    case 1 => NxLoaderCode
    case 2 => NxLoaderData
    case 3 => NxBootServicesCode
    case 4 => NxBootServicesData
    case 5 => NxRuntimeServicesCode
    case 6 => NxRuntimeServicesData
    case 7 => NxConventional
    case 9 => NxAcpiReclaim
    case 10 => NxAcpiNvs
    case 11 => NxMmio
    case 12 => NxMmio
    case _ => NxOther
  }

  function ToCore(d: Descriptor): NxDescriptor {
    NxDescriptor(MapMemoryType(d.memType), d.start, d.pages, d.attribute, d.memType)
  }

  /** The part of a map the tables can hold. */
  function Truncate(ds: seq<Descriptor>): (r: seq<Descriptor>)
    ensures |ds| <= TABLE_SIZE ==> r == ds
    ensures |ds| > TABLE_SIZE ==> |r| == TABLE_SIZE && r <= ds
  {
    if |ds| <= TABLE_SIZE then ds else ds[..TABLE_SIZE]
  }

  /** The core's map of a firmware map: same order, same content, types converted. */
  function CoreMap(ds: seq<Descriptor>): (cs: seq<NxDescriptor>)
    ensures |cs| == |Truncate(ds)|
  {
    var t := Truncate(ds);
    seq(|t|, i requires 0 <= i < |t| => ToCore(t[i]))
  }

  /** Index of the first entry from `i` on that contains `address`, or |cs|. */
  function FirstContaining(cs: seq<NxDescriptor>, i: nat, address: u64): (k: nat)
    requires i <= |cs|
    ensures i <= k <= |cs|
    ensures k < |cs| ==> Sized(Lift(cs[k])) && Covers(Lift(cs[k]), address, 1)
    ensures forall j :: i <= j < k ==> !(Sized(Lift(cs[j])) && Covers(Lift(cs[j]), address, 1))
    decreases |cs| - i
  {
    if i == |cs| || (Sized(Lift(cs[i])) && Covers(Lift(cs[i]), address, 1)) then i
    else FirstContaining(cs, i + 1, address)
  }

  /** The UEFI type the adapter reports for an address. */
  function TypeAt(cs: seq<NxDescriptor>, address: u64): Option<u32> {
    var k := FirstContaining(cs, 0, address);
    if k == |cs| then None else Some(cs[k].uefiType)
  }

  // -------------------------------------------------------- agreement of lookups

  lemma MapMemoryTypeKeepsBrowsability(t: u32)
    ensures NxBrowsable(MapMemoryType(t)) <==> BrowsableType(t)
  {
  }

  /** The numbers a core type stands for, in the numbering of section 7.2 of UEFI Specification 2.11. */
  function UefiNumbers(t: NxType): set<u32> {
    match t
    case NxLoaderCode => {1}
    case NxLoaderData => {2}
    case NxBootServicesCode => {3}
    case NxBootServicesData => {4}
    case NxRuntimeServicesCode => {5}
    case NxRuntimeServicesData => {6}
    case NxConventional => {7}
    case NxAcpiReclaim => {9}
    case NxAcpiNvs => {10}
    case NxMmio => {11, 12}
    case _ => {}
  }

  /** The copy holds the first 128 entries in order, with their type, start, size and attributes. */
  lemma CoreMapKeepsEntries(ds: seq<Descriptor>, i: nat)
    requires i < |ds| && i < 128
    ensures |CoreMap(ds)| == if |ds| <= 128 then |ds| else 128
    ensures var c, d := CoreMap(ds)[i], ds[i];
            && c.start == d.start && c.pages == d.pages && c.attribute == d.attribute && c.uefiType == d.memType
            && (forall t: NxType :: UefiNumbers(t) != {} ==> (c.nxType == t <==> d.memType in UefiNumbers(t)))
            && ((forall t: NxType :: d.memType !in UefiNumbers(t)) ==> c.nxType == NxOther)
  {
    var c, d := CoreMap(ds)[i], ds[i];
    assert c == ToCore(d);
    if c.nxType != NxOther {
      assert d.memType in UefiNumbers(c.nxType);
    }
  }

  /** The copied map has the same pages as the firmware map. */
  lemma CoreMapHasSamePages(ds: seq<Descriptor>, page: int, size: int)
    requires |ds| <= TABLE_SIZE
    ensures PageOk(LiftMap(CoreMap(ds)), page, size) <==> PageOk(ds, page, size)
    ensures HasUsable(LiftMap(CoreMap(ds))) <==> HasUsable(ds)
    ensures PagesFit(LiftMap(CoreMap(ds))) <==> PagesFit(ds)
    ensures WellFormed(LiftMap(CoreMap(ds))) <==> WellFormed(ds)
  {
    var ls := LiftMap(CoreMap(ds));
    forall i | 0 <= i < |ds|
      ensures Usable(ls[i]) <==> Usable(ds[i])
      ensures Covers(ls[i], page, size) <==> Covers(ds[i], page, size)
      ensures ls[i].start == ds[i].start && ls[i].pages == ds[i].pages
    {
      MapMemoryTypeKeepsBrowsability(ds[i].memType);
    }
  }

  /** Navigation over the core's copy is navigation over the firmware map. */
  lemma NavigationAgrees(ds: seq<Descriptor>, p: nat, cur: nat)
    requires |ds| <= TABLE_SIZE && p > 0 && cur % p == 0
    ensures NextPage(LiftMap(CoreMap(ds)), p, cur) == NextPage(ds, p, cur)
    ensures PrevPage(LiftMap(CoreMap(ds)), p, cur) == PrevPage(ds, p, cur)
  {
    var ls := LiftMap(CoreMap(ds));
    forall x
      ensures ValidPage(ls, p, x) <==> ValidPage(ds, p, x)
    {
      CoreMapHasSamePages(ds, x, p);
    }
    NextPageIsSuccessor(ds, p, cur);
    NextPageIsSuccessor(ls, p, cur);
    assert IsSuccessor(ds, p, cur, NextPage(ls, p, cur));
    PrevPageIsPredecessor(ds, p, cur);
    PrevPageIsPredecessor(ls, p, cur);
    assert IsPredecessor(ds, p, cur, PrevPage(ls, p, cur));
  }

  /**
    The three lookups agree: the adapter's type lookup is the memory library's descriptor
    search, and the core's range check on a page is the memory library's page check.
   */
  lemma LookupsAgree(ds: seq<Descriptor>, address: u64, p: u64)
    requires |ds| <= TABLE_SIZE && p > 0
    ensures TypeAt(CoreMap(ds), address) ==
              match FindDescriptor(ds, address, 1) { case Some(d) => Some(d.memType) case None => None }
    ensures PagesFit(ds) ==> (CoreRangeOk(CoreMap(ds), address, p) <==> PageOk(ds, address, p))
  {
    var cs := CoreMap(ds);
    var i, k := FirstCover(ds, 0, address, 1), FirstContaining(cs, 0, address);
    assert forall j :: 0 <= j < |ds| ==> End(Lift(cs[j])) == End(ds[j]);
    assert i == k by {
      if i < k {
        assert Covers(Lift(cs[i]), address, 1);
      }
      if k < i {
        assert Covers(ds[k], address, 1);
      }
    }
    CoreMapHasSamePages(ds, address, p);
    if PagesFit(ds) {
      RangeCheckAgrees(cs, address, p);
    }
  }

  /** The type the adapter reports on any map: that of the first entry in the table that holds the address. */
  lemma TypeInTable(ds: seq<Descriptor>, address: u64)
    ensures TypeAt(CoreMap(ds), address) ==
              match FindDescriptor(Truncate(ds), address, 1) { case Some(d) => Some(d.memType) case None => None }
  {
    assert CoreMap(ds) == CoreMap(Truncate(ds));
    hide CoreMap;
    LookupsAgree(Truncate(ds), address, 1);
  }

  // --------------------------------------------------------------- the adapters

  lemma StrideOffset(k: nat)
    ensures (k * BRIDGE_DESCRIPTOR_SIZE) % BRIDGE_DESCRIPTOR_SIZE == 0
    ensures (k * BRIDGE_DESCRIPTOR_SIZE) / BRIDGE_DESCRIPTOR_SIZE == k
  {
  }

  class UefiBridge {
    const lib: MemLib
    const gBridgeDescriptors: array<Descriptor>
    var gBridgeMemoryMapSize: nat
    const gBridgeDescriptorSize: nat := BRIDGE_DESCRIPTOR_SIZE

    ghost predicate Valid()
      reads this, lib, lib.gMemMap
    {
      && lib.Valid()
      && gBridgeDescriptors.Length == TABLE_SIZE
      && gBridgeMemoryMapSize <= TABLE_SIZE * BRIDGE_DESCRIPTOR_SIZE
    }

    constructor (lib: MemLib)
      requires lib.Valid()
      ensures Valid() && this.lib == lib && fresh(gBridgeDescriptors)
    {
      this.lib := lib;
      gBridgeDescriptors := new Descriptor[TABLE_SIZE](_ => Descriptor(0, 0, 0, 0));
      gBridgeMemoryMapSize := 0;
    }

    /** Copy the cached firmware map, entry by entry at its own stride, into the compact table. */
    method InitMemoryMap() returns (status: Status)
      requires Valid()
      modifies this, gBridgeDescriptors
      ensures Valid()
      ensures status == if lib.Loaded() then Success else NotFound
      ensures gBridgeMemoryMapSize == BRIDGE_DESCRIPTOR_SIZE * |Truncate(lib.Descriptors())|
      ensures gBridgeDescriptors[..|Truncate(lib.Descriptors())|] == Truncate(lib.Descriptors())
    {
      hide DecodeMap;
      hide EntriesReadable;
      ghost var ds := lib.Descriptors();
      if lib.gMemMap == null || lib.gDescSize == 0 {
        gBridgeMemoryMapSize := 0;
        return NotFound;
      }
      var count := lib.DescriptorCount();
      if count > gBridgeDescriptors.Length {
        count := gBridgeDescriptors.Length;
      }
      for index := 0 to count
        invariant forall j :: 0 <= j < index ==> gBridgeDescriptors[j] == ds[j]
      {
        var source := lib.DescriptorAt(index);
        gBridgeDescriptors[index] := source;
      }
      gBridgeMemoryMapSize := count * BRIDGE_DESCRIPTOR_SIZE;
      status := Success;
    }

    /** The entry at a byte offset of the compact table. */
    method EntryAt(byteOffset: nat) returns (d: Descriptor)
      requires Valid() && byteOffset % BRIDGE_DESCRIPTOR_SIZE == 0 && byteOffset < gBridgeMemoryMapSize
      ensures d == gBridgeDescriptors[byteOffset / BRIDGE_DESCRIPTOR_SIZE]
    {
      d := gBridgeDescriptors[byteOffset / BRIDGE_DESCRIPTOR_SIZE];
    }

    method QueryMemoryAccess(address: u64, length: u64) returns (access: Access)
      requires Valid()
      ensures access == QueryAccess(lib.View(), address, length)
    {
      var _, info := lib.QueryMemoryAccess(address, length);
      access := info;
    }

    method MemRead(address: u64, width: u64) returns (status: Status, value: u64)
      requires Valid()
      ensures status == ReadStatus(lib.View(), address, width)
      ensures value == ReadValue(lib.View(), lib.ram[..], address, width)
    {
      value := 0;
      var readValue;
      status, readValue := lib.MemRead(address, width);
      if status != Success {
        return;
      }
      value := readValue;
    }
  }

  class MemAdapter {
    const bridge: UefiBridge
    const gCoreDescriptors: array<NxDescriptor>
    var gCoreDescriptorCount: nat

    ghost predicate Valid()
      reads this, bridge, bridge.lib, bridge.lib.gMemMap
    {
      bridge.Valid() && gCoreDescriptors.Length == TABLE_SIZE && gCoreDescriptorCount <= TABLE_SIZE
    }

    ghost function Entries(): seq<NxDescriptor>
      requires Valid()
      reads this, gCoreDescriptors, bridge, bridge.lib, bridge.lib.gMemMap
    {
      gCoreDescriptors[..gCoreDescriptorCount]
    }

    constructor (bridge: UefiBridge)
      requires bridge.Valid()
      ensures Valid() && this.bridge == bridge && fresh(gCoreDescriptors)
    {
      this.bridge := bridge;
      gCoreDescriptors := new NxDescriptor[TABLE_SIZE](_ => NxDescriptor(NxReserved, 0, 0, 0, 0));
      gCoreDescriptorCount := 0;
    }

    method Init() returns (status: Status)
      requires Valid()
      modifies this, gCoreDescriptors, bridge, bridge.gBridgeDescriptors
      ensures Valid() && bridge.lib.View() == old(bridge.lib.View())
      ensures status == if |bridge.lib.Descriptors()| > 0 then Success else NotFound
      ensures Entries() == if bridge.lib.Loaded() then CoreMap(bridge.lib.Descriptors()) else old(Entries())
    {
      hide DecodeMap;
      hide EntriesReadable;
      ghost var ds := bridge.lib.Descriptors();
      status := bridge.InitMemoryMap();
      if status != Success {
        return;
      }
      if bridge.gBridgeMemoryMapSize == 0 {
        gCoreDescriptorCount := 0;
        return NotFound;
      }
      var count := bridge.gBridgeMemoryMapSize / bridge.gBridgeDescriptorSize;
      count := if count > TABLE_SIZE then TABLE_SIZE else count;
      for index := 0 to count
        modifies gCoreDescriptors
        invariant forall j :: 0 <= j < index ==> gCoreDescriptors[j] == ToCore(bridge.gBridgeDescriptors[j])
      {
        StrideOffset(index);
        var source := bridge.EntryAt(index * bridge.gBridgeDescriptorSize);
        gCoreDescriptors[index] := ToCore(source);
      }
      ghost var table := Truncate(ds);
      assert bridge.gBridgeDescriptors[..count] == table;
      assert forall j :: 0 <= j < count ==> bridge.gBridgeDescriptors[j] == table[j];
      gCoreDescriptorCount := count;
      assert gCoreDescriptors[..count] == CoreMap(ds);
    }

    method GetMemoryTypeAtAddress(address: u64) returns (memType: u32, found: bool)
      requires Valid()
      ensures found == TypeAt(Entries(), address).Some?
      ensures memType == if found then TypeAt(Entries(), address).value else 0
    {
      memType, found := 0, false;
      for index := 0 to gCoreDescriptorCount
        invariant !found && memType == 0
        invariant FirstContaining(Entries(), 0, address) == FirstContaining(Entries(), index, address)
      {
        var desc := gCoreDescriptors[index];
        if desc.pages == 0 || desc.pages > MAX_UINT64 / PAGE_SHIFT_SIZE {
          continue;
        }
        var size := Shl12(desc.pages);
        if desc.start > MAX_UINT64 - size {
          continue;
        }
        if address >= desc.start && address < desc.start + size {
          memType := desc.uefiType;
          found := true;
          break;
        }
      }
    }
  }
}
