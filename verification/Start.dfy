/**
  Where a session starts and what it can reach: the core's first address against the
  library's, and the page keys as a way to every page of the map.
 */
module Start {
  import opened Words
  import opened MemoryMap
  import opened AccessPolicy
  import opened AddressMap
  import opened Navigation
  import opened Adapters
  import opened HexInput
  import opened Session

  // ---------------------------------------------------------- the first address

  /** The first entry the core would browse, as an index of the firmware map. */
  function FirstEntry(ds: seq<Descriptor>): (k: nat)
    requires |ds| <= TABLE_SIZE
    ensures k <= |ds|
    ensures k < |ds| ==> BrowsableType(ds[k].memType)
    ensures forall j :: 0 <= j < k ==> !BrowsableType(ds[j].memType)
  {
    var cs := CoreMap(ds);
    var k := FirstBrowsable(cs, 0);
    assert k < |ds| ==> cs[k] == ToCore(ds[k]);
    assert forall j :: 0 <= j < k ==> cs[j] == ToCore(ds[j]);
    k
  }

  /** No usable entry lies below the first browsable one, and memory really starts there. */
  predicate FirstEntryLeads(ds: seq<Descriptor>)
    requires |ds| <= TABLE_SIZE
  {
    var k := FirstEntry(ds);
    k < |ds| ==>
      if HasUsable(ds) then
        && (forall i :: 0 <= i < |ds| && Usable(ds[i]) ==> ds[k].start <= ds[i].start)
        && (exists i :: 0 <= i < |ds| && Usable(ds[i]) && ds[i].start == ds[k].start)
      else ds[k].start == 0
  }

  /** The core takes the first browsable entry, the library the lowest usable one; when the two agree. */
  lemma FirstAddressesAgreeIff(ds: seq<Descriptor>)
    requires |ds| <= TABLE_SIZE
    ensures CoreFirstValid(CoreMap(ds)) == FirstValid(ds) <==> FirstEntryLeads(ds)
  {
    LeastStartIsLeast(ds, |ds|);
    assert !HasUsable(ds) ==> FirstValid(ds) == 0;
    if HasUsable(ds) {
      var i :| 0 <= i < |ds| && Usable(ds[i]);
      assert ds[i].start < MAX_UINT64;
      assert FirstEntry(ds) < |ds|;
    }
  }

  /** The first address is 0 or the start of the first browsable entry. */
  lemma CoreFirstIsEntryStart(ds: seq<Descriptor>)
    requires |ds| <= TABLE_SIZE
    ensures CoreFirstValid(CoreMap(ds)) == if FirstEntry(ds) < |ds| then ds[FirstEntry(ds)].start else 0
  {
    var k := FirstEntry(ds);
    if k < |ds| {
      assert CoreMap(ds)[k] == ToCore(ds[k]);
    }
  }

  lemma InitialAddress(fw: Firmware)
    ensures InitialPage(fw).cursor.address == Floor(CoreFirstValid(CoreMap(fw.descriptors)), PAGE_SIZE)
  {
    hide CoreFirstValid;
    hide CoreMap;
    hide TypeAt;
    hide QueryAccess;
  }

  /**
    On any map a session starts viewing, one byte wide, on the first cell of the page that holds
    the start of the first browsable entry in the table, or on page 0 without one.
   */
  lemma SessionStartsAtFirstEntry(fw: Firmware, k: nat)
    requires k <= |fw.descriptors| && k <= 128
    requires forall j :: 0 <= j < k ==> !BrowsableType(fw.descriptors[j].memType)
    requires k < |fw.descriptors| && k < 128 ==> BrowsableType(fw.descriptors[k].memType)
    requires !(k < |fw.descriptors| && k < 128) ==> k == |Truncate(fw.descriptors)|
    ensures var start := if k < |fw.descriptors| && k < 128 then fw.descriptors[k].start else 0;
            var p := InitialPage(fw);
            && p.cursor.address == start - start % 256 && p.cursor.offset == 0 && p.cursor.width == 1
            && p.mode == Viewing && p.needsRedraw
  {
    var cs := CoreMap(fw.descriptors);
    assert forall j :: 0 <= j < |cs| ==> cs[j] == ToCore(fw.descriptors[j]);
    assert FirstBrowsable(cs, 0) == k;
    InitialAddress(fw);
    hide CoreMap;
    hide QueryAccess;
    hide TypeAt;
  }

  lemma PageStartsInsideEntry(ds: seq<Descriptor>, page: u64)
    requires WellFormed(ds) && page % PAGE_SHIFT_SIZE == 0
    ensures ValidPage(ds, PAGE_SIZE, page) <==> exists i :: 0 <= i < |ds| && Usable(ds[i]) && Covers(ds[i], page, 1)
  {
    PageSizeIsPow2();
    assert page % PAGE_SIZE == 0 by {
      FrameAligned(page, PAGE_SIZE);
    }
    hide IsPow2;
    hide Usable;
    forall i | 0 <= i < |ds| && Covers(ds[i], page, 1)
      ensures Covers(ds[i], page, PAGE_SIZE)
    {
      WholePages(ds[i], PAGE_SIZE, page);
    }
    assert forall i :: 0 <= i < |ds| && Covers(ds[i], page, PAGE_SIZE) ==> Covers(ds[i], page, 1);
  }

  /** On maps of whole frames the start page is valid if and only if a usable entry holds the first address. */
  lemma InitialPageIsValidIff(fw: Firmware)
    requires WellFormed(fw.descriptors) && |fw.descriptors| <= TABLE_SIZE
    ensures var ds, a := fw.descriptors, CoreFirstValid(CoreMap(fw.descriptors));
            && InitialPage(fw).cursor.address == a
            && (ValidPage(ds, PAGE_SIZE, a) <==> exists i :: 0 <= i < |ds| && Usable(ds[i]) && Covers(ds[i], a, 1))
  {
    CoreFirstIsEntryStart(fw.descriptors);
    hide FirstEntry;
    hide CoreFirstValid;
    hide CoreMap;
    InitialAddress(fw);
    hide InitialPage;
    var a := CoreFirstValid(CoreMap(fw.descriptors));
    PageSizeIsPow2();
    FrameAligned(a, PAGE_SIZE);
    FloorUnique(a, PAGE_SIZE, a);
    PageStartsInsideEntry(fw.descriptors, a);
  }

  /** An empty entry in front: the session starts on page 0, which is invalid, below the only valid frame. */
  lemma EmptyEntryMisleads(protocol: Protocol)
    ensures var fw := Firmware([Descriptor(7, 0, 0, 0), Descriptor(7, 0x1_0000, 1, 0)], protocol);
            && InitialPage(fw).cursor.address == 0 && FirstValid(fw.descriptors) == 0x1_0000
            && !ValidPage(fw.descriptors, PAGE_SIZE, 0) && ValidPage(fw.descriptors, PAGE_SIZE, 0x1_0000)
  {
    var d, e := Descriptor(7, 0, 0, 0), Descriptor(7, 0x1_0000, 1, 0);
    FrontEntryMisleads(d, e, protocol);
  }

  lemma FrontEntryMisleads(d: Descriptor, e: Descriptor, protocol: Protocol)
    requires BrowsableType(d.memType) && d.pages == 0 && d.start == 0
    requires Usable(e) && e.start % PAGE_SHIFT_SIZE == 0 && e.start > 0
    ensures var fw := Firmware([d, e], protocol);
            && InitialPage(fw).cursor.address == 0 && FirstValid(fw.descriptors) == e.start
            && !ValidPage(fw.descriptors, PAGE_SIZE, 0) && ValidPage(fw.descriptors, PAGE_SIZE, e.start)
  {
    hide InitialPage;
    hide ValidPage;
    hide FirstValid;
    hide Usable;
    StartsAtFrontEntry(Firmware([d, e], protocol));
    FloorUnique(0, PAGE_SIZE, 0);
    LowestUsable(d, e);
    OnlyFrame(d, e);
  }

  lemma StartsAtFrontEntry(fw: Firmware)
    requires 0 < |fw.descriptors| <= TABLE_SIZE && BrowsableType(fw.descriptors[0].memType)
    ensures InitialPage(fw).cursor.address == Floor(fw.descriptors[0].start, PAGE_SIZE)
  {
    hide FirstEntry;
    hide CoreFirstValid;
    hide CoreMap;
    assert FirstEntry(fw.descriptors) == 0;
    CoreFirstIsEntryStart(fw.descriptors);
    InitialAddress(fw);
  }

  lemma OnlyFrame(d: Descriptor, e: Descriptor)
    requires d.pages == 0 && Usable(e) && e.start % PAGE_SHIFT_SIZE == 0 && e.start > 0
    ensures !ValidPage([d, e], PAGE_SIZE, 0) && ValidPage([d, e], PAGE_SIZE, e.start)
  {
    assert [d, e][1] == e && Covers(e, e.start, PAGE_SIZE);
  }

  lemma LowestUsable(d: Descriptor, e: Descriptor)
    requires d.pages == 0 && Usable(e)
    ensures FirstValid([d, e]) == e.start && !Usable(d)
  {
    LeastStartIsLeast([d, e], 2);
    assert Usable([d, e][1]);
  }

  // ------------------------------------------------------------- reaching pages

  const DOWN_KEY := Key(0, 'n')
  const UP_KEY := Key(0, 'p')

  /** Where a page key should lead. */
  function Neighbour(fw: Firmware, key: Key, address: nat): nat {
    if key == DOWN_KEY then NextPage(fw.descriptors, PAGE_SIZE, address)
    else PrevPage(fw.descriptors, PAGE_SIZE, address)
  }

  /** A page key moves to the neighbour on its side, whatever keys follow, and touches no memory. */
  lemma PageKeyMoves(fw: Firmware, m: Machine, key: Key, keys: seq<Key>)
    requires Ready(m.page) && Navigable(fw.descriptors)
    requires key == DOWN_KEY || key == UP_KEY
    ensures var o := HandleKey(fw, m, key, keys);
            && o.Done? && o.status == Success && o.rest == keys
            && o.machine.mem == m.mem && Ready(o.machine.page)
            && o.machine.page.cursor.address == Neighbour(fw, key, m.page.cursor.address)
            && o.machine == HandleKey(fw, m, key, []).machine
  {
    PageKeyDispatch(fw, m, key, keys);
    PageKeyDispatch(fw, m, key, []);
    hide HandleKey;
    PageKeyEffect(fw, m.page);
    PageKeysAreExact(fw, m.page);
    hide NextPage;
    hide PrevPage;
    hide Session.PageDown;
    hide Session.PageUp;
    hide Refreshed;
    var page := if key == DOWN_KEY then Session.PageDown(fw, m.page) else Session.PageUp(fw, m.page);
    RelookEffect(fw, m.page.cursor.address, Done(Success, m.(page := page), keys));
  }

  ghost predicate Reaches(fw: Firmware, m: Machine, keys: seq<Key>, page: nat)
    requires Ready(m.page)
  {
    && (forall k :: k in keys ==> k == DOWN_KEY || k == UP_KEY)
    && Run(fw, m, keys).Idle?
    && Run(fw, m, keys).machine.page.cursor.address == page
    && Run(fw, m, keys).machine.mem == m.mem
  }

  lemma ReachOn(fw: Firmware, m: Machine, key: Key, rest: seq<Key>, page: nat)
    requires Ready(m.page) && Navigable(fw.descriptors)
    requires key == DOWN_KEY || key == UP_KEY
    requires Ready(HandleKey(fw, Drawn(m), key, []).machine.page)
    requires Reaches(fw, HandleKey(fw, Drawn(m), key, []).machine, rest, page)
    ensures Reaches(fw, m, [key] + rest, page)
  {
    PageKeyMoves(fw, Drawn(m), key, rest);
    hide HandleKey;
    hide Navigable;
    hide Neighbour;
    assert ([key] + rest)[1..] == rest;
  }

  /** From any page boundary, valid or not, page keys alone reach every valid page of a navigable map. */
  lemma {:induction false} PageKeysReach(fw: Firmware, m: Machine, page: nat) returns (keys: seq<Key>)
    requires Ready(m.page) && Navigable(fw.descriptors)
    requires ValidPage(fw.descriptors, PAGE_SIZE, page)
    ensures Reaches(fw, m, keys, page)
    decreases if page < m.page.cursor.address then m.page.cursor.address - page else page - m.page.cursor.address
  {
    var a := m.page.cursor.address;
    if a == page {
      keys := [];
    } else {
      var key := if a < page then DOWN_KEY else UP_KEY;
      PageKeyMoves(fw, Drawn(m), key, []);
      NextPageIsSuccessor(fw.descriptors, PAGE_SIZE, a);
      PrevPageIsPredecessor(fw.descriptors, PAGE_SIZE, a);
      hide HandleKey;
      hide NextPage;
      hide PrevPage;
      var rest := PageKeysReach(fw, HandleKey(fw, Drawn(m), key, []).machine, page);
      ReachOn(fw, m, key, rest, page);
      keys := [key] + rest;
    }
  }

  /** From start-up every valid page of the map can be visited with N and P alone. */
  lemma EveryPageIsReachable(fw: Firmware, mem: Ram, page: nat)
    requires Navigable(fw.descriptors)
    requires ValidPage(fw.descriptors, PAGE_SIZE, page)
    ensures exists keys :: Reaches(fw, Machine(InitialPage(fw), mem), keys, page)
  {
    var keys := PageKeysReach(fw, Machine(InitialPage(fw), mem), page);
  }
}
