/**
  A session that leaves a stale cell on the screen: the partial redraw after a Goto to
  a misaligned address.
 */
module StaleCell {
  import opened Words
  import opened MemoryMap
  import opened AccessPolicy
  import opened PhysicalMemory
  import opened AddressMap
  import opened Adapters
  import opened Text
  import opened HexInput
  import opened Session
  import opened Picture
  import opened Redraw

  /** One conventional frame at 0, and firmware that reports no restriction on anything. */
  function OpenFirmware(): Firmware {
    Firmware([Descriptor(EfiConventionalMemory, 0, 1, 0)], Some((a, n) => Reported(Success, 0)))
  }

  lemma OpenFirmwareReads(address: u64, width: u64)
    requires SupportedWidth(width) && address % width == 0 && address + width <= PAGE_SHIFT_SIZE
    ensures ReadStatus(OpenFirmware(), address, width) == Success
    ensures CoreRangeOk(CoreMap(OpenFirmware().descriptors), address, width)
  {
    var ds := OpenFirmware().descriptors;
    assert Sized(ds[0]) && Covers(ds[0], address, width);
    assert FirstCover(ds, 0, address, width) == 0;
    assert CoreMap(ds)[0] == ToCore(ds[0]);
    assert CoreCovers(CoreMap(ds)[0], address, address + width);
  }

  const WIDTH_KEY := Key(0, '2')
  const GOTO_KEY := Key(0, 'g')
  const RIGHT_KEY := Key(SCAN_RIGHT, ' ')

  /** Width 2, Goto 3, Right. */
  const MISALIGNING_KEYS: seq<Key> := [WIDTH_KEY, GOTO_KEY] + KeysOf("3") + [ENTER_KEY, RIGHT_KEY]

  /** Right, from offset 3 with width 2: the cell at 2 is repainted as question marks although it has a value. */
  lemma RightFromMisaligned(m: Machine, stale: Option<nat>)
    requires m.page.cursor == Cursor(0, 3, 2) && Ready(m.page) && stale.None?
    ensures var o := HandleKey(OpenFirmware(), m, RIGHT_KEY, []);
            && o.Done? && o.status == Success && o.rest == []
            && !o.machine.page.needsRedraw
            && KeyStale(SceneAt(OpenFirmware(), m), RIGHT_KEY, SceneAt(OpenFirmware(), o.machine), stale) == Some(2)
  {
    var fw := OpenFirmware();
    hide OpenFirmware;
    RightMoves(m.page.cursor);
    hide MoveCursor;
    var s, t := SceneAt(fw, m), SceneAt(fw, HandleKey(fw, m, RIGHT_KEY, []).machine);
    assert t.page.cursor == Cursor(0, 4, 2);
    FloorUnique(3, 2, 2);
    hide Floor;
    assert CellValue(s, 2).Some? by {
      OpenFirmwareReads(2, 2);
    }
    hide CellValue;
  }

  lemma RightMoves(c: Cursor)
    requires c == Cursor(0, 3, 2)
    ensures MoveCursor(c, 1) == Cursor(0, 4, 2)
  {
    MoveCursorRounds(c, 1);
    hide MoveCursor;
    assert HeldInPage(c, 1) == 5;
    FloorUnique(5, 2, 4);
  }

  lemma StartsAtZero()
    ensures InitialPage(OpenFirmware()).cursor == Cursor(0, 0, 1)
  {
    var ds := OpenFirmware().descriptors;
    assert CoreMap(ds)[0] == ToCore(ds[0]);
    assert CoreFirstValid(CoreMap(ds)) == 0;
    FloorUnique(0, PAGE_SIZE, 0);
    hide QueryAccess;
    hide TypeAt;
  }

  /** Width 2 selects the cell at 0. */
  lemma WidthTwo(fw: Firmware, m: Machine, rest: seq<Key>)
    requires m.page.cursor == Cursor(0, 0, 1) && Ready(m.page)
    ensures var o := HandleKey(fw, m, WIDTH_KEY, rest);
            && o.Done? && o.status == Success && o.rest == rest
            && o.machine.page.cursor == Cursor(0, 0, 2) && o.machine.page.mode == Viewing
  {
    MaskIsFloor(0, 2);
    FloorUnique(0, 2, 0);
    hide MaskDown;
  }

  /** Goto 3 stays on page 0, between two cells. */
  lemma GotoThree(fw: Firmware, m: Machine, rest: seq<Key>)
    requires m.page.cursor == Cursor(0, 0, 2) && Ready(m.page)
    ensures var o := HandleKey(fw, m, GOTO_KEY, KeysOf("3") + [ENTER_KEY] + rest);
            && o.Done? && o.status == Success && o.rest == rest
            && o.machine.page.cursor == Cursor(0, 3, 2) && o.machine.page.mode == Viewing && o.machine.page.needsRedraw
  {
    assert ParseHex("3") == 3;
    TypingDigits("3", rest, 16);
    FloorUnique(3, PAGE_SIZE, 0);
    hide HexPrompt;
    hide Refreshed;
  }

  /** One handled key of a run that is neither blocked nor left. */
  lemma StaleTurn(fw: Firmware, m: Machine, key: Key, keys: seq<Key>, stale: Option<nat>)
    requires Ready(m.page) && HandleKey(fw, Drawn(m), key, keys).Done?
    requires HandleKey(fw, Drawn(m), key, keys).status == Success
    ensures var o := HandleKey(fw, Drawn(m), key, keys);
            && Ready(o.machine.page)
            && StaleAfter(fw, m, [key] + keys, stale) ==
                 StaleAfter(fw, o.machine, o.rest,
                            KeyStale(SceneAt(fw, Drawn(m)), key, SceneAt(fw, o.machine),
                                     if m.page.needsRedraw then None else stale))
  {
    hide HandleKey;
    hide KeyStale;
    HandleKeyKeepsReady(fw, Drawn(m), key, keys);
    assert ([key] + keys)[1..] == keys;
  }

  /** From start-up these five keys leave the cell at offset 2 stale: the screen is wrong. */
  lemma GotoLeavesStaleCell(mem: Ram)
    ensures StaleAfter(OpenFirmware(), Machine(InitialPage(OpenFirmware()), mem), MISALIGNING_KEYS, None) == Some(2)
  {
    var fw := OpenFirmware();
    var m0 := Machine(InitialPage(fw), mem);
    StartsAtZero();
    hide OpenFirmware;
    hide InitialPage;
    hide KeysOf;
    var keys2 := KeysOf("3") + [ENTER_KEY] + [RIGHT_KEY];
    var keys1 := [GOTO_KEY] + keys2;
    assert MISALIGNING_KEYS == [WIDTH_KEY] + keys1;
    WidthTwo(fw, Drawn(m0), keys1);
    StaleTurn(fw, m0, WIDTH_KEY, keys1, None);
    var m1 := HandleKey(fw, Drawn(m0), WIDTH_KEY, keys1).machine;
    GotoThree(fw, Drawn(m1), [RIGHT_KEY]);
    StaleTurn(fw, m1, GOTO_KEY, keys2, None);
    var m2 := HandleKey(fw, Drawn(m1), GOTO_KEY, keys2).machine;
    RightFromMisaligned(Drawn(m2), None);
    StaleTurn(fw, m2, RIGHT_KEY, [], None);
    hide HandleKey;
    assert [RIGHT_KEY] + [] == [RIGHT_KEY];
  }
}
