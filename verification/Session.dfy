/**
  The PageMem session as a state machine over keys: cursor engine, page actions and
  key dispatch, and what holds after every key of every run.
 */
module Session {
  import opened Words
  import opened MemoryMap
  import opened PhysicalMemory
  import opened AccessPolicy
  import opened AddressMap
  import opened Navigation
  import opened Adapters
  import opened Text
  import opened HexInput

  const PAGE_SIZE: nat := 256
  const COLS: nat := 16

  datatype Mode = Viewing | Editing | Goto

  datatype Cursor = Cursor(address: u64, offset: u64, width: u64)

  datatype Page = Page(
    mode: Mode,
    cursor: Cursor,
    uefiType: u32,
    hasDescriptor: bool,
    access: Access,
    needsRedraw: bool)

  /** The page state together with the memory it edits. */
  datatype Machine = Machine(page: Page, mem: Ram)

  /** A handled key, with the keys its prompts left over, or a prompt still waiting for a key. */
  datatype Outcome = Done(status: Status, machine: Machine, rest: seq<Key>) | Blocked(machine: Machine)

  // ------------------------------------------------------------- cursor engine

  function CurrentAddress(c: Cursor): u64 {
    Wrap(c.address + c.offset)
  }

  /** Where a move points, held inside the page; a width that is no positive signed word steps by one. */
  function HeldInPage(c: Cursor, delta: int): u64 {
    var step := if Signed(c.width) <= 0 then 1 else c.width;
    var moved := Signed(c.offset) + delta * step;
    var low := if moved < 0 then 0 else moved;
    var maxOffset := Wrap(PAGE_SIZE - (if c.width == 0 then 1 else c.width));
    if low > maxOffset then maxOffset else low
  }

  function MoveCursor(c: Cursor, delta: int): Cursor {
    c.(offset := if c.width > 1 then MaskDown(HeldInPage(c, delta), c.width) else HeldInPage(c, delta))
  }

  function SetCursorWidth(c: Cursor, width: u64): Cursor {
    var w: u64 := if width == 0 then 1 else width;
    var offset := MaskDown(c.offset, w);
    c.(width := w, offset := if offset >= PAGE_SIZE then Wrap(PAGE_SIZE - w) else offset)
  }

  // ------------------------------------------------------------------- actions

  /** Fresh lookups for the page the cursor is on. */
  function Refreshed(fw: Firmware, p: Page): Page {
    var t := TypeAt(CoreMap(fw.descriptors), p.cursor.address);
    p.(hasDescriptor := t.Some?,
       uefiType := if t.Some? then t.value else 0,
       access := QueryAccess(fw, p.cursor.address, PAGE_SIZE))
  }

  predicate ValueFitsWidth(value: u64, width: u64) {
    SupportedWidth(width) && value < Pow256(width)
  }

  function EditValue(fw: Firmware, m: Machine, keys: seq<Key>): Outcome {
    var c := m.page.cursor;
    var address := CurrentAddress(c);
    if !SupportedWidth(c.width) || c.offset % c.width != 0 ||
       !CoreRangeOk(CoreMap(fw.descriptors), address, c.width) then
      Done(InvalidParameter, m, keys)
    else
      match HexPrompt(keys, 2 * c.width)
      case Waiting => Blocked(m)
      case Cancelled(rest) => Done(Aborted, m, rest)
      case Entered(value, rest) =>
        if !ValueFitsWidth(value, c.width) then Done(InvalidParameter, m, rest)
        else
          Done(WriteStatus(fw, address, c.width),
               m.(mem := AfterWrite(fw, m.mem, address, c.width, value)), rest)
  }

  function GotoAddress(m: Machine, keys: seq<Key>): Outcome {
    match HexPrompt(keys, 16)
    case Waiting => Blocked(m)
    case Cancelled(rest) => Done(Aborted, m, rest)
    case Entered(value, rest) =>
      FloorBounds(value, PAGE_SIZE);
      var page := Floor(value, PAGE_SIZE);
      Done(Success,
           m.(page := m.page.(cursor := m.page.cursor.(address := page, offset := value - page), needsRedraw := true)),
           rest)
  }

  /** Move to a page the core offers, provided it is another, fully valid page. */
  function MoveToPage(fw: Firmware, p: Page, target: u64): Page {
    if target != p.cursor.address && CoreRangeOk(CoreMap(fw.descriptors), target, PAGE_SIZE) then
      p.(cursor := p.cursor.(address := target, offset := 0), needsRedraw := true)
    else p
  }

  function PageDown(fw: Firmware, p: Page): Page {
    MoveToPage(fw, p, LoopNext(CoreMap(fw.descriptors), PAGE_SIZE, p.cursor.address))
  }

  function PageUp(fw: Firmware, p: Page): Page {
    MoveToPage(fw, p, LoopPrev(CoreMap(fw.descriptors), PAGE_SIZE, p.cursor.address))
  }

  /** Number of ranges the range list shows. */
  function ListedRanges(ds: seq<Descriptor>): nat {
    if ds == [] then 0
    else ListedRanges(ds[..|ds| - 1]) + if ds[|ds| - 1].pages != 0 then 1 else 0
  }

  /** Keys left after the range list: one per full screen unless Escape leaves early, and a last one. */
  function AfterRangeList(keys: seq<Key>, fullScreens: nat): (rest: Option<seq<Key>>)
    ensures rest.Some? ==> |rest.value| < |keys|
  {
    if keys == [] then None
    else if fullScreens == 0 || keys[0].scanCode == SCAN_ESC then Some(keys[1..])
    else AfterRangeList(keys[1..], fullScreens - 1)
  }

  // -------------------------------------------------------------- key dispatch

  function ArrowDelta(key: Key, width: u64): int
    requires SupportedWidth(width)
  {
    if key.scanCode == SCAN_UP then -(COLS / width)
    else if key.scanCode == SCAN_DOWN then COLS / width
    else if key.scanCode == SCAN_LEFT then -1
    else if key.scanCode == SCAN_RIGHT then 1
    else 0
  }

  predicate IsArrow(key: Key) {
    key.scanCode == SCAN_UP || key.scanCode == SCAN_DOWN || key.scanCode == SCAN_LEFT || key.scanCode == SCAN_RIGHT
  }

  predicate IsCommand(key: Key, lower: char, upper: char) {
    !IsArrow(key) && key.scanCode != SCAN_ESC && (key.unicodeChar == lower || key.unicodeChar == upper)
  }

  predicate IsWidthKey(key: Key) {
    !IsArrow(key) && key.scanCode != SCAN_ESC && key.unicodeChar in "1248"
  }

  function KeyWidth(c: char): u64 {
    if c == '1' then 1 else if c == '2' then 2 else if c == '4' then 4 else 8
  }

  /** Enter a prompt, run it, and come back to viewing. */
  function Back(o: Outcome): Outcome {
    if o.Blocked? then o
    else o.(machine := o.machine.(page := o.machine.page.(mode := Viewing, needsRedraw := true)))
  }

  function In(m: Machine, mode: Mode): Machine {
    m.(page := m.page.(mode := mode, needsRedraw := m.page.needsRedraw || m.page.mode != mode))
  }

  /** Look the page up again when a command changed it. */
  function Relook(fw: Firmware, before: u64, o: Outcome): Outcome {
    if o.Done? && o.status == Success && o.machine.page.cursor.address != before then
      o.(machine := o.machine.(page := Refreshed(fw, o.machine.page)))
    else o
  }

  function HandleKey(fw: Firmware, m: Machine, key: Key, keys: seq<Key>): Outcome
    requires SupportedWidth(m.page.cursor.width)
  {
    var p, c := m.page, m.page.cursor;
    if IsArrow(key) then
      var moved := MoveCursor(c, ArrowDelta(key, c.width));
      Done(Success,
           m.(page := p.(cursor := moved, needsRedraw := p.needsRedraw && moved.offset == c.offset)), keys)
    else if key.scanCode == SCAN_ESC then Done(Aborted, m, keys)
    else
      match key.unicodeChar
      case 'e' => Back(EditValue(fw, In(m, Editing), keys))
      case 'E' => Back(EditValue(fw, In(m, Editing), keys))
      case 'g' => Relook(fw, c.address, Back(GotoAddress(In(m, Goto), keys)))
      case 'G' => Relook(fw, c.address, Back(GotoAddress(In(m, Goto), keys)))
      case 'n' => Relook(fw, c.address, Done(Success, m.(page := PageDown(fw, p)), keys))
      case 'N' => Relook(fw, c.address, Done(Success, m.(page := PageDown(fw, p)), keys))
      case 'p' => Relook(fw, c.address, Done(Success, m.(page := PageUp(fw, p)), keys))
      case 'P' => Relook(fw, c.address, Done(Success, m.(page := PageUp(fw, p)), keys))
      case 'r' => ShowRanges(fw, m, keys)
      case 'R' => ShowRanges(fw, m, keys)
      case _ =>
        if key.unicodeChar in "1248" then
          Done(Success,
               m.(page := p.(cursor := SetCursorWidth(c, KeyWidth(key.unicodeChar)), needsRedraw := true)), keys)
        else Done(NotFound, m, keys)
  }

  function ShowRanges(fw: Firmware, m: Machine, keys: seq<Key>): Outcome {
    match AfterRangeList(keys, ListedRanges(fw.descriptors) / 16)
    case None => Blocked(m)
    case Some(rest) => Done(Success, m.(page := m.page.(needsRedraw := true)), rest)
  }

  /** The page state after initialization. */
  function InitialPage(fw: Firmware): (p: Page)
    ensures Ready(p) && p.needsRedraw
  {
    FloorBounds(CoreFirstValid(CoreMap(fw.descriptors)), PAGE_SIZE);
    var cursor := Cursor(Floor(CoreFirstValid(CoreMap(fw.descriptors)), PAGE_SIZE), 0, 1);
    Refreshed(fw, Page(Viewing, cursor, 0, false, UNKNOWN_ACCESS, true))
  }

  /** The screen was just redrawn. */
  function Drawn(m: Machine): Machine {
    m.(page := m.page.(needsRedraw := false))
  }

  // ---------------------------------------------------------- session invariant

  /** What holds whenever the controller waits for the next command key. */
  predicate Ready(p: Page) {
    && p.mode == Viewing
    && p.cursor.address % PAGE_SIZE == 0
    && p.cursor.offset < PAGE_SIZE
    && SupportedWidth(p.cursor.width)
  }

  /** On a page boundary the current address does not wrap, and page and offset can be read back from it. */
  lemma CurrentAddressSplits(c: Cursor)
    requires c.address % PAGE_SIZE == 0 && c.offset < PAGE_SIZE
    ensures var a := CurrentAddress(c);
            a == c.address + c.offset && Floor(a, PAGE_SIZE) == c.address && a % PAGE_SIZE == c.offset
  {
    MultipleGap(c.address, TWO64, PAGE_SIZE);
    FloorUnique(c.address + c.offset, PAGE_SIZE, c.address);
  }

  /** The cursor selects a whole cell of the current width. */
  predicate CellAligned(c: Cursor) {
    SupportedWidth(c.width) && c.offset % c.width == 0 && c.offset + c.width <= PAGE_SIZE
  }

  /**
    The caches tell the truth about the current page: found flag and type are those of the first
    table entry that holds its first byte, 0 without one, and the access is the verdict on its 256 bytes.
   */
  predicate Coherent(fw: Firmware, p: Page) {
    var entry := FindDescriptor(Truncate(fw.descriptors), p.cursor.address, 1);
    && p.hasDescriptor == entry.Some?
    && p.uefiType == (if entry.Some? then entry.value.memType else 0)
    && p.access == QueryAccess(fw, p.cursor.address, 256)
  }

  /** The lookups make any page coherent, and a coherent page is what they give. */
  lemma CoherentIsRefreshed(fw: Firmware, p: Page)
    ensures Coherent(fw, Refreshed(fw, p))
    ensures Coherent(fw, p) <==> p == Refreshed(fw, p)
  {
    hide QueryAccess;
    hide FindDescriptor;
    hide TypeAt;
    TypeInTable(fw.descriptors, p.cursor.address);
  }

  lemma PageSizeIsPow2()
    ensures IsPow2(PAGE_SIZE)
  {
    Pow2Values();
    assert Pow2(8) == PAGE_SIZE;
  }

  lemma WidthDividesPage(c: Cursor)
    requires c.address % PAGE_SIZE == 0 && SupportedWidth(c.width)
    ensures c.address % c.width == 0 && PAGE_SIZE % c.width == 0 && COLS % c.width == 0
    ensures c.address + PAGE_SIZE <= TWO64
  {
    MultipleTrans(c.address, PAGE_SIZE, c.width);
  }

  lemma AlignedCellFits(offset: nat, width: u64)
    requires SupportedWidth(width) && offset % width == 0 && offset < PAGE_SIZE
    ensures offset + width <= PAGE_SIZE
  {
    MultipleGap(offset, PAGE_SIZE, width);
  }

  lemma MaskIsFloor(value: u64, width: u64)
    requires SupportedWidth(width)
    ensures MaskDown(value, width) == Floor(value, width)
  {
    WidthIsPow2(width);
    MaskDownIsFloor(value, width);
  }

  /** With a supported width a move rounds down to a cell, and the last cell is the highest. */
  lemma MoveCursorRounds(c: Cursor, delta: int)
    requires SupportedWidth(c.width)
    ensures HeldInPage(c, delta) <= PAGE_SIZE - c.width
    ensures MoveCursor(c, delta) == c.(offset := Floor(HeldInPage(c, delta), c.width))
  {
    MaskIsFloor(HeldInPage(c, delta), c.width);
    FloorUnique(HeldInPage(c, delta), 1, HeldInPage(c, delta));
  }

  /** Every cursor move leaves the cursor on a whole cell, wherever it was before. */
  lemma MoveCursorAligns(c: Cursor, delta: int)
    requires SupportedWidth(c.width)
    ensures CellAligned(MoveCursor(c, delta))
    ensures MoveCursor(c, delta).address == c.address && MoveCursor(c, delta).width == c.width
  {
    MoveCursorRounds(c, delta);
    FloorBounds(HeldInPage(c, delta), c.width);
    AlignedCellFits(Floor(HeldInPage(c, delta), c.width), c.width);
  }

  /** A width change selects the whole cell that holds the selected byte. */
  lemma SetCursorWidthAligns(c: Cursor, width: u64)
    requires SupportedWidth(width) && c.offset < PAGE_SIZE
    ensures CellAligned(SetCursorWidth(c, width)) && SetCursorWidth(c, width).address == c.address
    ensures var n := SetCursorWidth(c, width); n.width == width && n.offset <= c.offset < n.offset + width
  {
    MaskIsFloor(c.offset, width);
    FloorBounds(c.offset, width);
    AlignedCellFits(Floor(c.offset, width), width);
  }

  /** Width 0, which no key sets, moves like width 1 and is replaced by it. */
  lemma ZeroWidthIsOne(c: Cursor, delta: int)
    ensures MoveCursor(c.(width := 0), delta).offset == MoveCursor(c.(width := 1), delta).offset
    ensures SetCursorWidth(c, 0) == SetCursorWidth(c, 1)
  {
  }

  /** A move that stays inside the page goes exactly where it says. */
  lemma MoveInside(c: Cursor, delta: int)
    requires CellAligned(c) && 0 <= c.offset + delta * c.width <= PAGE_SIZE - c.width
    ensures MoveCursor(c, delta) == c.(offset := c.offset + delta * c.width)
    ensures CellAligned(MoveCursor(c, delta))
  {
    MoveCursorRounds(c, delta);
    hide MoveCursor;
    var target, q := c.offset + delta * c.width, c.offset / c.width;
    assert HeldInPage(c, delta) == target;
    hide HeldInPage;
    assert c.offset == c.width * q;
    assert target == c.width * (q + delta);
    DivisionUnique(target, c.width, q + delta, 0);
    FloorUnique(target, c.width, target);
  }

  /** A move ends on the cell of the page that is closest to where it points. */
  lemma MoveGoesToNearestCell(c: Cursor, delta: int, offset: u64)
    requires CellAligned(c) && CellAligned(c.(offset := offset))
    ensures var target, end := c.offset + delta * c.width, MoveCursor(c, delta).offset;
            (if end < target then target - end else end - target) <=
              if offset < target then target - offset else offset - target
  {
    var target, last := c.offset + delta * c.width, PAGE_SIZE - c.width;
    assert last % c.width == 0;
    MoveCursorRounds(c, delta);
    if target < 0 {
      FloorUnique(0, c.width, 0);
    } else if target > last {
      FloorUnique(last, c.width, last);
    } else {
      MoveInside(c, delta);
    }
  }

  /** Inside a page a right and a left key cancel, and so do down and up. */
  lemma MovesCancel(c: Cursor, delta: int)
    requires CellAligned(c)
    requires 0 <= c.offset + delta * c.width <= PAGE_SIZE - c.width
    ensures MoveCursor(MoveCursor(c, delta), -delta) == c
  {
    MoveInside(c, delta);
    assert (-delta) * c.width == -(delta * c.width);
    MoveInside(MoveCursor(c, delta), -delta);
  }

  /** In an edit the typed value always fits, so the width check never fires. */
  lemma EditInputFits(keys: seq<Key>, width: u64)
    requires SupportedWidth(width) && HexPrompt(keys, 2 * width).Entered?
    ensures ValueFitsWidth(HexPrompt(keys, 2 * width).value, width)
  {
    PromptBound(keys, 2 * width, "");
    Pow16IsPow256(width);
  }

  /** A value fits the width exactly when two digits a byte can write it. */
  lemma FitsIffDigitsSuffice(value: u64, width: u64)
    requires SupportedWidth(width)
    ensures ValueFitsWidth(value, width) <==> ParseHex(HexText(value, 2 * width)) == value
  {
    ParseHexText(value, 2 * width);
    Pow16IsPow256(width);
    hide Pow16;
    hide ParseHex;
    hide HexText;
    if ValueFitsWidth(value, width) {
      SmallMod(value, Pow256(width));
    }
  }

  lemma EditValueEffect(fw: Firmware, m: Machine, keys: seq<Key>)
    ensures var o := EditValue(fw, m, keys);
            && o.machine.page == m.page
            && (o.Done? ==> |o.rest| <= |keys|)
  {
    if SupportedWidth(m.page.cursor.width) {
      PromptBound(keys, 2 * m.page.cursor.width, "");
    }
  }

  lemma GotoEffect(m: Machine, keys: seq<Key>)
    requires Ready(m.page.(mode := Viewing))
    ensures var o := GotoAddress(m, keys);
            && o.machine.mem == m.mem
            && Ready(o.machine.page.(mode := Viewing))
            && o.machine.page == m.page.(cursor := o.machine.page.cursor, needsRedraw := o.machine.page.needsRedraw)
            && (o.Done? ==> |o.rest| <= |keys|)
            && (o.Blocked? || o.status != Success ==> o.machine == m)
  {
    hide HexPromptFrom;
    hide Pow16;
    PromptBound(keys, 16, "");
    var g := HexPrompt(keys, 16);
    if g.Entered? {
      FloorBounds(g.value, PAGE_SIZE);
    }
  }

  /** Looking a page up again only touches the cached fields. */
  lemma RelookEffect(fw: Firmware, before: u64, o: Outcome)
    ensures var r := Relook(fw, before, o);
            && r.Done? == o.Done?
            && r.machine.mem == o.machine.mem
            && r.machine.page.cursor == o.machine.page.cursor && r.machine.page.mode == o.machine.page.mode
            && (r.Done? ==> r.rest == o.rest)
  {
  }

  lemma MoveToPageEffect(fw: Firmware, p: Page, target: u64)
    requires Ready(p) && target % PAGE_SIZE == 0
    ensures Ready(MoveToPage(fw, p, target))
    ensures CellAligned(p.cursor) ==> CellAligned(MoveToPage(fw, p, target).cursor)
  {
  }

  lemma PageKeyEffect(fw: Firmware, p: Page)
    requires Ready(p)
    ensures Ready(PageDown(fw, p)) && Ready(PageUp(fw, p))
    ensures CellAligned(p.cursor) ==> CellAligned(PageDown(fw, p).cursor) && CellAligned(PageUp(fw, p).cursor)
  {
    var cs := CoreMap(fw.descriptors);
    NavigationIsAligned(cs, PAGE_SIZE, p.cursor.address);
    MoveToPageEffect(fw, p, LoopNext(cs, PAGE_SIZE, p.cursor.address));
    MoveToPageEffect(fw, p, LoopPrev(cs, PAGE_SIZE, p.cursor.address));
  }

  /** Every handled key re-establishes readiness and consumes no more than the keys it was given. */
  lemma HandleKeyKeepsReady(fw: Firmware, m: Machine, key: Key, keys: seq<Key>)
    requires Ready(m.page)
    ensures var o := HandleKey(fw, m, key, keys); o.Done? ==> Ready(o.machine.page) && |o.rest| <= |keys|
  {
    if IsArrow(key) {
      MoveCursorAligns(m.page.cursor, ArrowDelta(key, m.page.cursor.width));
    } else if IsCommand(key, 'e', 'E') {
      EditValueEffect(fw, In(m, Editing), keys);
    } else if IsCommand(key, 'g', 'G') {
      GotoEffect(In(m, Goto), keys);
      RelookEffect(fw, m.page.cursor.address, Back(GotoAddress(In(m, Goto), keys)));
    } else if IsCommand(key, 'n', 'N') || IsCommand(key, 'p', 'P') {
      PageKeyEffect(fw, m.page);
      RelookEffect(fw, m.page.cursor.address, Done(Success, m.(page := PageDown(fw, m.page)), keys));
      RelookEffect(fw, m.page.cursor.address, Done(Success, m.(page := PageUp(fw, m.page)), keys));
    } else if IsWidthKey(key) {
      SetCursorWidthAligns(m.page.cursor, KeyWidth(key.unicodeChar));
    }
  }

  /** Cursor moves and width changes always land on a whole cell; every other key but Goto keeps one. */
  lemma HandleKeyAlignment(fw: Firmware, m: Machine, key: Key, keys: seq<Key>)
    requires Ready(m.page) && HandleKey(fw, m, key, keys).Done?
    ensures var c := HandleKey(fw, m, key, keys).machine.page.cursor;
            && (IsArrow(key) || IsWidthKey(key) ==> CellAligned(c))
            && (!IsCommand(key, 'g', 'G') && CellAligned(m.page.cursor) ==> CellAligned(c))
  {
    if IsArrow(key) {
      MoveCursorAligns(m.page.cursor, ArrowDelta(key, m.page.cursor.width));
    } else if IsCommand(key, 'e', 'E') {
      EditValueEffect(fw, In(m, Editing), keys);
    } else if IsCommand(key, 'n', 'N') || IsCommand(key, 'p', 'P') {
      PageKeyEffect(fw, m.page);
      RelookEffect(fw, m.page.cursor.address, Done(Success, m.(page := PageDown(fw, m.page)), keys));
      RelookEffect(fw, m.page.cursor.address, Done(Success, m.(page := PageUp(fw, m.page)), keys));
    } else if IsWidthKey(key) {
      SetCursorWidthAligns(m.page.cursor, KeyWidth(key.unicodeChar));
    }
  }

  /** Goto lands exactly on the typed address, and on a whole cell iff that address is a multiple of the width. */
  lemma GotoAlignment(fw: Firmware, m: Machine, key: Key, keys: seq<Key>)
    requires Ready(m.page) && IsCommand(key, 'g', 'G') && HexPrompt(keys, 16).Entered?
    ensures HandleKey(fw, m, key, keys).Done?
    ensures var c := HandleKey(fw, m, key, keys).machine.page.cursor;
            && CurrentAddress(c) == HexPrompt(keys, 16).value
            && (CellAligned(c) <==> HexPrompt(keys, 16).value % c.width == 0)
  {
    var v, w := HexPrompt(keys, 16).value, m.page.cursor.width;
    FloorBounds(v, PAGE_SIZE);
    var c := Cursor(Floor(v, PAGE_SIZE), v - Floor(v, PAGE_SIZE), w);
    WidthDividesPage(c);
    RemainderOfSum(c.address, c.offset, w);
    if c.offset % w == 0 {
      AlignedCellFits(c.offset, w);
    }
  }

  /** A confirmed Goto never asks the map: its page is valid exactly when the page of the typed address is. */
  lemma GotoPageIsValidIff(fw: Firmware, m: Machine, key: Key, keys: seq<Key>)
    requires Ready(m.page) && IsCommand(key, 'g', 'G') && HexPrompt(keys, 16).Entered?
    ensures HandleKey(fw, m, key, keys).Done? && HandleKey(fw, m, key, keys).status == Success
    ensures HandleKey(fw, m, key, keys).machine.page.cursor.address == Floor(HexPrompt(keys, 16).value, PAGE_SIZE)
    ensures ValidPage(fw.descriptors, PAGE_SIZE, HandleKey(fw, m, key, keys).machine.page.cursor.address) <==>
              PageOk(fw.descriptors, Floor(HexPrompt(keys, 16).value, PAGE_SIZE), PAGE_SIZE)
  {
    hide PageOk;
    FloorBounds(HexPrompt(keys, 16).value, PAGE_SIZE);
  }

  lemma TypingAllDigitsF(rest: seq<Key>)
    ensures HexPrompt(KeysOf(HexText(MAX_UINT64, 16)) + [ENTER_KEY] + rest, 16) == Entered(MAX_UINT64, rest)
  {
    ParseHexText(MAX_UINT64, 16);
    hide HexText;
    hide HexPrompt;
    Pow16IsPow256(8);
    Pow256Values();
    SmallMod(MAX_UINT64, TWO64);
    TypingDigits(HexText(MAX_UINT64, 16), rest, 16);
  }

  /** Sixteen digits F and Enter: on every map Goto then moves to a page that is not valid. */
  lemma GotoLandsOnInvalidPage(fw: Firmware, m: Machine, key: Key, rest: seq<Key>)
    requires Ready(m.page) && IsCommand(key, 'g', 'G')
    ensures var o := HandleKey(fw, m, key, KeysOf(HexText(MAX_UINT64, 16)) + [ENTER_KEY] + rest);
            && o.Done? && o.status == Success && o.machine.page.cursor.address == TWO64 - PAGE_SIZE
            && !ValidPage(fw.descriptors, PAGE_SIZE, o.machine.page.cursor.address)
  {
    var digits := HexText(MAX_UINT64, 16);
    TypingAllDigitsF(rest);
    hide HexText;
    hide HexPrompt;
    hide HandleKey;
    FloorUnique(MAX_UINT64, PAGE_SIZE, TWO64 - PAGE_SIZE);
    GotoPageIsValidIff(fw, m, key, KeysOf(digits) + [ENTER_KEY] + rest);
    TopPageIsInvalid(fw.descriptors, TWO64 - PAGE_SIZE, PAGE_SIZE);
  }

  lemma RemainderOfSum(a: nat, b: nat, w: nat)
    requires w > 0 && a % w == 0
    ensures (a + b) % w == b % w
  {
    assert a == w * (a / w) && b == w * (b / w) + b % w;
    assert a + b == w * (a / w + b / w) + b % w;
    DivisionUnique(a + b, w, a / w + b / w, b % w);
  }

  lemma SamePageSameCache(fw: Firmware, p: Page, q: Page)
    requires Coherent(fw, p) && q.cursor.address == p.cursor.address
    requires q == p.(cursor := q.cursor, mode := q.mode, needsRedraw := q.needsRedraw)
    ensures Coherent(fw, q)
  {
  }

  lemma RelookIsCoherent(fw: Firmware, p: Page, o: Outcome)
    requires Coherent(fw, p) && o.Done?
    requires var q := o.machine.page; q == p.(cursor := q.cursor, mode := q.mode, needsRedraw := q.needsRedraw)
    requires o.status != Success ==> o.machine.page.cursor == p.cursor
    ensures Coherent(fw, Relook(fw, p.cursor.address, o).machine.page)
  {
    hide QueryAccess;
    hide FindDescriptor;
    CoherentIsRefreshed(fw, o.machine.page);
    if o.machine.page.cursor.address == p.cursor.address {
      SamePageSameCache(fw, p, o.machine.page);
    }
  }

  /** The caches stay coherent although lookups happen only when the page changes. */
  lemma HandleKeyKeepsCoherent(fw: Firmware, m: Machine, key: Key, keys: seq<Key>)
    requires Ready(m.page) && Coherent(fw, m.page)
    ensures Coherent(fw, HandleKey(fw, m, key, keys).machine.page)
  {
    var o := HandleKey(fw, m, key, keys);
    if IsCommand(key, 'e', 'E') {
      EditValueEffect(fw, In(m, Editing), keys);
      SamePageSameCache(fw, m.page, o.machine.page);
    } else if IsCommand(key, 'g', 'G') {
      var g := GotoAddress(In(m, Goto), keys);
      GotoEffect(In(m, Goto), keys);
      if g.Done? {
        RelookIsCoherent(fw, m.page, Back(g));
      } else {
        SamePageSameCache(fw, m.page, o.machine.page);
      }
    } else if IsCommand(key, 'n', 'N') {
      RelookIsCoherent(fw, m.page, Done(Success, m.(page := PageDown(fw, m.page)), keys));
    } else if IsCommand(key, 'p', 'P') {
      RelookIsCoherent(fw, m.page, Done(Success, m.(page := PageUp(fw, m.page)), keys));
    } else {
      if IsArrow(key) {
        MoveCursorAligns(m.page.cursor, ArrowDelta(key, m.page.cursor.width));
      } else if IsWidthKey(key) {
        SetCursorWidthAligns(m.page.cursor, KeyWidth(key.unicodeChar));
      }
      SamePageSameCache(fw, m.page, o.machine.page);
    }
  }

  /** `rest` is what is left of `keys` after some of them were taken from the front. */
  predicate LeftOf(rest: seq<Key>, keys: seq<Key>) {
    |rest| <= |keys| && rest == keys[|keys| - |rest|..]
  }

  /** The keys a command leaves are the last of those it was given, in their order. */
  lemma RestIsLeft(fw: Firmware, m: Machine, key: Key, keys: seq<Key>)
    requires Ready(m.page) && HandleKey(fw, m, key, keys).Done?
    ensures LeftOf(HandleKey(fw, m, key, keys).rest, keys)
  {
    hide EditValue;
    hide GotoAddress;
    hide ShowRanges;
    hide Refreshed;
    hide MoveCursor;
    hide SetCursorWidth;
    hide PageDown;
    hide PageUp;
    if IsCommand(key, 'e', 'E') {
      RestOfEdit(fw, In(m, Editing), keys);
    } else if IsCommand(key, 'g', 'G') {
      RestOfGoto(In(m, Goto), keys);
    } else if IsCommand(key, 'r', 'R') {
      RestOfRanges(fw, m, keys);
    }
  }

  lemma RestOfEdit(fw: Firmware, m: Machine, keys: seq<Key>)
    ensures var o := EditValue(fw, m, keys); o.Done? ==> LeftOf(o.rest, keys)
  {
    RestOfPrompt(keys, Limit(2 * m.page.cursor.width), "");
    hide HexPromptFrom;
  }

  lemma RestOfGoto(m: Machine, keys: seq<Key>)
    ensures var o := GotoAddress(m, keys); o.Done? ==> LeftOf(o.rest, keys)
  {
    RestOfPrompt(keys, Limit(16), "");
    hide HexPromptFrom;
  }

  lemma RestOfRanges(fw: Firmware, m: Machine, keys: seq<Key>)
    ensures var o := ShowRanges(fw, m, keys); o.Done? ==> LeftOf(o.rest, keys)
  {
    RestOfRangeList(keys, ListedRanges(fw.descriptors) / 16);
  }

  lemma {:induction false} RestOfPrompt(keys: seq<Key>, max: nat, text: string)
    requires AllHex(text)
    ensures var e := HexPromptFrom(keys, max, text); !e.Waiting? ==> LeftOf(e.rest, keys)
  {
    if keys != [] {
      RestOfPrompt(keys[1..], max, TypeKey(text, keys[0].unicodeChar, max));
    }
  }

  lemma {:induction false} RestOfRangeList(keys: seq<Key>, fullScreens: nat)
    ensures var r := AfterRangeList(keys, fullScreens); r.Some? ==> LeftOf(r.value, keys)
  {
    if keys != [] {
      if fullScreens > 0 {
        RestOfRangeList(keys[1..], fullScreens - 1);
      }
    }
  }

  /** Whatever a command key changes is marked for redraw; only cursor moves rely on partial redraw. */
  lemma ChangesAreRedrawn(fw: Firmware, m: Machine, key: Key, keys: seq<Key>)
    requires SupportedWidth(m.page.cursor.width) && !IsArrow(key)
    ensures var o := HandleKey(fw, m, key, keys);
            o.Done? ==> o.machine == m || o.machine.page.needsRedraw
  {
  }

  // ----------------------------------------------------------------- page keys

  lemma PageKeyDispatch(fw: Firmware, m: Machine, key: Key, keys: seq<Key>)
    requires Ready(m.page) && (IsCommand(key, 'n', 'N') || IsCommand(key, 'p', 'P'))
    ensures var page := if IsCommand(key, 'n', 'N') then PageDown(fw, m.page) else PageUp(fw, m.page);
            HandleKey(fw, m, key, keys) == Relook(fw, m.page.cursor.address, Done(Success, m.(page := page), keys))
  {
  }

  /** What the core can browse of a map: the copy's entries, with their sizes as the core computes them. */
  function CorePages(fw: Firmware): seq<Descriptor> {
    ShiftedMap(CoreMap(fw.descriptors))
  }

  lemma MoveToPageIsRecheck(fw: Firmware, p: Page, target: u64)
    ensures var q := MoveToPage(fw, p, target);
            && q.cursor.address == Rechecked(CoreMap(fw.descriptors), PAGE_SIZE, p.cursor.address, target)
            && (q.cursor.address == p.cursor.address ==> q == p)
            && (q.cursor.address != p.cursor.address ==> q.cursor.offset == 0)
  {
    hide CoreRangeOk;
    hide CoreMap;
  }

  /**
    On any map, from any page: a page key goes to the nearest page the core can browse on its
    side, or changes nothing without one, exactly unless a high entry shadows that page; then it
    changes nothing either.
   */
  lemma PageDownIsExactIff(fw: Firmware, p: Page)
    requires Ready(p)
    ensures var a, q := p.cursor.address, PageDown(fw, p);
            && (IsSuccessor(CorePages(fw), PAGE_SIZE, a, q.cursor.address) <==>
                !ShadowsNext(CoreMap(fw.descriptors), PAGE_SIZE, a))
            && q.cursor.address == (if ShadowsNext(CoreMap(fw.descriptors), PAGE_SIZE, a) then a
                                    else NextPage(CorePages(fw), PAGE_SIZE, a))
            && (q.cursor.address == a ==> q == p)
            && (q.cursor.address != a ==> q.cursor.offset == 0)
  {
    hide CoreMap;
    hide ShiftedMap;
    hide ShadowsNext;
    hide NextFrom;
    hide NextPage;
    hide Rechecked;
    var cs, a := CoreMap(fw.descriptors), p.cursor.address;
    FloorUnique(a, PAGE_SIZE, a);
    PageSizeIsPow2();
    MoveToPageIsRecheck(fw, p, LoopNext(cs, PAGE_SIZE, a));
    RecheckedNext(cs, PAGE_SIZE, a);
    RecheckedNextIsExactIff(cs, PAGE_SIZE, a);
    hide MoveToPage;
  }

  lemma PageUpIsExactIff(fw: Firmware, p: Page)
    requires Ready(p)
    ensures var a, q := p.cursor.address, PageUp(fw, p);
            && (IsPredecessor(CorePages(fw), PAGE_SIZE, a, q.cursor.address) <==>
                !ShadowsPrev(CoreMap(fw.descriptors), PAGE_SIZE, a))
            && q.cursor.address == (if ShadowsPrev(CoreMap(fw.descriptors), PAGE_SIZE, a) then a
                                    else PrevPage(CorePages(fw), PAGE_SIZE, a))
            && (q.cursor.address == a ==> q == p)
            && (q.cursor.address != a ==> q.cursor.offset == 0)
  {
    hide CoreMap;
    hide ShiftedMap;
    hide ShadowsPrev;
    hide PrevPage;
    hide Rechecked;
    var cs, a := CoreMap(fw.descriptors), p.cursor.address;
    FloorUnique(a, PAGE_SIZE, a);
    PageSizeIsPow2();
    MoveToPageIsRecheck(fw, p, LoopPrev(cs, PAGE_SIZE, a));
    RecheckedPrevious(cs, PAGE_SIZE, a);
    RecheckedPreviousIsExactIff(cs, PAGE_SIZE, a);
    if a == 0 {
      assert PrevFrom(cs, PAGE_SIZE, 0) == 0;
    }
    hide PrevFrom;
    hide MoveToPage;
  }

  /** An entry in the last bytes of the address space stops page-down on page 0, below the valid page 0x10000. */
  lemma LateEntryStopsPageDown(p: Page, protocol: Protocol)
    requires Ready(p) && p.cursor.address == 0
    ensures var ds := [Descriptor(7, 0xFFFF_FFFF_FFFF_FFF6, 1, 0), Descriptor(7, 0x1_0000, 1, 0)];
            PageDown(Firmware(ds, protocol), p) == p && ValidPage(ds, PAGE_SIZE, 0x1_0000)
  {
    var ds := [Descriptor(7, 0xFFFF_FFFF_FFFF_FFF6, 1, 0), Descriptor(7, 0x1_0000, 1, 0)];
    assert CoreMap(ds) == MapShadowingNext();
    assert Usable(ds[1]) && Covers(ds[1], 0x1_0000, PAGE_SIZE);
    assert ValidPage(ds, PAGE_SIZE, 0x1_0000);
    hide PageOk;
    hide CoreMap;
    LateEntryShadowsNext();
    hide MapShadowingNext;
    PageDownIsExactIff(Firmware(ds, protocol), p);
    hide ShadowsNext;
    hide PageDown;
  }

  /** The map fits the core's table, no entry starts in the last page, and wrapped counts are harmless. */
  predicate Navigable(ds: seq<Descriptor>) {
    |ds| <= TABLE_SIZE && NoHighEntries(CoreMap(ds), PAGE_SIZE) && WrapsAreHarmless(CoreMap(ds))
  }

  /** Maps of whole frames are navigable. */
  lemma WholeFramesAreNavigable(ds: seq<Descriptor>)
    requires WellFormed(ds) && |ds| <= TABLE_SIZE
    ensures Navigable(ds)
  {
    CoreMapHasSamePages(ds, 0, 1);
    hide CoreMap;
    WholeFramesAreLow(CoreMap(ds), PAGE_SIZE);
    WholeFramesDoNotWrap(CoreMap(ds));
  }

  /** On navigable maps, aligned or not, page keys go to the nearest valid page of the firmware map on their side. */
  lemma PageKeysAreExact(fw: Firmware, p: Page)
    requires Ready(p) && Navigable(fw.descriptors)
    ensures var n := NextPage(fw.descriptors, PAGE_SIZE, p.cursor.address);
            && IsSuccessor(fw.descriptors, PAGE_SIZE, p.cursor.address, PageDown(fw, p).cursor.address)
            && PageDown(fw, p).cursor.address == n
            && (n == p.cursor.address ==> PageDown(fw, p) == p)
            && (n != p.cursor.address ==> PageDown(fw, p).cursor.offset == 0)
    ensures var b := PrevPage(fw.descriptors, PAGE_SIZE, p.cursor.address);
            && IsPredecessor(fw.descriptors, PAGE_SIZE, p.cursor.address, PageUp(fw, p).cursor.address)
            && PageUp(fw, p).cursor.address == b
            && (b == p.cursor.address ==> PageUp(fw, p) == p)
            && (b != p.cursor.address ==> PageUp(fw, p).cursor.offset == 0)
  {
    hide CoreMap;
    hide ShiftedMap;
    hide NextPage;
    hide PrevPage;
    hide PageDown;
    hide PageUp;
    hide ShadowsNext;
    hide ShadowsPrev;
    hide NoHighEntries;
    hide WrapsAreHarmless;
    var cs, a := CoreMap(fw.descriptors), p.cursor.address;
    PageDownIsExactIff(fw, p);
    PageUpIsExactIff(fw, p);
    NoHighEntriesNoShadows(cs, PAGE_SIZE, a);
    HarmlessWrapsNavigate(cs, PAGE_SIZE, a);
    NavigationAgrees(fw.descriptors, PAGE_SIZE, a);
    NextPageIsSuccessor(fw.descriptors, PAGE_SIZE, a);
    PrevPageIsPredecessor(fw.descriptors, PAGE_SIZE, a);
  }

  // -------------------------------------------------------------------- writes

  /** A byte no write may reach: outside every writable descriptor, or reported read-only. */
  ghost predicate Protected(fw: Firmware, x: u64) {
    || (forall i :: 0 <= i < |fw.descriptors| && WritableType(fw.descriptors[i].memType) && Sized(fw.descriptors[i]) ==>
          !Covers(fw.descriptors[i], x, 1))
    || (Consistent(fw.protocol) && ReportedReadOnly(fw.protocol, x))
  }

  /**
    Only an edit changes memory, and only inside the selected cell, which is naturally
    aligned and lies in the current page; protected bytes never change.
   */
  lemma HandleKeyWrites(fw: Firmware, m: Machine, key: Key, keys: seq<Key>, x: u64)
    requires Ready(m.page)
    requires HandleKey(fw, m, key, keys).machine.mem[x] != m.mem[x]
    ensures var c := m.page.cursor;
            && IsCommand(key, 'e', 'E')
            && CellAligned(c) && CurrentAddress(c) == c.address + c.offset && CurrentAddress(c) % c.width == 0
            && CurrentAddress(c) <= x < CurrentAddress(c) + c.width
            && c.address <= x < c.address + PAGE_SIZE
            && WriteStatus(fw, CurrentAddress(c), c.width) == Success
            && !Protected(fw, x)
  {
    var c := m.page.cursor;
    WidthDividesPage(c);
    AlignedCellFits(c.offset, c.width);
    RemainderOfSum(c.address, c.offset, c.width);
    var e := HexPrompt(keys, 2 * c.width);
    WriteIsLocal(fw, m.mem, CurrentAddress(c), c.width, e.value, x);
    WriteNeedsWritableDescriptor(fw, CurrentAddress(c), c.width, x);
    if Consistent(fw.protocol) && ReportedReadOnly(fw.protocol, x) {
      ReadOnlyStopsWrites(fw, CurrentAddress(c), c.width, x);
    }
  }

  /** The alignment check of the memory library never rejects a write of a session. */
  lemma EditIsNeverMisaligned(fw: Firmware, m: Machine)
    requires Ready(m.page) && m.page.cursor.offset % m.page.cursor.width == 0
    ensures var c := m.page.cursor;
            WriteStatus(fw, CurrentAddress(c), c.width) ==
              if CanWrite(fw, CurrentAddress(c), c.width) then Success else AccessDenied
  {
    var c := m.page.cursor;
    WidthDividesPage(c);
    RemainderOfSum(c.address, c.offset, c.width);
  }

  /** What a confirmed edit of a browsable cell does. */
  lemma ConfirmedEdit(fw: Firmware, m: Machine, key: Key, keys: seq<Key>)
    requires Ready(m.page) && CellAligned(m.page.cursor) && IsCommand(key, 'e', 'E')
    requires HexPrompt(keys, 2 * m.page.cursor.width).Entered?
    requires CoreRangeOk(CoreMap(fw.descriptors), CurrentAddress(m.page.cursor), m.page.cursor.width)
    ensures var c, o := m.page.cursor, HandleKey(fw, m, key, keys);
            var typed := HexPrompt(keys, 2 * c.width);
            && o.Done? && o.rest == typed.rest && o.status == WriteStatus(fw, CurrentAddress(c), c.width)
            && o.machine.mem == AfterWrite(fw, m.mem, CurrentAddress(c), c.width, typed.value)
  {
    EditInputFits(keys, m.page.cursor.width);
    hide CoreRangeOk;
    hide WriteStatus;
    hide AfterWrite;
    hide HexPrompt;
  }

  /** A confirmed edit of a readable and writable cell reads back as the typed value; no other byte changes. */
  lemma EditIsReadBack(fw: Firmware, m: Machine, key: Key, keys: seq<Key>)
    requires Ready(m.page) && CellAligned(m.page.cursor) && IsCommand(key, 'e', 'E')
    requires HexPrompt(keys, 2 * m.page.cursor.width).Entered?
    requires CoreRangeOk(CoreMap(fw.descriptors), CurrentAddress(m.page.cursor), m.page.cursor.width)
    requires ReadStatus(fw, CurrentAddress(m.page.cursor), m.page.cursor.width) == Success
    requires WriteStatus(fw, CurrentAddress(m.page.cursor), m.page.cursor.width) == Success
    ensures var c := m.page.cursor;
            var typed := HexPrompt(keys, 2 * c.width);
            var o := HandleKey(fw, m, key, keys);
            && o.Done? && o.status == Success && o.rest == typed.rest
            && ReadValue(fw, o.machine.mem, CurrentAddress(c), c.width) == typed.value
            && forall x: u64 :: !(CurrentAddress(c) <= x < CurrentAddress(c) + c.width) ==>
                 o.machine.mem[x] == m.mem[x]
  {
    ConfirmedEdit(fw, m, key, keys);
    hide HandleKey;
    hide CoreRangeOk;
    hide ReadStatus;
    hide WriteStatus;
    var c := m.page.cursor;
    var typed := HexPrompt(keys, 2 * c.width);
    var after := AfterWrite(fw, m.mem, CurrentAddress(c), c.width, typed.value);
    EditInputFits(keys, c.width);
    ReadAfterWrite(fw, m.mem, CurrentAddress(c), c.width, typed.value);
    SmallMod(typed.value, Pow256(c.width));
    forall x: u64 | !(CurrentAddress(c) <= x < CurrentAddress(c) + c.width)
      ensures after[x] == m.mem[x]
    {
      WriteIsLocal(fw, m.mem, CurrentAddress(c), c.width, typed.value, x);
    }
  }

  /** Re-entering the digits a readable and writable cell shows leaves memory as it is. */
  lemma ReenteringShownDigits(fw: Firmware, m: Machine, key: Key, rest: seq<Key>)
    requires Ready(m.page) && CellAligned(m.page.cursor) && IsCommand(key, 'e', 'E')
    requires CoreRangeOk(CoreMap(fw.descriptors), CurrentAddress(m.page.cursor), m.page.cursor.width)
    requires ReadStatus(fw, CurrentAddress(m.page.cursor), m.page.cursor.width) == Success
    requires WriteStatus(fw, CurrentAddress(m.page.cursor), m.page.cursor.width) == Success
    ensures var c := m.page.cursor;
            var shown := CellDigits(ValueBytes(ReadValue(fw, m.mem, CurrentAddress(c), c.width), c.width));
            var o := HandleKey(fw, m, key, KeysOf(shown) + [ENTER_KEY] + rest);
            o.Done? && o.status == Success && o.machine.mem == m.mem && o.rest == rest
  {
    var c := m.page.cursor;
    var value := ReadValue(fw, m.mem, CurrentAddress(c), c.width);
    var shown := CellDigits(ValueBytes(value, c.width));
    LoadFitsWord(m.mem, CurrentAddress(c), c.width);
    ParseCellDigits(value, c.width);
    SmallMod(value, Pow256(c.width));
    TypingDigits(shown, rest, 2 * c.width);
    ConfirmedEdit(fw, m, key, KeysOf(shown) + [ENTER_KEY] + rest);
    hide HandleKey;
    hide HexPrompt;
    hide CellDigits;
    hide CoreRangeOk;
    WriteBackIsIdentity(fw, m.mem, CurrentAddress(c), c.width);
  }

  // ---------------------------------------------------------------- whole runs

  /** Where a run stops: waiting for a command, left with Escape, or waiting inside a prompt. */
  datatype Stop = Idle(machine: Machine) | Left(machine: Machine) | Prompting(machine: Machine)

  /**
    The machine after a stream of keys, starting from a redraw: commands take their keys
    from the stream, Escape leaves, and the run stops where the stream ends.
   */
  function Run(fw: Firmware, m: Machine, keys: seq<Key>): Stop
    requires Ready(m.page)
    decreases |keys|
  {
    var ready := Drawn(m);
    if keys == [] then Idle(ready)
    else
      HandleKeyKeepsReady(fw, ready, keys[0], keys[1..]);
      var o := HandleKey(fw, ready, keys[0], keys[1..]);
      if o.Blocked? then Prompting(o.machine)
      else if o.status == Aborted && keys[0].scanCode == SCAN_ESC then Left(o.machine)
      else Run(fw, o.machine, o.rest)
  }

  /** The part of readiness that also holds while a prompt waits. */
  predicate WellPlaced(p: Page) {
    && p.cursor.address % PAGE_SIZE == 0 && p.cursor.offset < PAGE_SIZE && SupportedWidth(p.cursor.width)
    && p.cursor.address + p.cursor.offset <= MAX_UINT64
  }

  lemma InitialPageIsReady(fw: Firmware)
    ensures Ready(InitialPage(fw)) && CellAligned(InitialPage(fw).cursor) && Coherent(fw, InitialPage(fw))
  {
    FloorBounds(CoreFirstValid(CoreMap(fw.descriptors)), PAGE_SIZE);
    hide Coherent;
    CoherentIsRefreshed(fw, InitialPage(fw));
  }

  /** One handled key leaves every protected byte alone. */
  lemma HandleKeyProtects(fw: Firmware, m: Machine, key: Key, keys: seq<Key>)
    requires Ready(m.page)
    ensures forall x: u64 :: Protected(fw, x) ==> HandleKey(fw, m, key, keys).machine.mem[x] == m.mem[x]
  {
    forall x: u64 | Protected(fw, x)
      ensures HandleKey(fw, m, key, keys).machine.mem[x] == m.mem[x]
    {
      if HandleKey(fw, m, key, keys).machine.mem[x] != m.mem[x] {
        HandleKeyWrites(fw, m, key, keys, x);
      }
    }
  }

  /** A waiting prompt has changed neither the cursor nor memory. */
  lemma BlockedKeepsPlace(fw: Firmware, m: Machine, key: Key, keys: seq<Key>)
    requires Ready(m.page) && HandleKey(fw, m, key, keys).Blocked?
    ensures var b := HandleKey(fw, m, key, keys).machine; b.page.cursor == m.page.cursor && b.mem == m.mem
  {
    EditValueEffect(fw, In(m, Editing), keys);
  }

  /** After any key stream every protected byte still has its initial value. */
  lemma {:induction false} RunProtects(fw: Firmware, m: Machine, keys: seq<Key>)
    requires Ready(m.page)
    ensures forall x: u64 :: Protected(fw, x) ==> Run(fw, m, keys).machine.mem[x] == m.mem[x]
    decreases |keys|
  {
    if keys != [] {
      var o := HandleKey(fw, Drawn(m), keys[0], keys[1..]);
      HandleKeyKeepsReady(fw, Drawn(m), keys[0], keys[1..]);
      HandleKeyProtects(fw, Drawn(m), keys[0], keys[1..]);
      if o.Done? {
        RunProtects(fw, o.machine, o.rest);
      }
    }
  }

  lemma SilentKeyKeepsMemory(fw: Firmware, m: Machine, key: Key, keys: seq<Key>)
    requires Ready(m.page) && Silent(fw)
    ensures HandleKey(fw, m, key, keys).machine.mem == m.mem
  {
    var after := HandleKey(fw, m, key, keys).machine.mem;
    forall x: u64
      ensures after[x] == m.mem[x]
    {
      if after[x] != m.mem[x] {
        HandleKeyWrites(fw, m, key, keys, x);
        SilenceDenies(fw, CurrentAddress(m.page.cursor), m.page.cursor.width);
      }
    }
    assert forall i :: 0 <= i < TWO64 ==> after[i] == m.mem[i];
  }

  /** Where the firmware reports no attributes, whatever the header promises, no run changes memory. */
  lemma {:induction false} SilentRunKeepsMemory(fw: Firmware, m: Machine, keys: seq<Key>)
    requires Ready(m.page) && Silent(fw)
    ensures Run(fw, m, keys).machine.mem == m.mem
    decreases |keys|
  {
    hide HandleKey;
    hide Silent;
    if keys != [] {
      var o := HandleKey(fw, Drawn(m), keys[0], keys[1..]);
      HandleKeyKeepsReady(fw, Drawn(m), keys[0], keys[1..]);
      SilentKeyKeepsMemory(fw, Drawn(m), keys[0], keys[1..]);
      if o.Done? {
        SilentRunKeepsMemory(fw, o.machine, o.rest);
      }
    }
  }

  lemma ReadyIsWellPlaced(p: Page)
    requires Ready(p)
    ensures WellPlaced(p)
  {
    WidthDividesPage(p.cursor);
  }

  /** After any key stream the cursor is well placed and the caches agree with fresh lookups. */
  lemma {:induction false} RunStaysCoherent(fw: Firmware, m: Machine, keys: seq<Key>)
    requires Ready(m.page) && Coherent(fw, m.page)
    ensures var r := Run(fw, m, keys);
            && WellPlaced(r.machine.page)
            && (!r.Prompting? ==> Ready(r.machine.page))
            && Coherent(fw, r.machine.page)
    decreases |keys|
  {
    var ready := Drawn(m);
    ReadyIsWellPlaced(m.page);
    SamePageSameCache(fw, m.page, ready.page);
    if keys != [] {
      var o := HandleKey(fw, ready, keys[0], keys[1..]);
      HandleKeyKeepsReady(fw, ready, keys[0], keys[1..]);
      HandleKeyKeepsCoherent(fw, ready, keys[0], keys[1..]);
      if o.Done? {
        ReadyIsWellPlaced(o.machine.page);
        RunStaysCoherent(fw, o.machine, o.rest);
      } else {
        BlockedKeepsPlace(fw, ready, keys[0], keys[1..]);
      }
    }
  }

  /** From start-up, no key stream changes a protected byte or leaves a stale cache. */
  lemma SessionIsSafe(fw: Firmware, mem: Ram, keys: seq<Key>)
    ensures Ready(InitialPage(fw))
    ensures var r := Run(fw, Machine(InitialPage(fw), mem), keys);
            && WellPlaced(r.machine.page)
            && (!r.Prompting? ==> Ready(r.machine.page))
            && Coherent(fw, r.machine.page)
            && forall x: u64 :: Protected(fw, x) ==> r.machine.mem[x] == mem[x]
  {
    InitialPageIsReady(fw);
    RunProtects(fw, Machine(InitialPage(fw), mem), keys);
    RunStaysCoherent(fw, Machine(InitialPage(fw), mem), keys);
  }
}
