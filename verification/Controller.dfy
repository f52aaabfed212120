/**
  The PageMem controller: initialization, the actions behind the command keys, key
  dispatch with its fast redraw path, and the run loop.
 */
module Controller {
  import opened Words
  import opened MemoryMap
  import opened PhysicalMemory
  import opened AccessPolicy
  import opened DescriptorBuffer
  import opened AddressMap
  import opened Adapters
  import opened HexInput
  import opened Session
  import opened StateMachine
  import opened Picture
  import opened View
  import opened Redraw

  class PageMem {
    const state: PageState
    const memory: MemAdapter
    const console: Console

    constructor (memory: MemAdapter, console: Console)
      requires memory.Valid() && console.Valid()
      ensures this.memory == memory && this.console == console
      ensures fresh(state) && fresh(state.cursor) && fresh(state.addressMap) && state.addressMap.Valid()
    {
      this.memory, this.console := memory, console;
      state := new PageState();
    }

    /** Initialized: the core works on the copy of the loaded map. */
    ghost predicate Valid()
      reads this, state, state.cursor, state.addressMap, memory, memory.gCoreDescriptors
      reads memory.bridge, memory.bridge.lib, memory.bridge.lib.gMemMap, console
    {
      && Linked(state, memory) && console.Valid()
      && memory.bridge.lib.Loaded()
    }

    ghost function Fw(): Firmware
      requires memory.Valid()
      reads memory, memory.bridge, memory.bridge.lib, memory.bridge.lib.gMemMap
    {
      memory.bridge.lib.View()
    }

    ghost function M(): Machine
      requires memory.Valid()
      reads state, state.cursor
      reads memory, memory.bridge, memory.bridge.lib, memory.bridge.lib.gMemMap, memory.bridge.lib.ram
    {
      Machine(state.View(), memory.bridge.lib.ram[..])
    }

    // ------------------------------------------------------------------ actions

    method UpdatePageType()
      requires Valid()
      modifies state`pageUefiMemoryType, state`pageHasMemoryDescriptor, state`pageAccess
      ensures Valid() && Fw() == old(Fw())
      ensures M() == old(M()).(page := Refreshed(Fw(), old(M()).page)) && Coherent(Fw(), M().page)
    {
      hide Coherent;
      hide QueryAccess;
      hide TypeAt;
      hide CoreMap;
      hide DecodeMap;
      hide EntriesReadable;
      var address := state.cursor.address;
      state.pageUefiMemoryType, state.pageHasMemoryDescriptor := memory.GetMemoryTypeAtAddress(address);
      state.pageAccess := Access(NotFound, 0, false, false, false, false);
      state.pageAccess := memory.bridge.QueryMemoryAccess(address, PAGE_SIZE);
      CoherentIsRefreshed(Fw(), old(M()).page);
    }

    /** A value fits when it is at most 2^(8 * width) - 1. */
    static method FitsWidth(value: u64, width: u64) returns (fits: bool)
      ensures SupportedWidth(width) ==> fits == ValueFitsWidth(value, width)
    {
      Pow256Values();
      if width == 0 || width > 8 {
        return false;
      }
      if width == 8 {
        return true;
      }
      var maxValue := Pow256(width) - 1;
      fits := value <= maxValue;
    }

    method EditValue() returns (status: Status, waiting: bool)
      requires Valid()
      modifies console.keyboard, memory.bridge.lib.ram
      ensures Valid() && Fw() == old(Fw())
      ensures var o := Session.EditValue(Fw(), old(M()), old(console.keyboard.pending));
              && waiting == o.Blocked? && M() == o.machine
              && (o.Done? ==> status == o.status && console.keyboard.pending == o.rest)
    {
      hide QueryAccess;
      hide HexPromptFrom;
      hide CoreMap;
      hide DecodeMap;
      hide EntriesReadable;
      hide CoreRangeOk;
      hide WriteStatus;
      hide AfterWrite;
      var address := state.cursor.GetCurrentAddress();
      var width := state.cursor.width;
      if width == 0 || (width != 1 && width != 2 && width != 4 && width != 8) {
        return InvalidParameter, false;
      }
      if state.cursor.offset % width != 0 {
        return InvalidParameter, false;
      }
      var valid := state.addressMap.IsRangeValid(address, width);
      if !valid {
        return InvalidParameter, false;
      }
      var ok, value;
      ok, value, waiting := console.keyboard.ReadHex(width * 2);
      if waiting {
        return Aborted, true;
      }
      if !ok {
        return Aborted, false;
      }
      var fits := FitsWidth(value, width);
      if !fits {
        return InvalidParameter, false;
      }
      status := memory.bridge.lib.MemWrite(address, width, value);
    }

    method GotoAddress() returns (status: Status, waiting: bool)
      requires Valid()
      modifies console.keyboard, state.cursor, state`needsRedraw
      ensures Valid() && Fw() == old(Fw())
      ensures var o := Session.GotoAddress(old(M()), old(console.keyboard.pending));
              && waiting == o.Blocked? && M() == o.machine
              && (o.Done? ==> status == o.status && console.keyboard.pending == o.rest)
    {
      hide HexPromptFrom;
      hide CoreMap;
      hide DecodeMap;
      hide EntriesReadable;
      var ok, address;
      ok, address, waiting := console.keyboard.ReadHex(16);
      if waiting {
        return Aborted, true;
      }
      if !ok {
        return Aborted, false;
      }
      PageSizeIsPow2();
      FloorBounds(address, PAGE_SIZE);
      state.cursor.address := AlignToPageBase(address, PAGE_SIZE);
      state.cursor.offset := address - state.cursor.address;
      state.MarkForRedraw();
      status := Success;
    }

    method PageUp() returns (status: Status)
      requires Valid()
      modifies state.cursor, state`needsRedraw
      ensures Valid() && Fw() == old(Fw()) && status == Success
      ensures M() == old(M()).(page := Session.PageUp(Fw(), old(M()).page))
    {
      hide LoopPrev;
      hide CoreMap;
      hide DecodeMap;
      hide EntriesReadable;
      PageSizeIsPow2();
      var prevAddress := state.addressMap.GetPreviousValidPageAddress(state.cursor.address, PAGE_SIZE);
      if prevAddress != state.cursor.address {
        var valid := state.addressMap.IsRangeValid(prevAddress, PAGE_SIZE);
        if valid {
          state.cursor.address := prevAddress;
          state.cursor.offset := 0;
          state.MarkForRedraw();
        }
      }
      status := Success;
    }

    method PageDown() returns (status: Status)
      requires Valid()
      modifies state.cursor, state`needsRedraw
      ensures Valid() && Fw() == old(Fw()) && status == Success
      ensures M() == old(M()).(page := Session.PageDown(Fw(), old(M()).page))
    {
      hide LoopNext;
      hide CoreMap;
      hide DecodeMap;
      hide EntriesReadable;
      PageSizeIsPow2();
      var nextAddress := state.addressMap.GetNextValidPageAddress(state.cursor.address, PAGE_SIZE);
      if nextAddress != state.cursor.address {
        var valid := state.addressMap.IsRangeValid(nextAddress, PAGE_SIZE);
        if valid {
          state.cursor.address := nextAddress;
          state.cursor.offset := 0;
          state.MarkForRedraw();
        }
      }
      status := Success;
    }

    /** The keys the range list takes: one after every sixteenth range, and one at the end. */
    method ShowRanges() returns (waiting: bool)
      requires Valid()
      modifies console.keyboard
      ensures Valid() && Fw() == old(Fw()) && M() == old(M())
      ensures var rest := AfterRangeList(old(console.keyboard.pending), ListedRanges(Fw().descriptors) / 16);
              waiting == rest.None? && (!waiting ==> console.keyboard.pending == rest.value)
    {
      hide DecodeMap;
      hide CoreMap;
      hide EntriesReadable;
      hide ListedRanges;
      var lib := memory.bridge.lib;
      ghost var ds, keys := lib.Descriptors(), console.keyboard.pending;
      ghost var total := ListedRanges(ds);
      var count := lib.DescriptorCount();
      var printed := 0;
      NoRangesListed(ds);
      ListedRangesGrow(ds, 0);
      for index := 0 to count
        modifies console.keyboard
        invariant printed == ListedRanges(ds[..index]) <= total
        invariant AfterRangeList(keys, total / 16) == AfterRangeList(console.keyboard.pending, total / 16 - printed / 16)
      {
        var desc := lib.DescriptorAt(index);
        ListedRangesStep(ds, index);
        if desc.pages == 0 {
          continue;
        }
        printed := printed + 1;
        if printed % 16 == 0 {
          var key, none := console.keyboard.ReadKey();
          if none {
            return true;
          }
          if key.scanCode == SCAN_ESC {
            return false;
          }
        }
      }
      assert ds[..count] == ds && printed == total;
      var _, none := console.keyboard.ReadKey();
      waiting := none;
    }

    // ------------------------------------------------------------------ start-up

    method Init() returns (status: Status)
      requires memory.Valid() && console.Valid() && state.addressMap.Valid()
      modifies memory, memory.gCoreDescriptors, memory.bridge, memory.bridge.gBridgeDescriptors
      modifies state, state.cursor, state.addressMap
      ensures memory.Valid() && Fw() == old(Fw())
      ensures status == if |Fw().descriptors| > 0 then Success else NotFound
      ensures status == Success ==> Valid() && state.View() == InitialPage(Fw())
    {
      hide CoreMap;
      hide TypeAt;
      hide QueryAccess;
      hide DecodeMap;
      hide EntriesReadable;
      hide CoreFirstValid;
      status := memory.Init();
      if status != Success {
        return;
      }
      CoreMapNonempty(memory.bridge.lib.Descriptors());
      var ok := state.addressMap.Init(memory.gCoreDescriptors, memory.gCoreDescriptorCount);
      if !ok {
        return InvalidParameter;
      }
      var firstAddress := state.addressMap.GetFirstValidAddress();
      state.InitPageState(firstAddress);
      UpdatePageType();
    }

    // ------------------------------------------------------------- key dispatch

    ghost function Current(): Scene
      requires memory.Valid()
      reads state, state.cursor
      reads memory, memory.bridge, memory.bridge.lib, memory.bridge.lib.gMemMap, memory.bridge.lib.ram
    {
      SceneOf(state, memory)
    }

    /** Move the cursor inside the page and repaint only what the move affects. */
    method MoveAndRepaint(delta: int, ghost stale: Option<nat>, ghost back: nat)
      requires Valid() && Ready(state.View()) && console.attribute == NORMAL
      modifies state`needsRedraw, state.cursor
      modifies console`attribute, console`column, console`row, console.grid
      ensures Valid() && Fw() == old(Fw()) && console.attribute == NORMAL
      ensures var p := old(M()).page;
              var moved := MoveCursor(p.cursor, delta);
              M() == old(M()).(page :=
                p.(cursor := moved, needsRedraw := p.needsRedraw && moved.offset == p.cursor.offset))
      ensures CursorMoved(old(Current()), Current())
      ensures old(StaleOk(Current(), stale) && ShowsExcept(console, Current(), stale, back)) ==>
                ShowsExcept(console, Current(), NextStale(old(Current()), Current(), stale), back)
    {
      hide MoveCursor;
      hide EntriesReadable;
      hide DecodeMap;
      hide CoreMap;
      hide GlyphAt;
      hide FastPathExact;
      hide StaleGlyph;
      ghost var s := Current();
      var oldOffset := state.cursor.offset;
      MoveCursorAligns(state.cursor.View(), delta);
      var newOffset := state.cursor.Move(delta);
      ghost var t := Current();
      if newOffset != oldOffset {
        Repaint(oldOffset, s, t, stale, back);
        state.needsRedraw := false;
        StaleDespiteFlag(s, t, Current(), stale);
        FlagInvisible(t, Current(), NextStale(s, t, stale));
      } else {
        assert t == s;
      }
    }

    /** Repaint the old cell, the new cell and the info row. */
    method RepaintCells(oldOffset: u64, ghost s: Scene, ghost t: Scene)
      requires console.Valid() && Looks(state, memory, t) && console.attribute == NORMAL
      requires CursorMoved(s, t) && oldOffset == s.page.cursor.offset
      modifies console`attribute, console`column, console`row, console.grid
      ensures console.attribute == NORMAL && Looks(state, memory, t)
      ensures forall r, c :: 0 <= r < console.rows && 0 <= c < console.columns ==>
                console.grid[r, c] == RepaintOver(s, t, r, c, old(console.grid[r, c]))
    {
      hide CellText;
      hide InfoLine;
      hide DecodeMap;
      hide CoreMap;
      hide EntriesReadable;
      assert t.page == state.View();
      DrawCell(console, memory, state, oldOffset, false, t);
      DrawCell(console, memory, state, state.cursor.offset, true, t);
      UpdateInfo(console, state);
    }

    /** What that does to a screen that was right but for a stale cell. */
    method Repaint(oldOffset: u64, ghost s: Scene, ghost t: Scene, ghost stale: Option<nat>, ghost back: nat)
      requires console.Valid() && Looks(state, memory, t) && console.attribute == NORMAL
      requires CursorMoved(s, t) && oldOffset == s.page.cursor.offset && oldOffset != t.page.cursor.offset
      modifies console`attribute, console`column, console`row, console.grid
      ensures console.attribute == NORMAL && Looks(state, memory, t)
      ensures StaleOk(s, stale) && old(ShowsExcept(console, s, stale, back)) ==>
                ShowsExcept(console, t, NextStale(s, t, stale), back)
    {
      hide RepaintOver;
      hide Backed;
      hide StaleGlyph;
      hide NextStale;
      hide DecodeMap;
      hide CoreMap;
      hide EntriesReadable;
      ghost var w, shown := t.page.cursor.width, StaleOk(s, stale) && ShowsExcept(console, s, stale, back);
      RepaintCells(oldOffset, s, t);
      if shown {
        forall r, c | 0 <= r < console.rows && 0 <= c < console.columns
          ensures console.grid[r, c] == Backed(w, back, r, c, StaleGlyph(t, NextStale(s, t, stale), r, c))
        {
          RepaintBackedStep(s, t, stale, back, r, c);
        }
      }
    }

    /** `stale` is the cell the screen shows wrongly, if any, and `back` the attribute it was cleared with. */
    method HandleKeyPress(key: Key, ghost stale: Option<nat>, ghost back: nat)
      returns (status: Status, waiting: bool)
      requires Valid() && Ready(state.View()) && console.attribute == NORMAL
      modifies state, state.cursor, memory.bridge.lib.ram
      modifies console`attribute, console`column, console`row, console.grid, console.keyboard
      ensures Valid() && Fw() == old(Fw()) && console.attribute == NORMAL
      ensures var o := HandleKey(Fw(), old(M()), key, old(console.keyboard.pending));
              && waiting == o.Blocked? && M() == o.machine
              && (o.Done? ==> status == o.status && console.keyboard.pending == o.rest)
      ensures !waiting && !state.needsRedraw && old(StaleOk(Current(), stale) && ShowsExcept(console, Current(), stale, back)) ==>
                var after := KeyStale(old(Current()), key, Current(), stale);
                StaleOk(Current(), after) && ShowsExcept(console, Current(), after, back)
    {
      hide Session.EditValue;
      hide Session.GotoAddress;
      hide Session.PageDown;
      hide Session.PageUp;
      hide Session.ShowRanges;
      hide Relook;
      hide Back;
      hide In;
      hide SetCursorWidth;
      hide MoveCursor;
      hide FastPathExact;
      hide GlyphAt;
      hide EntriesReadable;
      hide DecodeMap;
      hide CoreMap;
      var oldPageAddress := state.cursor.address;
      waiting := false;
      var delta: int := 0;
      if key.scanCode == SCAN_UP {
        delta := -(COLS / state.cursor.width);
      } else if key.scanCode == SCAN_DOWN {
        delta := COLS / state.cursor.width;
      } else if key.scanCode == SCAN_LEFT {
        delta := -1;
      } else if key.scanCode == SCAN_RIGHT {
        delta := 1;
      } else if key.scanCode == SCAN_ESC {
        return Aborted, false;
      }
      if delta != 0 {
        ghost var s := Current();
        MoveAndRepaint(delta, stale, back);
        if StaleOk(s, stale) {
          StaleStaysOk(s, Current(), stale);
        }
        return Success, false;
      }
      ChangesAreRedrawn(Fw(), M(), key, console.keyboard.pending);
      status, waiting := HandleCommand(key, oldPageAddress);
    }

    /** The command keys: every key but the arrows and Escape. */
    method HandleCommand(key: Key, oldPageAddress: u64) returns (status: Status, waiting: bool)
      requires Valid() && Ready(state.View()) && oldPageAddress == state.cursor.address
      requires !IsArrow(key) && key.scanCode != SCAN_ESC
      modifies state, state.cursor, memory.bridge.lib.ram, console.keyboard
      ensures Valid() && Fw() == old(Fw())
      ensures var o := HandleKey(Fw(), old(M()), key, old(console.keyboard.pending));
              && waiting == o.Blocked? && M() == o.machine
              && (o.Done? ==> status == o.status && console.keyboard.pending == o.rest)
    {
      hide Session.EditValue;
      hide Session.GotoAddress;
      hide Session.PageDown;
      hide Session.PageUp;
      hide Refreshed;
      hide Back;
      hide In;
      hide SetCursorWidth;
      hide Relook;
      hide Session.ShowRanges;
      hide AfterRangeList;
      hide EntriesReadable;
      hide DecodeMap;
      hide CoreMap;
      waiting := false;
      if key.unicodeChar == 'e' || key.unicodeChar == 'E' {
        status, waiting := EditCommand();
      } else if key.unicodeChar == 'g' || key.unicodeChar == 'G' {
        status, waiting := GotoCommand(oldPageAddress);
      } else if key.unicodeChar == 'n' || key.unicodeChar == 'N' {
        status := PageCommand(true, oldPageAddress);
      } else if key.unicodeChar == 'p' || key.unicodeChar == 'P' {
        status := PageCommand(false, oldPageAddress);
      } else if key.unicodeChar == 'r' || key.unicodeChar == 'R' {
        status, waiting := RangesCommand();
      } else if key.unicodeChar in "1248" {
        status := WidthCommand(KeyWidth(key.unicodeChar));
      } else {
        status := NotFound;
      }
    }

    /** One turn of the run loop: redraw when needed, read a key, handle it. */
    method Turn(ghost stale: Option<nat>, ghost back: nat) returns (waiting: bool, left: bool, ghost behind: nat)
      requires Valid() && Ready(state.View()) && (state.needsRedraw || console.attribute == NORMAL)
      modifies state, state.cursor, memory.bridge.lib.ram
      modifies console`attribute, console`column, console`row, console.grid, console.keyboard
      ensures Valid() && Fw() == old(Fw()) && console.attribute == NORMAL
      ensures old(console.keyboard.pending) == [] ==> waiting && !left && M() == Drawn(old(M()))
      ensures old(console.keyboard.pending) != [] ==>
                var keys := old(console.keyboard.pending);
                var o := HandleKey(Fw(), Drawn(old(M())), keys[0], keys[1..]);
                && waiting == o.Blocked? && M() == o.machine
                && left == (o.Done? && o.status == Aborted && keys[0].scanCode == SCAN_ESC)
                && (o.Done? ==> console.keyboard.pending == o.rest)
      ensures behind == if old(state.needsRedraw) then old(console.attribute) else back
      ensures old(state.needsRedraw || (StaleOk(Current(), stale) && ShowsExcept(console, Current(), stale, back))) ==>
                var now := if old(state.needsRedraw) then None else stale;
                if old(console.keyboard.pending) == [] then
                  StaleOk(Current(), now) && ShowsExcept(console, Current(), now, behind)
                else
                  var key := old(console.keyboard.pending)[0];
                  var after := KeyStale(SceneAt(Fw(), Drawn(old(M()))), key, Current(), now);
                  !waiting && !state.needsRedraw ==>
                    StaleOk(Current(), after) && ShowsExcept(console, Current(), after, behind)
    {
      hide HandleKey;
      hide KeyStale;
      hide GlyphAt;
      hide StaleGlyph;
      hide EntriesReadable;
      hide DecodeMap;
      hide CoreMap;
      left := false;
      behind := back;
      ghost var now := stale;
      if state.needsRedraw {
        ghost var s := Current();
        behind := console.attribute;
        DrawPage(console, memory, state, s);
        state.needsRedraw := false;
        NothingStale(console, s, behind);
        FlagInvisible(s, Current(), None);
        now := None;
      }
      var key, none := console.keyboard.ReadKey();
      if none {
        return true, false, behind;
      }
      var status;
      status, waiting := HandleKeyPress(key, now, behind);
      left := !waiting && status == Aborted && key.scanCode == SCAN_ESC;
    }

    /**
      The whole session. Errors of single actions are reported and do not end it; it ends with
      Escape, or waits when no further key arrives. `back` is the attribute the screen was last
      cleared with: the one the console had before the session, and the normal one from the
      second full redraw on.
     */
    method Run() returns (status: Status, waiting: bool, ghost back: nat)
      requires memory.Valid() && console.Valid() && state.addressMap.Valid()
      modifies memory, memory.gCoreDescriptors, memory.bridge, memory.bridge.gBridgeDescriptors
      modifies state, state.cursor, state.addressMap, memory.bridge.lib.ram
      modifies console`attribute, console`column, console`row, console.grid, console.keyboard
      ensures memory.Valid() && console.Valid() && Fw() == old(Fw())
      ensures back == NORMAL || back == old(console.attribute)
      ensures |Fw().descriptors| == 0 ==>
                status == NotFound && !waiting && memory.bridge.lib.ram[..] == old(memory.bridge.lib.ram[..])
      ensures |Fw().descriptors| > 0 ==>
                var first := Machine(InitialPage(Fw()), old(memory.bridge.lib.ram[..]));
                var keys := old(console.keyboard.pending);
                var r := Session.Run(Fw(), first, keys);
                && status == Success && Valid()
                && M() == r.machine && waiting == !r.Left?
                && WellPlaced(state.View()) && Coherent(Fw(), state.View())
                && (!r.Prompting? ==>
                      var stale := StaleAfter(Fw(), first, keys, None);
                      && ShowsExcept(console, Current(), stale, back)
                      && (Shows(console, Current(), back) <==> stale == None))
      ensures forall x: u64 :: Protected(Fw(), x) ==> memory.bridge.lib.ram[x] == old(memory.bridge.lib.ram[x])
      ensures Silent(Fw()) ==> memory.bridge.lib.ram[..] == old(memory.bridge.lib.ram[..])
    {
      hide HandleKey;
      hide KeyStale;
      hide StaleAfter;
      hide StaleGlyph;
      hide GlyphAt;
      hide EntriesReadable;
      hide DecodeMap;
      hide CoreMap;
      hide InitialPage;
      hide Protected;
      hide Silent;
      hide WellPlaced;
      hide Coherent;
      hide Session.Run;
      ghost var fw, ram, keys := Fw(), memory.bridge.lib.ram[..], console.keyboard.pending;
      waiting := false;
      back := console.attribute;
      status := Init();
      if status != Success {
        return;
      }
      ghost var first := Machine(InitialPage(fw), ram);
      assert M() == first;
      ghost var r, last := Session.Run(fw, first, keys), StaleAfter(fw, first, keys, None);
      SessionIsSafe(fw, ram, keys);
      if Silent(fw) {
        SilentRunKeepsMemory(fw, first, keys);
      }
      var left := false;
      ghost var stale: Option<nat> := None;
      while !waiting && !left
        invariant Valid() && Fw() == fw && (console.attribute == NORMAL || console.attribute == old(console.attribute))
        invariant back == NORMAL || back == old(console.attribute)
        invariant !(waiting && left)
        invariant !waiting && !left ==>
          && Ready(state.View()) && Session.Run(fw, M(), console.keyboard.pending) == r
          && StaleAfter(fw, M(), console.keyboard.pending, stale) == last
          && (state.needsRedraw || console.attribute == NORMAL)
          && (state.needsRedraw || (StaleOk(Current(), stale) && ShowsExcept(console, Current(), stale, back)))
        invariant waiting || left ==> M() == r.machine && left == r.Left?
        invariant (waiting && r.Idle?) || left ==> StaleOk(Current(), last) && ShowsExcept(console, Current(), last, back)
        decreases if waiting || left then 0 else |console.keyboard.pending| + 1
      {
        RunStep(fw, M(), console.keyboard.pending, stale);
        ghost var m, pending := M(), console.keyboard.pending;
        waiting, left, back := Turn(stale, back);
        if pending != [] && !waiting {
          stale := KeyStale(SceneAt(fw, Drawn(m)), pending[0], Current(), if m.page.needsRedraw then None else stale);
        }
      }
      if !r.Prompting? {
        StaleVerdict(console, Current(), last, back);
      }
    }

    method EditCommand() returns (status: Status, waiting: bool)
      requires Valid()
      modifies state`currentState, state`needsRedraw, console.keyboard, memory.bridge.lib.ram
      ensures Valid() && Fw() == old(Fw())
      ensures var o := Back(Session.EditValue(Fw(), In(old(M()), Editing), old(console.keyboard.pending)));
              && waiting == o.Blocked? && M() == o.machine
              && (o.Done? ==> status == o.status && console.keyboard.pending == o.rest)
    {
      hide Session.EditValue;
      hide CoreMap;
      hide DecodeMap;
      hide EntriesReadable;
      state.TransitionState(Editing);
      status, waiting := EditValue();
      if !waiting {
        state.TransitionState(Viewing);
        state.MarkForRedraw();
      }
    }

    method GotoCommand(oldPageAddress: u64) returns (status: Status, waiting: bool)
      requires Valid() && state.currentState == Viewing
      modifies state, state.cursor, console.keyboard
      ensures Valid() && Fw() == old(Fw())
      ensures var o := Relook(Fw(), oldPageAddress,
                              Back(Session.GotoAddress(In(old(M()), Goto), old(console.keyboard.pending))));
              && waiting == o.Blocked? && M() == o.machine
              && (o.Done? ==> status == o.status && console.keyboard.pending == o.rest)
    {
      hide Session.GotoAddress;
      hide Refreshed;
      hide CoreMap;
      hide DecodeMap;
      hide EntriesReadable;
      state.TransitionState(Goto);
      assert state.currentState == Goto;
      status, waiting := GotoAddress();
      GotoKeepsMode(In(old(M()), Goto), old(console.keyboard.pending));
      if !waiting {
        state.TransitionState(Viewing);
        if status == Success && state.cursor.address != oldPageAddress {
          UpdatePageType();
        }
      }
    }

    method PageCommand(down: bool, oldPageAddress: u64) returns (status: Status)
      requires Valid() && Ready(state.View())
      modifies state`needsRedraw, state`pageUefiMemoryType, state`pageHasMemoryDescriptor, state`pageAccess, state.cursor
      ensures Valid() && Fw() == old(Fw())
      ensures var p := old(M()).page;
              var moved := if down then Session.PageDown(Fw(), p) else Session.PageUp(Fw(), p);
              var keys := console.keyboard.pending;
              var o := Relook(Fw(), oldPageAddress, Done(Success, old(M()).(page := moved), keys));
              o == Done(status, M(), keys)
    {
      hide Session.PageDown;
      hide Session.PageUp;
      hide Refreshed;
      hide EntriesReadable;
      hide DecodeMap;
      hide CoreMap;
      if down {
        status := PageDown();
      } else {
        status := PageUp();
      }
      RelookAfter(oldPageAddress);
    }

    method RangesCommand() returns (status: Status, waiting: bool)
      requires Valid()
      modifies state`needsRedraw, console.keyboard
      ensures Valid() && Fw() == old(Fw())
      ensures var o := Session.ShowRanges(Fw(), old(M()), old(console.keyboard.pending));
              && waiting == o.Blocked? && M() == o.machine
              && (o.Done? ==> status == o.status && console.keyboard.pending == o.rest)
    {
      hide AfterRangeList;
      hide EntriesReadable;
      hide DecodeMap;
      hide CoreMap;
      waiting := ShowRanges();
      status := Success;
      if !waiting {
        state.MarkForRedraw();
      }
    }

    method WidthCommand(width: u64) returns (status: Status)
      requires Valid() && Ready(state.View()) && SupportedWidth(width)
      modifies state`needsRedraw, state.cursor
      ensures Valid() && Fw() == old(Fw()) && status == Success
      ensures var p := old(M()).page;
              M() == old(M()).(page := p.(cursor := SetCursorWidth(p.cursor, width), needsRedraw := true))
    {
      hide EntriesReadable;
      hide DecodeMap;
      hide CoreMap;
      SetCursorWidthAligns(state.cursor.View(), width);
      hide SetCursorWidth;
      state.cursor.SetWidth(width);
      state.MarkForRedraw();
      status := Success;
    }

    method RelookAfter(oldPageAddress: u64)
      requires Valid()
      modifies state`pageUefiMemoryType, state`pageHasMemoryDescriptor, state`pageAccess
      ensures Valid() && Fw() == old(Fw())
      ensures M() == Relook(Fw(), oldPageAddress, Done(Success, old(M()), [])).machine
    {
      hide Refreshed;
      if state.cursor.address != oldPageAddress {
        UpdatePageType();
      }
    }
  }

  lemma GotoKeepsMode(m: Machine, keys: seq<Key>)
    ensures Session.GotoAddress(m, keys).machine.page.mode == m.page.mode
  {
  }

  lemma CoreMapNonempty(ds: seq<Descriptor>)
    requires |ds| > 0
    ensures |CoreMap(ds)| > 0
  {
  }

  /** The screen, cleared with attribute `back`, shows the picture, except for a stale cell. */
  ghost predicate ShowsExcept(console: Console, s: Scene, stale: Option<nat>, back: nat)
    requires console.Valid() && SupportedWidth(s.page.cursor.width)
    reads console, console.grid
  {
    forall r, c :: 0 <= r < console.rows && 0 <= c < console.columns ==>
      console.grid[r, c] == Backed(s.page.cursor.width, back, r, c, StaleGlyph(s, stale, r, c))
  }

  lemma NothingStale(console: Console, s: Scene, back: nat)
    requires console.Valid() && SupportedWidth(s.page.cursor.width)
    ensures ShowsExcept(console, s, None, back) <==> Shows(console, s, back)
  {
    hide GlyphAt;
    hide Inked;
  }

  /** A screen that is right except for a stale cell shows the picture if and only if there is none. */
  lemma StaleVerdict(console: Console, s: Scene, stale: Option<nat>, back: nat)
    requires console.Valid() && StaleOk(s, stale) && ShowsExcept(console, s, stale, back)
    ensures Shows(console, s, back) <==> stale == None
  {
    hide GlyphAt;
    hide Inked;
    if stale.None? {
      NothingStale(console, s, back);
    } else {
      hide StaleGlyph;
      var w, cell := s.page.cursor.width, stale.value;
      StaleIsVisible(s, cell);
      CellOnScreen(w, cell);
      assert console.grid[CellRow(cell), CellColumn(w, cell)] != GlyphAt(s, CellRow(cell), CellColumn(w, cell));
    }
  }

  /** The redraw flag is not part of the picture. */
  lemma FlagInvisible(t: Scene, u: Scene, stale: Option<nat>)
    requires u.fw == t.fw && u.mem == t.mem && u.page == t.page.(needsRedraw := u.page.needsRedraw)
    requires SupportedWidth(t.page.cursor.width)
    ensures forall r: nat, c: nat :: StaleGlyph(u, stale, r, c) == StaleGlyph(t, stale, r, c)
  {
    hide GlyphAt;
    forall r: nat, c: nat
      ensures StaleGlyph(u, stale, r, c) == StaleGlyph(t, stale, r, c)
    {
      FlagInvisibleAt(t, u, r, c);
    }
  }

  lemma SameTexts(t: Scene, u: Scene, offset: nat)
    requires u.fw == t.fw && u.mem == t.mem && u.page == t.page.(needsRedraw := u.page.needsRedraw)
    ensures CellText(u, offset) == CellText(t, offset) && PreviewText(u, offset) == PreviewText(t, offset)
  {
    hide ShownValue;
    assert OffsetAddress(u, offset) == OffsetAddress(t, offset);
    forall i | 0 <= i < COLS
      ensures PreviewText(u, offset)[i] == PreviewText(t, offset)[i]
    {
      assert OffsetAddress(u, offset + i) == OffsetAddress(t, offset + i);
      assert PreviewChar(u, offset + i) == PreviewChar(t, offset + i);
    }
  }

  lemma FlagInvisibleAt(t: Scene, u: Scene, r: nat, c: nat)
    requires u.fw == t.fw && u.mem == t.mem && u.page == t.page.(needsRedraw := u.page.needsRedraw)
    requires SupportedWidth(t.page.cursor.width)
    ensures GlyphAt(u, r, c) == GlyphAt(t, r, c)
  {
    hide CellText;
    hide PreviewText;
    hide HeaderGlyph;
    if InData(r) {
      SameTexts(t, u, (r - DATA_ROW) * COLS);
      if InCells(t.page.cursor.width, c) {
        CellAtBounds(t.page.cursor.width, r, c);
        SameTexts(t, u, CellAt(t.page.cursor.width, r, c));
      }
    }
  }

  lemma StaleDespiteFlag(s: Scene, t: Scene, u: Scene, stale: Option<nat>)
    requires CursorMoved(s, t)
    requires u.fw == t.fw && u.mem == t.mem && u.page == t.page.(needsRedraw := u.page.needsRedraw)
    ensures CursorMoved(s, u) && NextStale(s, u, stale) == NextStale(s, t, stale)
  {
    hide CellValue;
  }

  lemma CellOnScreen(width: nat, cell: nat)
    requires SupportedWidth(width) && cell < PAGE_SIZE && cell % width == 0
    ensures CellRow(cell) < INFO_ROW && CellColumn(width, cell) < DEFAULT_COLUMNS
  {
    OneCellPerPosition(width, cell, CellRow(cell), CellColumn(width, cell));
    CellInRowBounds(width, CellColumn(width, cell));
  }

  lemma {:induction false} ListedRangesGrow(ds: seq<Descriptor>, n: nat)
    requires n <= |ds|
    ensures ListedRanges(ds[..n]) <= ListedRanges(ds)
    decreases |ds| - n
  {
    if n < |ds| {
      assert ds[..n + 1][..n] == ds[..n];
      ListedRangesGrow(ds, n + 1);
    } else {
      assert ds[..n] == ds;
    }
  }

  lemma NoRangesListed(ds: seq<Descriptor>)
    ensures ListedRanges(ds[..0]) == 0
  {
  }

  lemma ListedRangesStep(ds: seq<Descriptor>, n: nat)
    requires n < |ds|
    ensures ListedRanges(ds[..n + 1]) == ListedRanges(ds[..n]) + if ds[n].pages != 0 then 1 else 0
    ensures ListedRanges(ds[..n + 1]) <= ListedRanges(ds)
  {
    assert ds[..n + 1][..n] == ds[..n];
    ListedRangesGrow(ds, n + 1);
  }

  /** One turn of a run. */
  lemma RunStep(fw: Firmware, m: Machine, keys: seq<Key>, stale: Option<nat>)
    requires Ready(m.page)
    ensures var now := if m.page.needsRedraw then None else stale;
            if keys == [] then
              Session.Run(fw, m, keys) == Idle(Drawn(m)) && StaleAfter(fw, m, keys, stale) == now
            else
              var o := HandleKey(fw, Drawn(m), keys[0], keys[1..]);
              if o.Blocked? then Session.Run(fw, m, keys) == Prompting(o.machine)
              else
                && Ready(o.machine.page) && |o.rest| < |keys|
                && if o.status == Aborted && keys[0].scanCode == SCAN_ESC then
                     && Session.Run(fw, m, keys) == Left(o.machine) && StaleAfter(fw, m, keys, stale) == now
                     && !o.machine.page.needsRedraw
                     && KeyStale(SceneAt(fw, Drawn(m)), keys[0], SceneAt(fw, o.machine), now) == now
                   else
                     && Session.Run(fw, m, keys) == Session.Run(fw, o.machine, o.rest)
                     && StaleAfter(fw, m, keys, stale) ==
                          StaleAfter(fw, o.machine, o.rest,
                                     KeyStale(SceneAt(fw, Drawn(m)), keys[0], SceneAt(fw, o.machine), now))
  {
    if keys != [] {
      if keys[0].scanCode == SCAN_ESC {
        EscapeChangesNothing(fw, Drawn(m), keys[0], keys[1..], if m.page.needsRedraw then None else stale);
      }
      HandleKeyKeepsReady(fw, Drawn(m), keys[0], keys[1..]);
    }
    hide HandleKey;
    hide KeyStale;
  }

  lemma EscapeChangesNothing(fw: Firmware, m: Machine, key: Key, keys: seq<Key>, stale: Option<nat>)
    requires SupportedWidth(m.page.cursor.width) && key.scanCode == SCAN_ESC
    ensures HandleKey(fw, m, key, keys) == Done(Aborted, m, keys)
    ensures KeyStale(SceneAt(fw, m), key, SceneAt(fw, m), stale) == stale
  {
  }
}
