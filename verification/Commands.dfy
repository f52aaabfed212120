/**
  What every key does to a session, told by scan codes, characters and the keys typed
  after it: cursor moves, widths, page keys, Goto, edits, the range list and Escape.
 */
module Commands {
  import opened Words
  import opened MemoryMap
  import opened PhysicalMemory
  import opened AccessPolicy
  import opened AddressMap
  import opened Navigation
  import opened Adapters
  import opened Text
  import opened HexInput
  import opened Session
  import opened Picture

  /** The machine with a redraw scheduled. */
  function Marked(m: Machine): Machine {
    m.(page := m.page.(needsRedraw := true))
  }

  // ------------------------------------------------------------------ the arrows

  /** Where the arrow keys point: Up, Down, Right and Left have the scan codes 1 to 4. */
  function ArrowTarget(scanCode: nat, offset: u64, width: u64): int
    requires 1 <= scanCode <= 4
  {
    if scanCode == 1 then offset - 16
    else if scanCode == 2 then offset + 16
    else if scanCode == 3 then offset + width
    else offset - width
  }

  /**
    From any offset an arrow selects the cell that holds its target, the first or the last
    cell when the target is outside the page; it changes nothing else but the redraw flag.
   */
  lemma ArrowKeys(fw: Firmware, m: Machine, key: Key, keys: seq<Key>)
    requires Ready(m.page) && 1 <= key.scanCode <= 4
    ensures var c, o := m.page.cursor, HandleKey(fw, m, key, keys);
            var target := ArrowTarget(key.scanCode, c.offset, c.width);
            var held := if target < 0 then 0 else if target > 256 - c.width then 256 - c.width else target;
            && o == Done(Success, o.machine, keys)
            && o.machine == m.(page := m.page.(cursor := o.machine.page.cursor,
                                               needsRedraw := m.page.needsRedraw && o.machine.page.cursor == c))
            && o.machine.page.cursor == c.(offset := o.machine.page.cursor.offset)
            && o.machine.page.cursor.offset == held - held % c.width
  {
    hide MoveCursor;
    var c := m.page.cursor;
    var delta := ArrowDelta(key, c.width);
    assert c.offset + delta * c.width == ArrowTarget(key.scanCode, c.offset, c.width) by {
      ArrowSteps(key, c.width);
    }
    MoveCursorRounds(c, delta);
  }

  lemma ArrowSteps(key: Key, width: u64)
    requires SupportedWidth(width)
    ensures key.scanCode == 1 ==> ArrowDelta(key, width) * width == -16
    ensures key.scanCode == 2 ==> ArrowDelta(key, width) * width == 16
    ensures key.scanCode == 3 ==> ArrowDelta(key, width) * width == width
    ensures key.scanCode == 4 ==> ArrowDelta(key, width) * width == 0 - width
  {
  }

  /** From a whole cell Up and Down keep the column and change the row by one, Right and Left go to the adjacent cell. */
  lemma ArrowsFromWholeCell(fw: Firmware, m: Machine, key: Key, keys: seq<Key>)
    requires Ready(m.page) && CellAligned(m.page.cursor) && 1 <= key.scanCode <= 4
    ensures var c, o := m.page.cursor, HandleKey(fw, m, key, keys);
            var w, offset := c.width, o.machine.page.cursor.offset;
            && (key.scanCode == 1 && c.offset >= 16 ==>
                  offset == c.offset - 16 && CellRow(offset) == CellRow(c.offset) - 1 &&
                  CellColumn(w, offset) == CellColumn(w, c.offset))
            && (key.scanCode == 2 && c.offset < 240 ==>
                  offset == c.offset + 16 && CellRow(offset) == CellRow(c.offset) + 1 &&
                  CellColumn(w, offset) == CellColumn(w, c.offset))
            && (key.scanCode == 3 && c.offset + w < 256 ==> offset == c.offset + w)
            && (key.scanCode == 4 && c.offset > 0 ==> offset == c.offset - w)
  {
    hide HandleKey;
    hide CellAligned;
    var c := m.page.cursor;
    ArrowKeys(fw, m, key, keys);
    if TargetInside(key.scanCode, c) {
      WholeTarget(key.scanCode, c);
    }
    if key.scanCode == 1 && c.offset >= 16 {
      SameColumn(c.offset - 16);
    }
    SameColumn(c.offset);
  }

  /** The row or the cell an arrow points to exists. */
  predicate TargetInside(scanCode: nat, c: Cursor)
    requires 1 <= scanCode <= 4
  {
    if scanCode == 1 then c.offset >= 16
    else if scanCode == 2 then c.offset < 240
    else if scanCode == 3 then c.offset + c.width < 256
    else c.offset > 0
  }

  lemma WholeTarget(scanCode: nat, c: Cursor)
    requires 1 <= scanCode <= 4 && CellAligned(c) && TargetInside(scanCode, c)
    ensures var target := ArrowTarget(scanCode, c.offset, c.width);
            target % c.width == 0 && 0 <= target <= 256 - c.width
  {
    var w, offset := c.width, c.offset;
    assert w % w == 0 && 16 % w == 0;
    if scanCode == 1 {
      RemainderOfSum(16, offset - 16, w);
    } else if scanCode == 2 {
      RemainderOfSum(offset, 16, w);
      AlignedCellFits(offset + 16, w);
    } else if scanCode == 3 {
      RemainderOfSum(offset, w, w);
      AlignedCellFits(offset + w, w);
    } else {
      MultipleGap(0, offset, w);
      RemainderOfSum(w, offset - w, w);
    }
  }

  lemma SameColumn(offset: nat)
    ensures (offset + COLS) / COLS == offset / COLS + 1 && (offset + COLS) % COLS == offset % COLS
  {
  }

  // ------------------------------------------------------------ widths and letters

  /** The digits 1, 2, 4 and 8 set the width they name, on the cell that holds the selected byte. */
  lemma WidthKeys(fw: Firmware, m: Machine, key: Key, keys: seq<Key>)
    requires Ready(m.page) && IsWidthKey(key)
    ensures var c, w := m.page.cursor, key.unicodeChar as int - '0' as int;
            && w in {1, 2, 4, 8}
            && HandleKey(fw, m, key, keys) ==
                 Done(Success, Marked(m.(page := m.page.(cursor := Cursor(c.address, c.offset - c.offset % w, w)))), keys)
  {
    hide MaskDown;
    var c, w := m.page.cursor, key.unicodeChar as int - '0' as int;
    MaskIsFloor(c.offset, w);
    FloorBounds(c.offset, w);
  }

  /** Capital and small letters are the same command. */
  lemma CaseDoesNotMatter(fw: Firmware, m: Machine, scanCode: nat, letter: char, keys: seq<Key>)
    requires SupportedWidth(m.page.cursor.width) && 'A' <= letter <= 'Z'
    ensures HandleKey(fw, m, Key(scanCode, letter), keys) ==
              HandleKey(fw, m, Key(scanCode, (letter as int + 32) as char), keys)
  {
  }

  /** Escape and keys without a meaning change nothing and take no further key. */
  lemma OtherKeys(fw: Firmware, m: Machine, key: Key, keys: seq<Key>)
    requires SupportedWidth(m.page.cursor.width) && !(1 <= key.scanCode <= 4)
    ensures key.scanCode == 0x17 ==> HandleKey(fw, m, key, keys) == Done(Aborted, m, keys)
    ensures key.scanCode != 0x17 && key.unicodeChar !in "egnprEGNPR1248" ==>
              HandleKey(fw, m, key, keys) == Done(NotFound, m, keys)
  {
    var commands := "egnprEGNPR1248";
    assert commands[0] == 'e' && commands[1] == 'g' && commands[2] == 'n' && commands[3] == 'p' && commands[4] == 'r';
    assert commands[5] == 'E' && commands[6] == 'G' && commands[7] == 'N' && commands[8] == 'P' && commands[9] == 'R';
    assert commands[10] == '1' && commands[11] == '2' && commands[12] == '4' && commands[13] == '8';
  }

  // -------------------------------------------------------------------- page keys

  /** The page N should lead to: the next one the core can browse, or the current one when that is shadowed. */
  ghost function PageAfter(fw: Firmware, a: u64): nat {
    if ShadowsNext(CoreMap(fw.descriptors), PAGE_SIZE, a) then a
    else NextPage(ShiftedMap(CoreMap(fw.descriptors)), PAGE_SIZE, a)
  }

  /** And P. */
  ghost function PageBefore(fw: Firmware, a: u64): nat {
    if ShadowsPrev(CoreMap(fw.descriptors), PAGE_SIZE, a) then a
    else PrevPage(ShiftedMap(CoreMap(fw.descriptors)), PAGE_SIZE, a)
  }

  /**
    On any map N and P move to the nearest page the core can browse on their side, unless it is
    shadowed, and select its first cell; they keep the width and memory, and take no further key.
   */
  lemma PageKeysNavigate(fw: Firmware, m: Machine, key: Key, keys: seq<Key>)
    requires Ready(m.page) && (IsCommand(key, 'n', 'N') || IsCommand(key, 'p', 'P'))
    ensures var c, o := m.page.cursor, HandleKey(fw, m, key, keys);
            var page := if key.unicodeChar in {'n', 'N'} then PageAfter(fw, c.address) else PageBefore(fw, c.address);
            && o == Done(Success, o.machine, keys) && o.machine.mem == m.mem
            && (page == c.address ==> o.machine == m)
            && (page != c.address ==> o.machine.page.needsRedraw && o.machine.page.cursor.address == page &&
                                      o.machine.page.cursor.offset == 0 && o.machine.page.cursor.width == c.width)
  {
    hide HandleKey;
    hide CoreMap;
    hide ShiftedMap;
    hide ShadowsNext;
    hide ShadowsPrev;
    hide NextPage;
    hide PrevPage;
    hide Session.PageDown;
    hide Session.PageUp;
    hide Refreshed;
    hide Relook;
    PageKeyDispatch(fw, m, key, keys);
    PageDownIsExactIff(fw, m.page);
    PageUpIsExactIff(fw, m.page);
    PageKeyKeepsWidth(fw, m.page);
    var page := if IsCommand(key, 'n', 'N') then Session.PageDown(fw, m.page) else Session.PageUp(fw, m.page);
    RelookKeepsFlag(fw, m.page.cursor.address, Done(Success, m.(page := page), keys));
  }

  lemma RelookKeepsFlag(fw: Firmware, before: u64, o: Outcome)
    requires o.Done?
    ensures var r := Relook(fw, before, o);
            && r == Done(o.status, r.machine, o.rest) && r.machine.mem == o.machine.mem
            && r.machine.page.cursor == o.machine.page.cursor
            && r.machine.page.needsRedraw == o.machine.page.needsRedraw
            && (o.machine.page.cursor.address == before ==> r == o)
  {
  }

  lemma PageKeyKeepsWidth(fw: Firmware, p: Page)
    ensures var q := Session.PageDown(fw, p); q.cursor.width == p.cursor.width && (q != p ==> q.needsRedraw)
    ensures var q := Session.PageUp(fw, p); q.cursor.width == p.cursor.width && (q != p ==> q.needsRedraw)
  {
  }

  // --------------------------------------------------------------------- prompts

  /** The first of `keys` that ends a prompt is Escape, scan code 0x17, or Enter, and it is the one at `n`. */
  predicate EndsAt(keys: seq<Key>, n: nat) {
    n < |keys| && EndsPrompt(keys[n]) && forall i :: 0 <= i < n ==> !EndsPrompt(keys[i])
  }

  predicate NeverEnds(keys: seq<Key>) {
    forall i :: 0 <= i < |keys| ==> !EndsPrompt(keys[i])
  }

  predicate Escapes(k: Key) {
    k.scanCode == 0x17
  }

  /** The number typed before the key at `n`, of which at most `digits` digits count. */
  function Typed(keys: seq<Key>, n: nat, digits: nat): nat
    requires n <= |keys|
  {
    ParseHex(Surviving(keys[..n], digits))
  }

  lemma {:induction false} EndsOrNot(keys: seq<Key>)
    ensures NeverEnds(keys) || exists n :: EndsAt(keys, n)
  {
    if keys != [] {
      EndsOrNot(keys[..|keys| - 1]);
      var front := keys[..|keys| - 1];
      if NeverEnds(front) {
        if EndsPrompt(keys[|keys| - 1]) {
          assert EndsAt(keys, |keys| - 1);
        }
      } else {
        var n :| EndsAt(front, n);
        assert EndsAt(keys, n);
      }
    }
  }

  /** A prompt for up to 16 digits, told by the typed keys. */
  lemma PromptByKeys(keys: seq<Key>, n: nat, digits: nat)
    requires digits <= 16
    ensures NeverEnds(keys) ==> HexPrompt(keys, digits) == Waiting
    ensures EndsAt(keys, n) && Escapes(keys[n]) ==> HexPrompt(keys, digits) == Cancelled(keys[n + 1..])
    ensures EndsAt(keys, n) && !Escapes(keys[n]) ==>
              Typed(keys, n, digits) <= MAX_UINT64 &&
              HexPrompt(keys, digits) == Entered(Typed(keys, n, digits), keys[n + 1..])
  {
    if NeverEnds(keys) {
      PromptMeaning(keys, ENTER_KEY, [], digits);
    }
    if EndsAt(keys, n) {
      var typed, rest := keys[..n], keys[n + 1..];
      assert typed + [keys[n]] + rest == keys;
      PromptMeaning(typed, keys[n], rest, digits);
      ParseHexBound(Surviving(typed, digits));
      Pow16Monotone(|Surviving(typed, digits)|, 16);
      Pow16IsPow256(8);
      Pow256Values();
    }
  }

  // ----------------------------------------------------------------------- goto

  predicate IsGoto(key: Key) {
    IsCommand(key, 'g', 'G')
  }

  /** G and Enter go to the typed address with the width kept, G and Escape nowhere; memory stays, and no key is lost. */
  lemma GotoByKeys(fw: Firmware, m: Machine, key: Key, keys: seq<Key>, n: nat)
    requires Ready(m.page) && IsGoto(key)
    ensures NeverEnds(keys) ==>
              HandleKey(fw, m, key, keys) == Blocked(Marked(m.(page := m.page.(mode := Goto))))
    ensures EndsAt(keys, n) && Escapes(keys[n]) ==>
              HandleKey(fw, m, key, keys) == Done(Aborted, Marked(m), keys[n + 1..])
    ensures EndsAt(keys, n) && !Escapes(keys[n]) ==>
              var o, v := HandleKey(fw, m, key, keys), Typed(keys, n, 16);
              && o.Done? && o.status == Success && o.rest == keys[n + 1..] && o.machine.mem == m.mem
              && v < TWO64 && o.machine.page.cursor == Cursor(v - v % 256, v % 256, m.page.cursor.width)
              && o.machine.page.mode == Viewing && o.machine.page.needsRedraw
  {
    PromptByKeys(keys, n, 16);
    if EndsAt(keys, n) {
      FloorBounds(Typed(keys, n, 16), PAGE_SIZE);
    }
    hide HexPrompt;
    hide Typed;
    hide EndsAt;
    hide NeverEnds;
    hide Refreshed;
  }

  // ----------------------------------------------------------------------- edits

  predicate IsEdit(key: Key) {
    IsCommand(key, 'e', 'E')
  }

  /** The selected cell is whole and the core can browse it. */
  predicate Editable(fw: Firmware, c: Cursor)
    requires SupportedWidth(c.width)
  {
    c.offset % c.width == 0 && c.address + c.offset < TWO64 &&
    CoreRangeOk(CoreMap(fw.descriptors), c.address + c.offset, c.width)
  }

  /** E on a misaligned or unbrowsable cell is refused: no key is taken, and memory and cursor stay. */
  lemma RefusedEdit(fw: Firmware, m: Machine, key: Key, keys: seq<Key>)
    requires Ready(m.page) && IsEdit(key) && !Editable(fw, m.page.cursor)
    ensures HandleKey(fw, m, key, keys) == Done(InvalidParameter, Marked(m), keys)
  {
    hide CoreRangeOk;
    hide CoreMap;
    hide HexPrompt;
    CurrentAddressSplits(m.page.cursor);
  }

  /**
    E on an editable cell: without Enter nothing is written; Enter stores the typed number, at
    most two digits a byte, little-endian at the current address when the write is permitted.
   */
  lemma EditByKeys(fw: Firmware, m: Machine, key: Key, keys: seq<Key>, n: nat)
    requires Ready(m.page) && IsEdit(key) && Editable(fw, m.page.cursor)
    ensures NeverEnds(keys) ==>
              HandleKey(fw, m, key, keys) == Blocked(Marked(m.(page := m.page.(mode := Editing))))
    ensures EndsAt(keys, n) && Escapes(keys[n]) ==>
              HandleKey(fw, m, key, keys) == Done(Aborted, Marked(m), keys[n + 1..])
    ensures EndsAt(keys, n) && !Escapes(keys[n]) ==>
              var c, o := m.page.cursor, HandleKey(fw, m, key, keys);
              var a, w := c.address + c.offset, c.width;
              && o.Done? && o.rest == keys[n + 1..] && o.machine.page == Marked(m).page
              && (o.status == Success <==> CanWrite(fw, a, w))
              && (o.status != Success ==> o.status == AccessDenied && o.machine.mem == m.mem)
              && (o.status == Success ==>
                    a + w <= TWO64 && o.machine.mem == Store(m.mem, a, w, Typed(keys, n, 2 * w)))
  {
    EditDispatch(fw, m, key, keys);
    EditUnconfirmed(fw, m, keys, n);
    if EndsAt(keys, n) && !Escapes(keys[n]) {
      EditConfirmed(fw, m, keys, n);
    }
    hide HandleKey;
    hide Session.EditValue;
    hide Editable;
    hide EndsAt;
    hide NeverEnds;
    hide CanWrite;
    hide Typed;
    hide Store;
  }

  lemma EditDispatch(fw: Firmware, m: Machine, key: Key, keys: seq<Key>)
    requires Ready(m.page) && IsEdit(key)
    ensures HandleKey(fw, m, key, keys) == Back(Session.EditValue(fw, In(m, Editing), keys))
  {
  }

  lemma EditUnconfirmed(fw: Firmware, m: Machine, keys: seq<Key>, n: nat)
    requires Ready(m.page) && Editable(fw, m.page.cursor)
    ensures var o, e := Session.EditValue(fw, In(m, Editing), keys), In(m, Editing);
            && (NeverEnds(keys) ==> o == Blocked(e))
            && (EndsAt(keys, n) && Escapes(keys[n]) ==> o == Done(Aborted, e, keys[n + 1..]))
  {
    hide CoreRangeOk;
    hide CoreMap;
    hide HexPrompt;
    hide Typed;
    hide EndsAt;
    hide NeverEnds;
    hide AfterWrite;
    hide WriteStatus;
    hide Floor;
    hide ValueFitsWidth;
    CurrentAddressSplits(m.page.cursor);
    PromptByKeys(keys, n, 2 * m.page.cursor.width);
  }

  lemma EditConfirmed(fw: Firmware, m: Machine, keys: seq<Key>, n: nat)
    requires Ready(m.page) && Editable(fw, m.page.cursor) && EndsAt(keys, n) && !Escapes(keys[n])
    ensures var c, o, e := m.page.cursor, Session.EditValue(fw, In(m, Editing), keys), In(m, Editing);
            var a, w := c.address + c.offset, c.width;
            && o == Done(if CanWrite(fw, a, w) then Success else AccessDenied, o.machine, keys[n + 1..])
            && a + w <= TWO64
            && o.machine == e.(mem := if CanWrite(fw, a, w) then Store(m.mem, a, w, Typed(keys, n, 2 * w)) else m.mem)
  {
    hide CoreRangeOk;
    hide CoreMap;
    hide HexPrompt;
    hide Typed;
    hide EndsAt;
    hide Store;
    hide CanWrite;
    hide WriteStatus;
    hide Floor;
    hide ValueFitsWidth;
    var c := m.page.cursor;
    CurrentAddressSplits(c);
    EditIsNeverMisaligned(fw, m);
    PromptByKeys(keys, n, 2 * c.width);
    EditInputFits(keys, c.width);
    BrowsableEnds(CoreMap(fw.descriptors), c.address + c.offset, c.width);
  }

  lemma BrowsableEnds(cs: seq<NxDescriptor>, address: u64, size: u64)
    ensures CoreRangeOk(cs, address, size) ==> address + size <= MAX_UINT64
  {
  }

  /**
    A key changes memory only if it is E, on an editable cell, and the keys after it reach Enter
    before any Escape; what changes is then the typed number at the current address.
   */
  lemma OnlyConfirmedEditsWrite(fw: Firmware, m: Machine, key: Key, keys: seq<Key>) returns (n: nat)
    requires Ready(m.page) && HandleKey(fw, m, key, keys).machine.mem != m.mem
    ensures IsEdit(key) && Editable(fw, m.page.cursor)
    ensures EndsAt(keys, n) && !Escapes(keys[n])
    ensures var c, o := m.page.cursor, HandleKey(fw, m, key, keys);
            var a, w := c.address + c.offset, c.width;
            && CanWrite(fw, a, w) && a + w <= TWO64
            && o == Done(Success, Marked(m).(mem := Store(m.mem, a, w, Typed(keys, n, 2 * w))), keys[n + 1..])
  {
    hide HandleKey;
    hide Editable;
    WritesAreEdits(fw, m, key, keys);
    if !Editable(fw, m.page.cursor) {
      RefusedEdit(fw, m, key, keys);
    }
    EndsOrNot(keys);
    if NeverEnds(keys) {
      EditByKeys(fw, m, key, keys, 0);
    } else {
      n :| EndsAt(keys, n);
      EditByKeys(fw, m, key, keys, n);
    }
  }

  lemma WritesAreEdits(fw: Firmware, m: Machine, key: Key, keys: seq<Key>)
    requires Ready(m.page) && HandleKey(fw, m, key, keys).machine.mem != m.mem
    ensures IsEdit(key)
  {
    var after := HandleKey(fw, m, key, keys).machine.mem;
    var x: u64 :| after[x] != m.mem[x];
    HandleKeyWrites(fw, m, key, keys, x);
  }

  // ------------------------------------------------------------------ range list

  /** The range list shows every entry that has pages. */
  lemma {:induction false} ListedAreNonempty(ds: seq<Descriptor>)
    ensures ListedRanges(ds) == |set i | 0 <= i < |ds| && ds[i].pages != 0|
    decreases |ds|
  {
    if ds != [] {
      var n := |ds| - 1;
      ListedAreNonempty(ds[..n]);
      var before, all := set i | 0 <= i < n && ds[..n][i].pages != 0, set i | 0 <= i < |ds| && ds[i].pages != 0;
      assert all == before + (if ds[n].pages != 0 then {n} else {});
    }
  }

  /** The key at `n` closes a list of `screens` full screens: it is Escape, or every screen had its key before it. */
  predicate ListEndsAt(keys: seq<Key>, screens: nat, n: nat) {
    n < |keys| && n <= screens && (n == screens || Escapes(keys[n])) && forall i :: 0 <= i < n ==> !Escapes(keys[i])
  }

  lemma {:induction false} ListByKeys(keys: seq<Key>, screens: nat, n: nat)
    ensures ListEndsAt(keys, screens, n) ==> AfterRangeList(keys, screens) == Some(keys[n + 1..])
    ensures |keys| <= screens && (forall i :: 0 <= i < |keys| ==> !Escapes(keys[i])) ==>
              AfterRangeList(keys, screens) == None
    decreases |keys|
  {
    if keys != [] && screens > 0 && !Escapes(keys[0]) {
      ListByKeys(keys[1..], screens - 1, if n > 0 then n - 1 else 0);
      if ListEndsAt(keys, screens, n) {
        assert ListEndsAt(keys[1..], screens - 1, n - 1);
      }
    }
  }

  /** R shows the list, a key for every sixteen entries and a last one, unless Escape closes it early; nothing changes. */
  lemma RangeKeys(fw: Firmware, m: Machine, key: Key, keys: seq<Key>, n: nat)
    requires Ready(m.page) && IsCommand(key, 'r', 'R')
    ensures var screens := |set i | 0 <= i < |fw.descriptors| && fw.descriptors[i].pages != 0| / 16;
            && (ListEndsAt(keys, screens, n) ==> HandleKey(fw, m, key, keys) == Done(Success, Marked(m), keys[n + 1..]))
            && (|keys| <= screens && (forall i :: 0 <= i < |keys| ==> !Escapes(keys[i])) ==>
                  HandleKey(fw, m, key, keys) == Blocked(m))
  {
    ListedAreNonempty(fw.descriptors);
    ListByKeys(keys, ListedRanges(fw.descriptors) / 16, n);
  }

  // ------------------------------------------------------------------ whole runs

  /** The key at `i` is an E and the first Enter or Escape after it is the Enter at `n`. */
  predicate ConfirmedAt(keys: seq<Key>, i: nat, n: nat) {
    i < n < |keys| && IsEdit(keys[i]) && EndsAt(keys[i + 1..], n - i - 1) && !Escapes(keys[n])
  }

  ghost predicate HasConfirmedEdit(keys: seq<Key>) {
    exists i: nat, n: nat :: ConfirmedAt(keys, i, n)
  }

  lemma ConfirmedLater(rest: seq<Key>, keys: seq<Key>)
    requires LeftOf(rest, keys) && HasConfirmedEdit(rest)
    ensures HasConfirmedEdit(keys)
  {
    var d := |keys| - |rest|;
    var i: nat, n: nat :| ConfirmedAt(rest, i, n);
    assert rest[i + 1..] == keys[d + i + 1..];
    assert ConfirmedAt(keys, d + i, d + n);
  }

  lemma ConfirmedFirst(key: Key, more: seq<Key>, n: nat)
    requires IsEdit(key) && EndsAt(more, n) && !Escapes(more[n])
    ensures HasConfirmedEdit([key] + more)
  {
    assert ([key] + more)[0 + 1..] == more;
    assert ConfirmedAt([key] + more, 0, n + 1);
  }

  /** Without an edit confirmed by Enter no run changes memory, whatever else is typed. */
  lemma {:induction false} UnconfirmedRunKeepsMemory(fw: Firmware, m: Machine, keys: seq<Key>)
    requires Ready(m.page) && !HasConfirmedEdit(keys)
    ensures Run(fw, m, keys).machine.mem == m.mem
    decreases |keys|
  {
    hide HandleKey;
    hide HasConfirmedEdit;
    if keys != [] {
      var ready := Drawn(m);
      var o := HandleKey(fw, ready, keys[0], keys[1..]);
      HandleKeyKeepsReady(fw, ready, keys[0], keys[1..]);
      UnconfirmedKeyKeepsMemory(fw, ready, keys);
      if o.Done? {
        UnconfirmedRunKeepsMemory(fw, o.machine, o.rest);
      }
    }
  }

  lemma UnconfirmedKeyKeepsMemory(fw: Firmware, m: Machine, keys: seq<Key>)
    requires Ready(m.page) && keys != [] && !HasConfirmedEdit(keys)
    ensures var o := HandleKey(fw, m, keys[0], keys[1..]);
            o.machine.mem == m.mem && (o.Done? ==> !HasConfirmedEdit(o.rest))
  {
    var key, more := keys[0], keys[1..];
    var o := HandleKey(fw, m, key, more);
    assert [key] + more == keys;
    if o.machine.mem != m.mem {
      var n := OnlyConfirmedEditsWrite(fw, m, key, more);
      ConfirmedFirst(key, more, n);
    }
    if o.Done? && HasConfirmedEdit(o.rest) {
      RestIsLeft(fw, m, key, more);
      hide HandleKey;
      assert LeftOf(o.rest, keys);
      ConfirmedLater(o.rest, keys);
    }
  }

  lemma {:induction false} PromptExtends(keys: seq<Key>, more: seq<Key>, max: nat, text: string)
    requires AllHex(text) && !HexPromptFrom(keys, max, text).Waiting?
    ensures var e := HexPromptFrom(keys, max, text);
            HexPromptFrom(keys + more, max, text) == e.(rest := e.rest + more)
    decreases |keys|
  {
    assert (keys + more)[0] == keys[0] && (keys + more)[1..] == keys[1..] + more;
    if !EndsPrompt(keys[0]) {
      PromptExtends(keys[1..], more, max, TypeKey(text, keys[0].unicodeChar, max));
    }
  }

  lemma {:induction false} ListExtends(keys: seq<Key>, more: seq<Key>, screens: nat)
    requires AfterRangeList(keys, screens).Some?
    ensures AfterRangeList(keys + more, screens) == Some(AfterRangeList(keys, screens).value + more)
    decreases |keys|
  {
    assert (keys + more)[0] == keys[0] && (keys + more)[1..] == keys[1..] + more;
    if screens > 0 && !Escapes(keys[0]) {
      ListExtends(keys[1..], more, screens - 1);
    }
  }

  lemma EditExtends(fw: Firmware, m: Machine, keys: seq<Key>, more: seq<Key>)
    requires Session.EditValue(fw, m, keys).Done?
    ensures var o := Session.EditValue(fw, m, keys);
            Session.EditValue(fw, m, keys + more) == o.(rest := o.rest + more)
  {
    hide HexPromptFrom;
    hide AfterWrite;
    hide WriteStatus;
    hide CoreRangeOk;
    var digits := 2 * m.page.cursor.width;
    if !HexPrompt(keys, digits).Waiting? {
      PromptExtends(keys, more, Limit(digits), "");
    }
  }

  lemma GotoExtends(m: Machine, keys: seq<Key>, more: seq<Key>)
    requires Session.GotoAddress(m, keys).Done?
    ensures var o := Session.GotoAddress(m, keys);
            Session.GotoAddress(m, keys + more) == o.(rest := o.rest + more)
  {
    hide HexPromptFrom;
    PromptExtends(keys, more, Limit(16), "");
  }

  lemma RangesExtend(fw: Firmware, m: Machine, keys: seq<Key>, more: seq<Key>)
    requires Session.ShowRanges(fw, m, keys).Done?
    ensures var o := Session.ShowRanges(fw, m, keys);
            Session.ShowRanges(fw, m, keys + more) == o.(rest := o.rest + more)
  {
    ListExtends(keys, more, ListedRanges(fw.descriptors) / 16);
  }

  /** A handled key does not depend on keys it did not take. */
  lemma HandleKeyExtends(fw: Firmware, m: Machine, key: Key, keys: seq<Key>, more: seq<Key>)
    requires Ready(m.page) && HandleKey(fw, m, key, keys).Done?
    ensures var o := HandleKey(fw, m, key, keys); HandleKey(fw, m, key, keys + more) == o.(rest := o.rest + more)
  {
    hide Session.EditValue;
    hide Session.GotoAddress;
    hide Session.ShowRanges;
    hide Refreshed;
    hide MoveCursor;
    hide SetCursorWidth;
    hide Session.PageDown;
    hide Session.PageUp;
    if IsEdit(key) {
      EditExtends(fw, In(m, Editing), keys, more);
    } else if IsGoto(key) {
      GotoExtends(In(m, Goto), keys, more);
    } else if IsCommand(key, 'r', 'R') {
      RangesExtend(fw, m, keys, more);
    }
  }

  lemma RunFromDrawn(fw: Firmware, m: Machine, keys: seq<Key>)
    requires Ready(m.page)
    ensures Run(fw, Drawn(m), keys) == Run(fw, m, keys)
  {
    assert Drawn(Drawn(m)) == Drawn(m);
  }

  /** Runs compose: after a stream that leaves the session idle the next stream runs from where it stopped. */
  lemma {:induction false} RunsCompose(fw: Firmware, m: Machine, keys: seq<Key>, more: seq<Key>)
    requires Ready(m.page) && !Run(fw, m, keys).Prompting?
    ensures var r := Run(fw, m, keys);
            && Ready(r.machine.page)
            && Run(fw, m, keys + more) == if r.Left? then r else Run(fw, r.machine, more)
    decreases |keys|
  {
    hide HandleKey;
    if keys == [] {
      assert keys + more == more;
      RunFromDrawn(fw, m, more);
    } else {
      var ready := Drawn(m);
      var o := HandleKey(fw, ready, keys[0], keys[1..]);
      HandleKeyKeepsReady(fw, ready, keys[0], keys[1..]);
      assert (keys + more)[0] == keys[0] && (keys + more)[1..] == keys[1..] + more;
      if o.Done? {
        HandleKeyExtends(fw, ready, keys[0], keys[1..], more);
        if !(o.status == Aborted && keys[0].scanCode == SCAN_ESC) {
          RunsCompose(fw, o.machine, o.rest, more);
        }
      }
    }
  }

  /** Escape between commands leaves the session at once, with the machine as it is and whatever is typed after it. */
  lemma EscapeLeaves(fw: Firmware, m: Machine, esc: Key, rest: seq<Key>)
    requires Ready(m.page) && Escapes(esc)
    ensures Run(fw, m, [esc] + rest) == Left(Drawn(m))
  {
    hide HandleKey;
    assert ([esc] + rest)[1..] == rest;
    OtherKeys(fw, Drawn(m), esc, rest);
  }

  /** Nothing but Escape ends a session. */
  lemma {:induction false} OnlyEscapeLeaves(fw: Firmware, m: Machine, keys: seq<Key>)
    requires Ready(m.page) && forall i :: 0 <= i < |keys| ==> !Escapes(keys[i])
    ensures !Run(fw, m, keys).Left?
    decreases |keys|
  {
    hide HandleKey;
    if keys != [] {
      var o := HandleKey(fw, Drawn(m), keys[0], keys[1..]);
      HandleKeyKeepsReady(fw, Drawn(m), keys[0], keys[1..]);
      if o.Done? {
        RestIsLeft(fw, Drawn(m), keys[0], keys[1..]);
        OnlyEscapeLeaves(fw, o.machine, o.rest);
      }
    }
  }

  /** Whenever a session waits for a command or has ended, no redraw is due. */
  lemma {:induction false} NoRedrawIsDue(fw: Firmware, m: Machine, keys: seq<Key>)
    requires Ready(m.page) && !Run(fw, m, keys).Prompting?
    ensures !Run(fw, m, keys).machine.page.needsRedraw
    decreases |keys|
  {
    hide HandleKey;
    if keys != [] {
      var o := HandleKey(fw, Drawn(m), keys[0], keys[1..]);
      HandleKeyKeepsReady(fw, Drawn(m), keys[0], keys[1..]);
      if keys[0].scanCode == SCAN_ESC {
        OtherKeys(fw, Drawn(m), keys[0], keys[1..]);
      } else if o.Done? {
        NoRedrawIsDue(fw, o.machine, o.rest);
      }
    }
  }
}
