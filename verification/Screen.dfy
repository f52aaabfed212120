/**
  What a user can read off the screen: bytes, addresses, types and the selected cell at
  fixed rows and columns, and that an edit changes what the selected cell shows.
 */
module Screen {
  import opened Words
  import opened MemoryMap
  import opened PhysicalMemory
  import opened AccessPolicy
  import opened AddressMap
  import opened Adapters
  import opened Text
  import opened HexInput
  import opened Session
  import opened Picture

  // ------------------------------------------------------------------- positions

  /** Column of the cell at an offset: rows hold 16 bytes, cells two digits a byte and a space, from column 4 on. */
  function ColumnOf(width: nat, offset: nat): nat
    requires SupportedWidth(width)
  {
    4 + ((offset % 16) / width) * (2 * width + 1)
  }

  /** The rectangle of the cell at an offset, on one of the rows 3 to 18. */
  predicate InCellOf(width: nat, offset: nat, r: nat, c: nat)
    requires SupportedWidth(width)
  {
    r == 3 + offset / 16 && ColumnOf(width, offset) <= c <= ColumnOf(width, offset) + 2 * width
  }

  lemma CellPosition(width: nat, offset: nat, r: nat, c: nat)
    requires SupportedWidth(width)
    ensures ColumnOf(width, offset) == CellColumn(width, offset)
    ensures InCellOf(width, offset, r, c) <==> OnCell(width, offset, r, c)
  {
    assert CellSpan(width) == 2 * width + 1;
  }

  lemma GlyphOfCell(s: Scene, offset: nat, r: nat, c: nat)
    requires Ready(s.page) && offset < PAGE_SIZE && offset % s.page.cursor.width == 0
    requires OnCell(s.page.cursor.width, offset, r, c)
    ensures var first := CellColumn(s.page.cursor.width, offset);
            && 0 <= c - first < |CellText(s, offset)|
            && GlyphAt(s, r, c) ==
                 Glyph(CellText(s, offset)[c - first], if offset == s.page.cursor.offset then 0x70 else 0x07)
  {
    hide InCells;
    hide CellAt;
    hide CellColumn;
    hide CellText;
    hide PreviewText;
    OneCellPerPosition(s.page.cursor.width, offset, r, c);
  }

  /**
    The rectangle of every cell shows, in reverse video exactly when the cell is the selected one, the
    bytes at page address plus offset, highest first, or question marks, and a space behind them.
   */
  lemma ScreenShowsCell(s: Scene, offset: nat, r: nat, c: nat)
    requires Ready(s.page) && offset < PAGE_SIZE && offset % s.page.cursor.width == 0
    requires InCellOf(s.page.cursor.width, offset, r, c)
    ensures var a, w := s.page.cursor.address + offset, s.page.cursor.width;
            var text := if Readable(s, offset, w) then CellDigits(s.mem[a..a + w]) + " " else QuestionMarks(2 * w) + " ";
            GlyphAt(s, r, c) ==
              Glyph(text[c - ColumnOf(w, offset)], if offset == s.page.cursor.offset then 0x70 else 0x07)
  {
    hide GlyphAt;
    hide CellText;
    hide CellDigits;
    hide Readable;
    hide ColumnOf;
    hide CellColumn;
    CellPosition(s.page.cursor.width, offset, r, c);
    GlyphOfCell(s, offset, r, c);
    CellShowsBytes(s, offset);
  }

  lemma PreviewOnScreen(s: Scene, row: nat, i: nat)
    requires Ready(s.page) && row < 16 && i < 16
    ensures GlyphAt(s, 3 + row, 54 + i) == Glyph(PreviewText(s, 16 * row)[i], 0x07)
  {
    hide CellText;
    hide PreviewText;
    CellsEndBeforePreview(s.page.cursor.width);
  }

  /** The preview of byte `i` of a row, at page address plus 16 for each row above plus `i`, stands at column 54 + `i`. */
  lemma ScreenShowsPreview(s: Scene, row: nat, i: nat)
    requires Ready(s.page) && row < 16 && i < 16
    ensures s.page.cursor.address + 16 * row + i < TWO64
    ensures var b := s.mem[s.page.cursor.address + 16 * row + i];
            GlyphAt(s, 3 + row, 54 + i) ==
              Glyph(if Readable(s, 16 * row + i, 1) && ' ' as int <= b <= '~' as int then b as char else '.', 0x07)
  {
    hide GlyphAt;
    hide Readable;
    hide PreviewText;
    PreviewShowsBytes(s, 16 * row, i);
    PreviewOnScreen(s, row, i);
  }

  /** Every data row starts with the two digits of the offset of its first byte and a colon. */
  lemma ScreenShowsOffsets(s: Scene, row: nat, i: nat)
    requires Ready(s.page) && row < 16 && i < 3
    ensures GlyphAt(s, 3 + row, i) == Glyph((HexByte(16 * row) + ":")[i], 0x07)
  {
    hide PreviewText;
    hide CellText;
    hide HexText;
  }

  /** Reverse video marks the whole selected cell and nothing else; between two cells the cursor marks nothing. */
  lemma HighlightIsTheSelection(s: Scene, r: nat, c: nat)
    requires Ready(s.page)
    ensures var cur := s.page.cursor;
            GlyphAt(s, r, c).attribute ==
              if cur.offset % cur.width == 0 && InCellOf(cur.width, cur.offset, r, c) then 0x70 else 0x07
  {
    hide CellText;
    hide PreviewText;
    hide TypeLine;
    hide InfoLine;
    hide CellAt;
    var cur := s.page.cursor;
    if cur.offset % cur.width == 0 {
      OneCellPerPosition(cur.width, cur.offset, r, c);
    }
    if InData(r) && InCells(cur.width, c) {
      CellAtBounds(cur.width, r, c);
    }
  }

  // ----------------------------------------------------------------- text lines

  /** The info line, row 19, gives the current address, the offset and the width as numbers. */
  lemma InfoLineTells(p: Page)
    requires Ready(p)
    ensures var line := InfoLine(p);
            && |line| > 45 && AllHex(line[8..24]) && AllHex(line[34..36])
            && line[..8] == "Addr: 0x" && ParseHex(line[8..24]) == p.cursor.address + p.cursor.offset
            && line[24..34] == "  Offset: " && ParseHex(line[34..36]) == p.cursor.offset
            && line[36..45] == "  Width: " && ParseDecimal(line[45..]) == p.cursor.width
  {
    var a, o, w := CurrentAddress(p.cursor), p.cursor.offset, p.cursor.width;
    CurrentAddressSplits(p.cursor);
    AddressParts(a);
    ParseHexByte(o);
    DecimalRoundTrip(w);
    hide ParseHex;
    hide ParseDecimal;
    hide CurrentAddress;
    hide Floor;
    hide HexText;
    hide AddressText;
    hide Decimal;
    InfoLineParts(AddressText(a), HexText(o, 2), Decimal(w));
    assert InfoLine(p)[8..24] == HexText(a, 16);
    hide InfoLine;
  }

  lemma AddressParts(a: u64)
    ensures AddressText(a)[..2] == "0x" && AddressText(a)[2..] == HexText(a, 16) && ParseHex(HexText(a, 16)) == a
  {
    hide ParseHex;
    hide HexText;
    AddressTextRoundTrip(a);
  }

  lemma InfoLineParts(address: string, offset: string, width: string)
    requires |address| == 18 && |offset| == 2 && address[..2] == "0x" && |width| > 0
    ensures var line := "Addr: " + address + "  Offset: " + offset + "  Width: " + width;
            && |line| == 45 + |width|
            && line[..8] == "Addr: 0x" && line[8..24] == address[2..] && line[24..34] == "  Offset: "
            && line[34..36] == offset && line[36..45] == "  Width: " && line[45..] == width
  {
    var line := "Addr: " + address + "  Offset: " + offset + "  Width: " + width;
    assert line[..6] == "Addr: " && line[6..8] == address[..2];
    assert line[..8] == line[..6] + line[6..8];
  }

  /** The type line of a coherent page names the type of the table entry that holds its first byte. */
  lemma TypeLineTells(fw: Firmware, p: Page)
    requires Coherent(fw, p)
    ensures var entry := FindDescriptor(Truncate(fw.descriptors), p.cursor.address, 1);
            TypeLine(p) == "Type: " + (if entry.Some? then TypeName(entry.value.memType) else "Unmapped") +
                           "  Access: " + AccessText(QueryAccess(fw, p.cursor.address, 256))
  {
    hide TypeName;
    hide AccessText;
    hide QueryAccess;
    hide FindDescriptor;
  }

  /** Type line and info line stand on the rows 1 and 19, from column 0, followed by blanks. */
  lemma ScreenShowsLines(s: Scene, c: nat)
    requires Ready(s.page)
    ensures GlyphAt(s, 1, c) == Glyph(if c < |TypeLine(s.page)| then TypeLine(s.page)[c] else ' ', 0x07)
    ensures GlyphAt(s, 19, c) == Glyph(if c < |InfoLine(s.page)| then InfoLine(s.page)[c] else ' ', 0x07)
  {
    hide TypeLine;
    hide InfoLine;
  }

  /** Title, the two help rows and the rows below them. */
  lemma ScreenShowsFrame(s: Scene, r: nat, c: nat)
    requires Ready(s.page) && (r == 0 || r >= 20)
    ensures var text := if r == 0 then "Memory Viewer"
                        else if r == 20 then "Arrows: Move  N/P: Page"
                        else if r == 21 then "E: Edit  G: Goto  R: Ranges  1/2/4/8: Width  ESC: Exit"
                        else "";
            GlyphAt(s, r, c) == Glyph(if c < |text| then text[c] else ' ', 0x07)
  {
  }

  /** Row 2 carries the header of each cell in the columns of the cells below it. */
  lemma ScreenShowsHeader(s: Scene, offset: nat, c: nat)
    requires Ready(s.page) && offset < 16 && offset % s.page.cursor.width == 0
    requires ColumnOf(s.page.cursor.width, offset) <= c <= ColumnOf(s.page.cursor.width, offset) + 2 * s.page.cursor.width
    ensures var i := c - ColumnOf(s.page.cursor.width, offset);
            GlyphAt(s, 2, c) == Glyph(HeaderText(offset, s.page.cursor.width)[i], 0x07)
  {
    hide HeaderText;
    hide ColumnOf;
    var w := s.page.cursor.width;
    CellPosition(w, offset, 3, c);
    ColumnIndex(w, offset);
    assert offset % COLS == offset;
    ColumnCell(w, offset / w, c) by {
      assert CellSpan(w) == 2 * w + 1;
    }
  }

  // ------------------------------------------------------ what is shown and edited

  /** The digits of the selected cell are the value an edit of it replaces: what the library reads at the current address. */
  lemma SelectedCellIsEdited(s: Scene)
    requires Ready(s.page) && CellAligned(s.page.cursor)
    requires Readable(s, s.page.cursor.offset, s.page.cursor.width)
    ensures var c := s.page.cursor;
            var digits := CellText(s, c.offset)[..2 * c.width];
            && AllHex(digits) && CurrentAddress(c) + c.width <= TWO64
            && ParseHex(digits) == Load(s.mem, CurrentAddress(c), c.width)
            && ParseHex(digits) == ReadValue(s.fw, s.mem, CurrentAddress(c), c.width)
  {
    hide Floor;
    hide CellText;
    hide ParseHex;
    CurrentAddressSplits(s.page.cursor);
    CellTextDecodes(s, s.page.cursor.offset);
  }

  /** After a confirmed edit of a readable and writable cell the selected cell shows the typed number. */
  lemma EditedCellShowsTyped(fw: Firmware, m: Machine, key: Key, keys: seq<Key>)
    requires Ready(m.page) && CellAligned(m.page.cursor) && IsCommand(key, 'e', 'E')
    requires HexPrompt(keys, 2 * m.page.cursor.width).Entered?
    requires Readable(Scene(fw, m.page, m.mem), m.page.cursor.offset, m.page.cursor.width)
    requires WriteStatus(fw, CurrentAddress(m.page.cursor), m.page.cursor.width) == Success
    ensures var c, o := m.page.cursor, HandleKey(fw, m, key, keys);
            var digits := CellText(Scene(fw, o.machine.page, o.machine.mem), c.offset)[..2 * c.width];
            && o.Done? && o.machine.page.cursor == c
            && AllHex(digits) && ParseHex(digits) == HexPrompt(keys, 2 * c.width).value
  {
    hide Floor;
    hide HandleKey;
    hide CellText;
    hide HexPrompt;
    hide ParseHex;
    var c := m.page.cursor;
    CurrentAddressSplits(c);
    EditIsReadBack(fw, m, key, keys);
    EditKeepsCursor(fw, m, key, keys);
    var o := HandleKey(fw, m, key, keys);
    SelectedCellIsEdited(Scene(fw, o.machine.page, o.machine.mem));
  }

  lemma EditKeepsCursor(fw: Firmware, m: Machine, key: Key, keys: seq<Key>)
    requires Ready(m.page) && IsCommand(key, 'e', 'E') && HandleKey(fw, m, key, keys).Done?
    ensures HandleKey(fw, m, key, keys).machine.page == m.page.(needsRedraw := true)
  {
    hide Session.EditValue;
    EditValueEffect(fw, In(m, Editing), keys);
  }

  /** Memory-mapped I/O can be browsed and is never read: every cell that lies in such an entry shows question marks. */
  lemma DeviceCellsAreBlank(s: Scene, i: nat, offset: nat)
    requires Ready(s.page) && offset < PAGE_SIZE
    requires Decides(s.fw.descriptors, i, s.page.cursor.address + offset, s.page.cursor.width)
    requires s.fw.descriptors[i].memType == 11 || s.fw.descriptors[i].memType == 12
    ensures s.page.cursor.address + offset < TWO64
    ensures BrowsableType(s.fw.descriptors[i].memType)
    ensures CellText(s, offset) == QuestionMarks(2 * s.page.cursor.width) + " "
  {
    hide CellText;
    hide CoreRangeOk;
    hide ReadStatus;
    hide Decides;
    var a, w := s.page.cursor.address + offset, s.page.cursor.width;
    OffsetIsAddress(s, offset);
    CellShowsBytes(s, offset);
    DeviceIsUnreadable(s.fw, i, a, w);
  }

  lemma DeviceIsUnreadable(fw: Firmware, i: nat, address: u64, width: u64)
    requires Decides(fw.descriptors, i, address, width)
    requires fw.descriptors[i].memType == 11 || fw.descriptors[i].memType == 12
    ensures ReadStatus(fw, address, width) != Success
  {
    assert FirstCover(fw.descriptors, 0, address, width) == i;
  }
}
