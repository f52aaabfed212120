/**
  The console and the PageMem view: drawing the whole page, one cell or the info row
  into a character grid.
 */
module View {
  import opened Words
  import opened MemoryMap
  import opened PhysicalMemory
  import opened AccessPolicy
  import opened Adapters
  import opened Text
  import opened Format
  import opened HexInput
  import opened Session
  import opened StateMachine
  import opened Picture

  class Console {
    const rows: nat
    const columns: nat
    const grid: array2<Glyph>
    const keyboard: Keyboard
    var attribute: nat
    var column: nat
    var row: nat

    ghost predicate Valid()
      reads this
    {
      grid.Length0 == rows && grid.Length1 == columns && rows > HELP2_ROW && columns >= DEFAULT_COLUMNS
    }

    constructor (rows: nat, columns: nat, keys: seq<Key>)
      requires rows > HELP2_ROW && columns >= DEFAULT_COLUMNS
      ensures Valid() && fresh(grid) && fresh(keyboard) && keyboard.pending == keys && attribute == NORMAL
    {
      this.rows, this.columns := rows, columns;
      grid := new Glyph[rows, columns]((_, _) => BLANK);
      keyboard := new Keyboard(keys);
      attribute, column, row := NORMAL, 0, 0;
    }

    method SetAttribute(attribute: nat)
      modifies this`attribute
      ensures this.attribute == attribute
    {
      this.attribute := attribute;
    }

    method ClearScreen()
      requires Valid()
      modifies this`column, this`row, grid
      ensures forall r, c :: 0 <= r < rows && 0 <= c < columns ==> grid[r, c] == Glyph(' ', attribute)
    {
      forall r, c | 0 <= r < rows && 0 <= c < columns {
        grid[r, c] := Glyph(' ', attribute);
      }
      column, row := 0, 0;
    }

    method SetCursorPosition(column: nat, row: nat)
      modifies this`column, this`row
      ensures this.column == column && this.row == row
    {
      this.column, this.row := column, row;
    }

    /** Write a string at the cursor, clipped at the right edge of the screen. */
    method OutputString(text: string)
      requires Valid() && row < rows
      modifies this`column, grid
      ensures forall r, c :: 0 <= r < rows && 0 <= c < columns ==>
                grid[r, c] == if r == row && old(column) <= c < old(column) + |text|
                              then Glyph(text[c - old(column)], attribute) else old(grid[r, c])
      ensures old(column) + |text| <= columns ==> column == old(column) + |text|
    {
      ghost var start := column;
      var i := 0;
      while i < |text| && column < columns
        invariant 0 <= i <= |text| && column == start + i
        invariant forall r, c :: 0 <= r < rows && 0 <= c < columns ==>
          grid[r, c] == if r == row && start <= c < start + i then Glyph(text[c - start], attribute) else old(grid[r, c])
      {
        grid[row, column] := Glyph(text[i], attribute);
        column := column + 1;
        i := i + 1;
      }
    }

    method OutputStringAt(column: nat, row: nat, text: string)
      requires Valid() && row < rows
      modifies this`column, this`row, grid
      ensures forall r, c :: 0 <= r < rows && 0 <= c < columns ==>
                grid[r, c] == if r == row && column <= c < column + |text|
                              then Glyph(text[c - column], attribute) else old(grid[r, c])
    {
      SetCursorPosition(column, row);
      OutputString(text);
    }
  }

  // ------------------------------------------------------------- text building

  /** The characters of a terminated buffer, as far as they fit the wide buffer. */
  method AsciiToChar16(ascii: array<char>, capacity: nat, ghost text: string) returns (wide: string)
    requires Holds(ascii, text) && capacity > 0
    ensures wide == Clip(text, capacity)
  {
    wide := "";
    var index := 0;
    while index + 1 < capacity && ascii[index] != '\0'
      invariant index <= |text| && index < capacity && wide == text[..index]
      decreases capacity - index
    {
      assert ascii[index] == ascii[..|text|][index];
      wide := wide + [ascii[index]];
      index := index + 1;
    }
    assert index == |text| || index + 1 == capacity by {
      if index < |text| {
        assert ascii[index] == text[index] && text[index] in text;
      }
    }
  }

  /** A new empty string buffer. */
  method EmptyBuffer(size: nat) returns (buffer: array<char>)
    requires size > 0
    ensures fresh(buffer) && buffer.Length == size && Holds(buffer, "")
  {
    buffer := new char[size];
    buffer[0] := '\0';
  }

  method BuildInvalidCellString(width: nat, bufferSize: nat) returns (text: string)
    ensures text == if bufferSize < 2 * width + 2 then "" else QuestionMarks(2 * width) + " "
  {
    var count := width * 2;
    if bufferSize < count + 2 {
      return "";
    }
    text := "";
    for index := 0 to count
      invariant text == QuestionMarks(index)
    {
      text := text + ['?'];
    }
    text := text + " ";
  }

  method BuildRowPrefixString(offset: u64) returns (text: string)
    ensures text == RowPrefix(offset)
  {
    var buffer := EmptyBuffer(32);
    var pos := AppendHexFixed(buffer, 0, offset, 2, "");
    assert Clip("" + HexText(offset, 2), 32) == HexText(offset, 2);
    pos := AppendString(buffer, pos, ":", HexText(offset, 2));
    text := AsciiToChar16(buffer, 32, RowPrefix(offset));
  }

  method BuildInfoString(state: PageState) returns (text: string)
    requires SupportedWidth(state.cursor.width)
    ensures text == InfoLine(state.View())
  {
    LineLengths(state.View());
    ghost var address := AddressText(CurrentAddress(state.cursor.View()));
    var addressAscii := new char[32];
    var current := state.cursor.GetCurrentAddress();
    FormatAddress(current, addressAscii);
    var addressText := AsciiToChar16(addressAscii, 32, address);
    var buffer := EmptyBuffer(128);
    ghost var t := "Addr: ";
    var pos := AppendString(buffer, 0, "Addr: ", "");
    assert Clip("" + "Addr: ", 128) == t;
    pos := AppendString(buffer, pos, addressText, t);
    t := t + address;
    pos := AppendString(buffer, pos, "  Offset: ", t);
    t := t + "  Offset: ";
    pos := AppendHexFixed(buffer, pos, state.cursor.offset, 2, t);
    t := t + HexText(state.cursor.offset, 2);
    pos := AppendString(buffer, pos, "  Width: ", t);
    t := t + "  Width: ";
    pos := AppendDecimal(buffer, pos, state.cursor.width, t);
    t := t + Decimal(state.cursor.width);
    assert t == InfoLine(state.View());
    text := AsciiToChar16(buffer, 128, t);
  }

  method BuildPageTypeString(state: PageState) returns (text: string)
    ensures text == TypeLine(state.View())
  {
    ghost var page := state.View();
    LineLengths(page);
    ghost var name := if page.hasDescriptor then TypeName(page.uefiType) else "Unmapped";
    var typeName := EmptyBuffer(32);
    if state.pageHasMemoryDescriptor {
      TypeNameFits(page.uefiType);
      MemoryTypeFormat(state.pageUefiMemoryType, typeName);
    } else {
      var used := AppendString(typeName, 0, "Unmapped", "");
    }
    assert Holds(typeName, name);
    var nameText := AsciiToChar16(typeName, 32, name);
    var accessName := EmptyBuffer(16);
    MemoryAccessFormat(state.pageAccess, accessName);
    var accessText := AsciiToChar16(accessName, 16, AccessText(page.access));
    var buffer := EmptyBuffer(96);
    ghost var t := "Type: ";
    var pos := AppendString(buffer, 0, "Type: ", "");
    assert Clip("" + "Type: ", 96) == t;
    pos := AppendString(buffer, pos, nameText, t);
    t := t + name;
    pos := AppendString(buffer, pos, "  Access: ", t);
    t := t + "  Access: ";
    pos := AppendString(buffer, pos, accessText, t);
    t := t + AccessText(page.access);
    text := AsciiToChar16(buffer, 96, t);
  }

  // --------------------------------------------------------------- the picture

  /** The page state uses the adapter's table, which holds the adapter's copy of the firmware map. */
  ghost predicate Linked(state: PageState, memory: MemAdapter)
    reads state, state.cursor, state.addressMap, memory, memory.gCoreDescriptors
    reads memory.bridge, memory.bridge.lib, memory.bridge.lib.gMemMap
  {
    && memory.Valid()
    && state.addressMap.Valid()
    && state.addressMap.descriptors == memory.gCoreDescriptors
    && state.addressMap.descriptorCount == memory.gCoreDescriptorCount
    && memory.Entries() == CoreMap(memory.bridge.lib.Descriptors())
    && SupportedWidth(state.cursor.width)
  }

  ghost function SceneOf(state: PageState, memory: MemAdapter): Scene
    requires memory.Valid()
    reads state, state.cursor, memory, memory.bridge, memory.bridge.lib, memory.bridge.lib.gMemMap, memory.bridge.lib.ram
  {
    Scene(memory.bridge.lib.View(), state.View(), memory.bridge.lib.ram[..])
  }

  /** The screen, cleared with attribute `back`, shows the scene. */
  ghost predicate Shows(console: Console, s: Scene, back: nat)
    requires console.Valid() && SupportedWidth(s.page.cursor.width)
    reads console, console.grid
  {
    forall r, c :: 0 <= r < console.rows && 0 <= c < console.columns ==>
      console.grid[r, c] == Backed(s.page.cursor.width, back, r, c, GlyphAt(s, r, c))
  }

  /** Cleared with the normal attribute: every position is that of the picture. */
  lemma ShowsPicture(console: Console, s: Scene)
    requires console.Valid() && SupportedWidth(s.page.cursor.width)
    ensures Shows(console, s, NORMAL) <==>
              forall r, c :: 0 <= r < console.rows && 0 <= c < console.columns ==> console.grid[r, c] == GlyphAt(s, r, c)
  {
    hide GlyphAt;
    hide Backed;
    forall r, c | 0 <= r < console.rows && 0 <= c < console.columns
      ensures Backed(s.page.cursor.width, NORMAL, r, c, GlyphAt(s, r, c)) == GlyphAt(s, r, c)
    {
      NormalBackIsPicture(s, r, c);
    }
  }

  method GetCellPosition(width: u64, offset: nat) returns (column: nat, row: nat)
    requires SupportedWidth(width)
    ensures column == CellColumn(width, offset) && row == CellRow(offset)
  {
    var bytesPerRow := (COLS / width) * width;
    CellsEndBeforePreview(width);
    var cellWidth := GetCellDisplayWidth(width);
    column := 4 + ((offset % bytesPerRow) / width) * cellWidth;
    row := DATA_ROW + offset / bytesPerRow;
  }

  /** `s` is the scene the page state and the adapter make up. */
  ghost predicate Looks(state: PageState, memory: MemAdapter, s: Scene)
    reads state, state.cursor, state.addressMap, memory, memory.gCoreDescriptors
    reads memory.bridge, memory.bridge.lib, memory.bridge.lib.gMemMap, memory.bridge.lib.ram
  {
    Linked(state, memory) && s == SceneOf(state, memory)
  }

  /** Read a range for display. */
  method ReadShown(memory: MemAdapter, state: PageState, address: u64, width: u64, ghost s: Scene)
    returns (shown: Option<u64>)
    requires Looks(state, memory, s)
    ensures shown == ShownValue(s.fw, s.mem, address, width)
  {
    var isValid := state.addressMap.IsRangeValid(address, width);
    var status, value := AccessDenied, 0;
    if isValid {
      status, value := memory.bridge.MemRead(address, width);
    }
    shown := if status == Success then Some(value) else None;
  }

  /** The text of one cell, read through the adapter. */
  method CellString(memory: MemAdapter, state: PageState, offset: nat, ghost s: Scene) returns (text: string)
    requires Looks(state, memory, s)
    ensures text == CellText(s, offset)
  {
    hide ShownValue;
    var width := state.cursor.width;
    var address := Wrap(state.cursor.address + offset);
    var shown := ReadShown(memory, state, address, width, s);
    assert s.page.cursor == state.cursor.View();
    assert address == OffsetAddress(s, offset) && width == s.page.cursor.width;
    assert shown == CellValue(s, offset);
    if shown.Some? {
      ghost var digits := CellDigits(ValueBytes(shown.value, width));
      assert CellText(s, offset) == digits + " ";
      var ascii := new char[18];
      var length := FormatValueLE(shown.value, width, ascii);
      text := AsciiToChar16(ascii, 18, digits + " ");
    } else {
      text := BuildInvalidCellString(width, 18);
    }
  }

  method DrawCell(console: Console, memory: MemAdapter, state: PageState, offset: nat, highlight: bool, ghost s: Scene)
    requires console.Valid() && Looks(state, memory, s) && offset < PAGE_SIZE
    modifies console`attribute, console`column, console`row, console.grid
    ensures console.attribute == NORMAL
    ensures var w := s.page.cursor.width;
            forall r, c :: 0 <= r < console.rows && 0 <= c < console.columns ==>
              console.grid[r, c] ==
                if OnCell(w, offset, r, c)
                then Glyph(CellText(s, offset)[c - CellColumn(w, offset)], if highlight then HIGHLIGHT else NORMAL)
                else old(console.grid[r, c])
  {
    hide CellText;
    var column, row := GetCellPosition(state.cursor.width, offset);
    console.SetAttribute(if highlight then HIGHLIGHT else NORMAL);
    var text := CellString(memory, state, offset, s);
    ghost var w := s.page.cursor.width;
    assert w == state.cursor.width && column == CellColumn(w, offset) && |text| == CellSpan(w);
    assert forall r, c :: OnCell(w, offset, r, c) <==> r == row && column <= c < column + |text|;
    ghost var drawn := console.attribute;
    console.OutputStringAt(column, row, text);
    console.SetAttribute(NORMAL);
    assert forall r, c :: 0 <= r < console.rows && 0 <= c < console.columns ==>
      console.grid[r, c] == if OnCell(w, offset, r, c) then Glyph(text[c - column], drawn) else old(console.grid[r, c]);
  }

  method ClearRow(console: Console, row: nat)
    requires console.Valid() && row < console.rows && console.attribute == NORMAL
    modifies console`column, console`row, console.grid
    ensures forall r, c :: 0 <= r < console.rows && 0 <= c < console.columns ==>
              console.grid[r, c] == if r == row && c < DEFAULT_COLUMNS then BLANK else old(console.grid[r, c])
  {
    var columns := console.columns;
    if columns == 0 || columns > DEFAULT_COLUMNS {
      columns := DEFAULT_COLUMNS;
    }
    var blankRow := "";
    for index := 0 to columns
      modifies {}
      invariant |blankRow| == index && forall i :: 0 <= i < index ==> blankRow[i] == ' '
    {
      blankRow := blankRow + [' '];
    }
    console.OutputStringAt(0, row, blankRow);
  }

  method UpdateInfo(console: Console, state: PageState)
    requires console.Valid() && console.attribute == NORMAL && SupportedWidth(state.cursor.width)
    modifies console`column, console`row, console.grid
    ensures forall r, c :: 0 <= r < console.rows && 0 <= c < console.columns ==>
              console.grid[r, c] ==
                if r == INFO_ROW && c < DEFAULT_COLUMNS then Written(InfoLine(state.View()), 0, c)
                else old(console.grid[r, c])
  {
    LineLengths(state.View());
    ClearRow(console, INFO_ROW);
    var info := BuildInfoString(state);
    console.OutputStringAt(0, INFO_ROW, info);
  }

  method RenderRowPrefix(console: Console, offset: u64, row: nat)
    requires console.Valid() && row < console.rows && console.attribute == NORMAL
    modifies console`column, console`row, console.grid
    ensures forall r, c :: 0 <= r < console.rows && 0 <= c < console.columns ==>
              console.grid[r, c] ==
                if r == row && c < 3 then Glyph(RowPrefix(offset)[c], NORMAL) else old(console.grid[r, c])
  {
    var prefix := BuildRowPrefixString(offset);
    console.OutputStringAt(0, row, prefix);
  }

  method PreviewByte(memory: MemAdapter, state: PageState, offset: nat, ghost s: Scene) returns (glyph: char)
    requires Looks(state, memory, s)
    ensures glyph == PreviewChar(s, offset)
  {
    hide ShownValue;
    assert s.page.cursor == state.cursor.View();
    var address := Wrap(state.cursor.address + offset);
    var shown := ReadShown(memory, state, address, 1, s);
    glyph := '.';
    if shown.Some? && 32 <= shown.value <= 126 {
      glyph := shown.value as char;
    }
  }

  method PreviewString(memory: MemAdapter, state: PageState, offset: nat, ghost s: Scene) returns (preview: string)
    requires Looks(state, memory, s)
    ensures preview == PreviewText(s, offset)
  {
    hide PreviewChar;
    preview := "";
    for index := 0 to COLS
      modifies {}
      invariant |preview| == index && forall i :: 0 <= i < index ==> preview[i] == PreviewChar(s, offset + i)
    {
      var glyph := PreviewByte(memory, state, offset + index, s);
      preview := preview + [glyph];
    }
  }

  method RenderAsciiPreview(console: Console, memory: MemAdapter, state: PageState, offset: nat, row: nat, ghost s: Scene)
    requires console.Valid() && Looks(state, memory, s) && row < console.rows && console.attribute == NORMAL
    modifies console`column, console`row, console.grid
    ensures forall r, c :: 0 <= r < console.rows && 0 <= c < console.columns ==>
              console.grid[r, c] ==
                if r == row && ASCII_PREVIEW_COLUMN <= c < ASCII_PREVIEW_COLUMN + COLS
                then Glyph(PreviewText(s, offset)[c - ASCII_PREVIEW_COLUMN], NORMAL)
                else old(console.grid[r, c])
  {
    hide PreviewText;
    var preview := PreviewString(memory, state, offset, s);
    console.OutputStringAt(ASCII_PREVIEW_COLUMN, row, preview);
  }

  // -------------------------------------------------------- drawing a whole page

  /** A position of the data area is drawn once the cells before offset `k`, and the margins of their rows, are. */
  predicate DrawnUpTo(w: nat, k: nat, r: nat, c: nat)
    requires SupportedWidth(w) && InData(r)
  {
    if InCells(w, c) then CellAt(w, r, c) < k else Margin(c) && (r - DATA_ROW) * COLS < k
  }

  /** What drawing the cell at `k`, and the margins of its row when it is the first of the row, adds. */
  lemma DrawnStep(s: Scene, k: nat, r: nat, c: nat)
    requires SupportedWidth(s.page.cursor.width) && InData(r)
    requires k < PAGE_SIZE && k % s.page.cursor.width == 0
    ensures var w := s.page.cursor.width;
            && (DrawnUpTo(w, k + w, r, c) <==>
                || OnCell(w, k, r, c)
                || (k % COLS == 0 && r == CellRow(k) && Margin(c))
                || DrawnUpTo(w, k, r, c))
            && (OnCell(w, k, r, c) ==> DataGlyph(s, r, c) == CellGlyph(s, k, c))
            && (OnCell(w, k, r, c) ==> !Margin(c))
  {
    hide CellText;
    hide PreviewText;
    var w := s.page.cursor.width;
    var row := (r - DATA_ROW) * COLS;
    OneCellPerPosition(w, k, r, c);
    MultipleTrans(row, COLS, w);
    CellsEndBeforePreview(w);
    if InCells(w, c) {
      CellAtBounds(w, r, c);
      var at := CellAt(w, r, c);
      if k < at {
        MultipleGap(k, at, w);
      }
    } else if k < row {
      MultipleGap(k, row, w);
    }
  }

  /** Prefix and preview of a row. */
  method DrawMargins(console: Console, memory: MemAdapter, state: PageState, offset: u64, row: nat, ghost s: Scene)
    requires console.Valid() && Looks(state, memory, s) && console.attribute == NORMAL
    requires offset < PAGE_SIZE && offset % COLS == 0 && row == CellRow(offset)
    modifies console`column, console`row, console.grid
    ensures forall r, c :: 0 <= r < console.rows && 0 <= c < console.columns ==>
              console.grid[r, c] == if r == row && Margin(c) then DataGlyph(s, r, c) else old(console.grid[r, c])
  {
    hide PreviewText;
    hide CellText;
    hide RowPrefix;
    CellsEndBeforePreview(s.page.cursor.width);
    assert (row - DATA_ROW) * COLS == offset;
    RenderRowPrefix(console, offset, row);
    RenderAsciiPreview(console, memory, state, offset, row, s);
    forall c | 0 <= c < console.columns && Margin(c)
      ensures console.grid[row, c] == DataGlyph(s, row, c)
    {
    }
  }

  method DrawMemoryRows(console: Console, memory: MemAdapter, state: PageState, ghost s: Scene)
    requires console.Valid() && Looks(state, memory, s) && console.attribute == NORMAL
    modifies console`attribute, console`column, console`row, console.grid
    ensures console.attribute == NORMAL
    ensures var w := s.page.cursor.width;
            forall r, c :: 0 <= r < console.rows && 0 <= c < console.columns ==>
              console.grid[r, c] ==
                if InData(r) && (InCells(w, c) || Margin(c)) then DataGlyph(s, r, c) else old(console.grid[r, c])
  {
    hide PreviewText;
    hide CellText;
    hide RowPrefix;
    hide DataGlyph;
    ghost var w := s.page.cursor.width;
    var offset: u64 := 0;
    while offset < PAGE_SIZE
      modifies console`attribute, console`column, console`row, console.grid
      invariant offset <= PAGE_SIZE && offset % w == 0
      invariant Looks(state, memory, s) && console.attribute == NORMAL
      invariant forall r, c :: 0 <= r < console.rows && 0 <= c < console.columns ==>
        console.grid[r, c] ==
          if InData(r) && DrawnUpTo(w, offset, r, c) then DataGlyph(s, r, c) else old(console.grid[r, c])
      decreases PAGE_SIZE - offset
    {
      offset := DrawStep(console, memory, state, offset, s);
    }
    forall r, c | InData(r) && 0 <= c < console.columns
      ensures DrawnUpTo(w, PAGE_SIZE, r, c) <==> InCells(w, c) || Margin(c)
    {
      if InCells(w, c) {
        CellAtBounds(w, r, c);
      }
    }
  }

  /** One turn of the row loop: the cell at `offset`, after the margins of the row it starts. */
  method DrawStep(console: Console, memory: MemAdapter, state: PageState, offset: u64, ghost s: Scene)
    returns (next: u64)
    requires console.Valid() && Looks(state, memory, s) && console.attribute == NORMAL
    requires offset < PAGE_SIZE && offset % s.page.cursor.width == 0
    requires forall r, c :: InData(r) && 0 <= c < console.columns && DrawnUpTo(s.page.cursor.width, offset, r, c) ==>
               console.grid[r, c] == DataGlyph(s, r, c)
    modifies console`attribute, console`column, console`row, console.grid
    ensures console.attribute == NORMAL && Looks(state, memory, s)
    ensures next == offset + s.page.cursor.width <= PAGE_SIZE && next % s.page.cursor.width == 0
    ensures forall r, c :: 0 <= r < console.rows && 0 <= c < console.columns ==>
              console.grid[r, c] ==
                if InData(r) && DrawnUpTo(s.page.cursor.width, next, r, c) then DataGlyph(s, r, c)
                else old(console.grid[r, c])
  {
    hide PreviewText;
    hide CellText;
    hide RowPrefix;
    ghost var w := s.page.cursor.width;
    assert w == state.cursor.width;
    forall r, c | InData(r) && 0 <= c < console.columns
      ensures DrawnUpTo(w, offset + w, r, c) <==>
                OnCell(w, offset, r, c) || (offset % COLS == 0 && r == CellRow(offset) && Margin(c)) ||
                DrawnUpTo(w, offset, r, c)
      ensures OnCell(w, offset, r, c) ==> DataGlyph(s, r, c) == CellGlyph(s, offset, c) && !Margin(c)
    {
      DrawnStep(s, offset, r, c);
    }
    hide DataGlyph;
    hide DrawnUpTo;
    if offset % COLS == 0 {
      var row := DATA_ROW + offset / COLS;
      DrawMargins(console, memory, state, offset, row, s);
    }
    DrawCell(console, memory, state, offset, offset == state.cursor.offset, s);
    AlignedCellFits(offset, w);
    MultipleStep(offset, w);
    next := offset + state.cursor.width;
  }

  /** A position of the header row is drawn once the cells before in-row offset `k` are. */
  predicate NamedUpTo(width: nat, k: nat, c: nat)
    requires SupportedWidth(width)
  {
    InCells(width, c) && CellInRow(width, c) < k
  }

  function HeaderColumn(width: nat, k: nat): nat
    requires SupportedWidth(width)
  {
    DATA_COLUMN + (k / width) * CellSpan(width)
  }

  /** The cells of a row are numbered without gaps. */
  lemma NextIndex(width: nat, k: nat)
    requires SupportedWidth(width) && k < COLS && k % width == 0
    ensures k / width < COLS / width && k == (k / width) * width && k % COLS == k
    ensures (k + width) / width == k / width + 1 && (k + width) % width == 0
    ensures k + width <= COLS
  {
    var i := k / width;
    ColumnIndex(width, k);
    SmallMod(k, COLS);
    DivisionUnique(k + width, width, i + 1, 0);
    CellsEndBeforePreview(width);
    MultipleGap(k, COLS, width);
  }

  lemma SpansFit(width: nat, i: nat)
    requires SupportedWidth(width) && i < COLS / width
    ensures (i + 1) * CellSpan(width) == i * CellSpan(width) + CellSpan(width)
    ensures DATA_COLUMN + (i + 1) * CellSpan(width) <= DEFAULT_COLUMNS
  {
    var n, span := COLS / width, CellSpan(width);
    CellsEndBeforePreview(width);
    ProductSize(span, n - (i + 1));
    assert span * (n - (i + 1)) == n * span - (i + 1) * span;
  }

  /** The header cells follow each other without gaps. */
  lemma HeaderColumnStep(width: nat, k: nat)
    requires SupportedWidth(width) && k < COLS && k % width == 0
    ensures HeaderColumn(width, k + width) == HeaderColumn(width, k) + CellSpan(width)
    ensures HeaderColumn(width, k) + CellSpan(width) <= DEFAULT_COLUMNS
    ensures k / width < COLS / width && CellColumn(width, k) == HeaderColumn(width, k)
    ensures k + width <= COLS && (k + width) % width == 0
  {
    NextIndex(width, k);
    SpansFit(width, k / width);
  }

  /** What drawing the header cell at `k` adds. */
  lemma NamedStep(width: nat, k: nat, c: nat)
    requires SupportedWidth(width) && k < COLS && k % width == 0
    ensures var column := HeaderColumn(width, k);
            && (NamedUpTo(width, k + width, c) <==> column <= c < column + CellSpan(width) || NamedUpTo(width, k, c))
            && (column <= c < column + CellSpan(width) ==>
                  HeaderGlyph(width, c) == Glyph(HeaderText(k, width)[c - column], NORMAL))
  {
    hide HeaderText;
    HeaderColumnStep(width, k);
    var i := k / width;
    var column := HeaderColumn(width, k);
    assert k == i * width;
    if column <= c < column + CellSpan(width) {
      ColumnCell(width, i, c);
      assert CellInRow(width, c) == k;
    } else if InCells(width, c) {
      CellInRowBounds(width, c);
      var at := CellInRow(width, c);
      assert at != k;
      if k < at {
        MultipleGap(k, at, width);
      }
    }
  }

  method DrawMemoryHeader(console: Console, width: u64)
    requires console.Valid() && SupportedWidth(width)
    modifies console`attribute, console`column, console`row, console.grid
    ensures console.attribute == NORMAL
    ensures forall r, c :: 0 <= r < console.rows && 0 <= c < console.columns ==>
              console.grid[r, c] ==
                if r == HEADER_ROW && InCells(width, c) then HeaderGlyph(width, c) else old(console.grid[r, c])
  {
    hide HeaderText;
    HeaderColumnStep(width, 0);
    assert HeaderColumn(width, 0) == 4;
    assert forall c :: !NamedUpTo(width, 0, c);
    hide HeaderColumn;
    hide CellSpan;
    hide NamedUpTo;
    hide HeaderGlyph;
    console.SetAttribute(NORMAL);
    console.SetCursorPosition(4, HEADER_ROW);
    var offset: u64 := 0;
    while offset < COLS
      modifies console`column, console.grid
      invariant offset <= COLS && offset % width == 0
      invariant console.attribute == NORMAL && console.row == HEADER_ROW
      invariant console.column == HeaderColumn(width, offset)
      invariant forall r, c :: 0 <= r < console.rows && 0 <= c < console.columns ==>
        console.grid[r, c] ==
          if r == HEADER_ROW && NamedUpTo(width, offset, c) then HeaderGlyph(width, c) else old(console.grid[r, c])
      decreases COLS - offset
    {
      HeaderColumnStep(width, offset);
      var text := HeaderCell(offset, width);
      ghost var column, next := console.column, offset + width;
      forall c | 0 <= c < console.columns
        ensures NamedUpTo(width, next, c) <==> column <= c < column + |text| || NamedUpTo(width, offset, c)
        ensures column <= c < column + |text| ==> HeaderGlyph(width, c) == Glyph(text[c - column], NORMAL)
      {
        NamedStep(width, offset, c);
      }
      assert |text| == CellSpan(width) && console.column + |text| <= console.columns;
      console.OutputString(text);
      assert console.column == HeaderColumn(width, offset + width);
      offset := offset + width;
    }
    forall c | 0 <= c < console.columns
      ensures NamedUpTo(width, COLS, c) <==> InCells(width, c)
    {
      HeaderComplete(width, c);
    }
  }

  lemma HeaderComplete(width: nat, c: nat)
    requires SupportedWidth(width)
    ensures NamedUpTo(width, COLS, c) <==> InCells(width, c)
  {
    if InCells(width, c) {
      CellInRowBounds(width, c);
    }
  }

  method HeaderCell(offset: u64, width: u64) returns (text: string)
    requires SupportedWidth(width)
    ensures text == HeaderText(offset, width)
  {
    var ascii := new char[18];
    var length := FormatOffsetHeader(offset, width, ascii);
    text := AsciiToChar16(ascii, 18, HeaderText(offset, width));
  }

  /** Clears and writes in whatever attribute the console has. */
  method DrawPageFrame(console: Console, state: PageState)
    requires console.Valid()
    modifies console`column, console`row, console.grid
    ensures forall r, c :: 0 <= r < console.rows && 0 <= c < console.columns ==>
              console.grid[r, c] ==
                Glyph((if r == TITLE_ROW then Written(TITLE_TEXT, 0, c)
                       else if r == TYPE_ROW then Written(TypeLine(state.View()), 0, c)
                       else BLANK).ch, console.attribute)
  {
    hide TypeLine;
    console.ClearScreen();
    console.OutputStringAt(0, TITLE_ROW, TITLE_TEXT);
    var typeLine := BuildPageTypeString(state);
    console.OutputStringAt(0, TYPE_ROW, typeLine);
  }

  /** Clear two rows, then write them. */
  method DrawRows(console: Console, row1: nat, text1: string, row2: nat, text2: string)
    requires console.Valid() && console.attribute == NORMAL && row1 < row2 < console.rows
    requires |text1| <= DEFAULT_COLUMNS && |text2| <= DEFAULT_COLUMNS
    modifies console`column, console`row, console.grid
    ensures forall r, c :: 0 <= r < console.rows && 0 <= c < console.columns ==>
              console.grid[r, c] ==
                if r == row1 && c < DEFAULT_COLUMNS then Written(text1, 0, c)
                else if r == row2 && c < DEFAULT_COLUMNS then Written(text2, 0, c)
                else old(console.grid[r, c])
  {
    ClearRow(console, row1);
    ClearRow(console, row2);
    console.OutputStringAt(0, row1, text1);
    console.OutputStringAt(0, row2, text2);
  }

  method DrawPageHelp(console: Console)
    requires console.Valid() && console.attribute == NORMAL
    modifies console`column, console`row, console.grid
    ensures forall r, c :: 0 <= r < console.rows && 0 <= c < console.columns ==>
              console.grid[r, c] ==
                if r == HELP_ROW && c < DEFAULT_COLUMNS then Written(HELP_TEXT, 0, c)
                else if r == HELP2_ROW && c < DEFAULT_COLUMNS then Written(HELP2_TEXT, 0, c)
                else old(console.grid[r, c])
  {
    hide Written;
    DrawRows(console, HELP_ROW, HELP_TEXT, HELP2_ROW, HELP2_TEXT);
  }

  /** Draw the whole page: afterwards the screen shows the scene, on the attribute the console had. */
  method DrawPage(console: Console, memory: MemAdapter, state: PageState, ghost s: Scene)
    requires console.Valid() && Looks(state, memory, s)
    modifies console`attribute, console`column, console`row, console.grid
    ensures console.attribute == NORMAL && Looks(state, memory, s)
    ensures Shows(console, s, old(console.attribute))
  {
    hide CellText;
    hide PreviewText;
    hide HeaderText;
    hide RowPrefix;
    hide TypeLine;
    hide InfoLine;
    assert s.page == state.View();
    LineLengths(s.page);
    ghost var w, back := s.page.cursor.width, console.attribute;
    DrawPageFrame(console, state);
    DrawMemoryHeader(console, state.cursor.width);
    DrawMemoryRows(console, memory, state, s);
    DrawPageHelp(console);
    UpdateInfo(console, state);
    forall r, c | 0 <= r < console.rows && 0 <= c < console.columns
      ensures console.grid[r, c] == Backed(w, back, r, c, GlyphAt(s, r, c))
    {
      UninkedIsBlank(s, r, c);
    }
  }

  /** Below the title rows only inked positions show anything. */
  lemma UninkedIsBlank(s: Scene, r: nat, c: nat)
    requires SupportedWidth(s.page.cursor.width)
    ensures !Inked(s.page.cursor.width, r, c) && r > TYPE_ROW ==> GlyphAt(s, r, c) == BLANK
  {
    hide CellText;
    hide PreviewText;
    hide HeaderText;
    hide RowPrefix;
    hide InfoLine;
    LineLengths(s.page);
  }
}
