/**
  What the PageMem page looks like: the glyph at every row and column of the screen as
  a function of the page state and of memory, and the layout facts redrawing relies on.
 */
module Picture {
  import opened Words
  import opened MemoryMap
  import opened PhysicalMemory
  import opened AccessPolicy
  import opened AddressMap
  import opened Adapters
  import opened Text
  import opened Session

  datatype Glyph = Glyph(ch: char, attribute: nat)

  const NORMAL: nat := 0x07
  const HIGHLIGHT: nat := 0x70
  const BLANK := Glyph(' ', NORMAL)

  const TITLE_ROW: nat := 0
  const TYPE_ROW: nat := 1
  const HEADER_ROW: nat := 2
  const DATA_ROW: nat := 3
  const INFO_ROW: nat := 19
  const HELP_ROW: nat := 20
  const HELP2_ROW: nat := 21
  const DATA_COLUMN: nat := 4
  const ASCII_PREVIEW_COLUMN: nat := 54
  const DEFAULT_COLUMNS: nat := 80

  const TITLE_TEXT := "Memory Viewer"
  const HELP_TEXT := "Arrows: Move  N/P: Page"
  const HELP2_TEXT := "E: Edit  G: Goto  R: Ranges  1/2/4/8: Width  ESC: Exit"

  /** Everything a drawing depends on. */
  datatype Scene = Scene(fw: Firmware, page: Page, mem: Ram)

  // -------------------------------------------------------------------- layout

  /** Columns one cell takes: its digits and a space. */
  function CellSpan(width: nat): nat {
    2 * width + 1
  }

  function CellColumn(width: nat, offset: nat): nat
    requires SupportedWidth(width)
  {
    DATA_COLUMN + ((offset % COLS) / width) * CellSpan(width)
  }

  function CellRow(offset: nat): nat {
    DATA_ROW + offset / COLS
  }

  predicate OnCell(width: nat, offset: nat, r: int, c: int)
    requires SupportedWidth(width)
  {
    r == CellRow(offset) && CellColumn(width, offset) <= c < CellColumn(width, offset) + CellSpan(width)
  }

  /** The columns of the cells of a row. */
  predicate InCells(width: nat, c: int)
    requires SupportedWidth(width)
  {
    DATA_COLUMN <= c < DATA_COLUMN + (COLS / width) * CellSpan(width)
  }

  predicate InData(r: int) {
    DATA_ROW <= r < INFO_ROW
  }

  /** The offset, within its row, of the cell at a column. */
  function CellInRow(width: nat, c: nat): nat
    requires SupportedWidth(width) && InCells(width, c)
  {
    ((c - DATA_COLUMN) / CellSpan(width)) * width
  }

  /** The page offset of the cell at a screen position. */
  function CellAt(width: nat, r: nat, c: nat): nat
    requires SupportedWidth(width) && InCells(width, c) && InData(r)
  {
    (r - DATA_ROW) * COLS + CellInRow(width, c)
  }

  lemma CellIndex(width: nat, c: nat)
    requires SupportedWidth(width) && InCells(width, c)
    ensures var k := (c - DATA_COLUMN) / CellSpan(width);
            k < COLS / width && DATA_COLUMN + k * CellSpan(width) <= c < DATA_COLUMN + (k + 1) * CellSpan(width)
  {
    var span, n, k := CellSpan(width), COLS / width, (c - DATA_COLUMN) / CellSpan(width);
    assert c - DATA_COLUMN == span * k + (c - DATA_COLUMN) % span;
    ProductSize(span, k - n);
    assert span * (k - n) == span * k - n * span;
  }

  lemma IndexedOffset(width: nat, k: nat)
    requires SupportedWidth(width) && k < COLS / width
    ensures k * width < COLS && (k * width) % width == 0 && (k * width) / width == k
  {
    DivisionUnique(k * width, width, k, 0);
    ProductSize(width, COLS / width - 1 - k);
    CellsEndBeforePreview(width);
    assert width * (COLS / width - 1 - k) == width * (COLS / width) - width - k * width;
  }

  lemma CellInRowBounds(width: nat, c: nat)
    requires SupportedWidth(width) && InCells(width, c)
    ensures CellInRow(width, c) < COLS && CellInRow(width, c) % width == 0
    ensures var k := CellInRow(width, c) / width;
            DATA_COLUMN + k * CellSpan(width) <= c < DATA_COLUMN + (k + 1) * CellSpan(width)
    ensures c < ASCII_PREVIEW_COLUMN
  {
    CellIndex(width, c);
    IndexedOffset(width, (c - DATA_COLUMN) / CellSpan(width));
    CellsEndBeforePreview(width);
  }

  lemma CellsEndBeforePreview(width: nat)
    requires SupportedWidth(width)
    ensures width * (COLS / width) == COLS
    ensures DATA_COLUMN + (COLS / width) * CellSpan(width) <= ASCII_PREVIEW_COLUMN
  {
  }

  lemma CellAtBounds(width: nat, r: nat, c: nat)
    requires SupportedWidth(width) && InCells(width, c) && InData(r)
    ensures CellAt(width, r, c) < PAGE_SIZE && CellAt(width, r, c) % width == 0
    ensures CellAt(width, r, c) / COLS == r - DATA_ROW
    ensures OnCell(width, CellAt(width, r, c), r, c)
  {
    CellInRowBounds(width, c);
    var k := CellInRow(width, c);
    assert CellAt(width, r, c) % COLS == k;
    MultipleTrans((r - DATA_ROW) * COLS, COLS, width);
    RemainderOfSum((r - DATA_ROW) * COLS, k, width);
  }

  /** Aligned offsets own disjoint rectangles: a position lies on the cell of exactly one of them. */
  lemma OneCellPerPosition(width: nat, offset: nat, r: nat, c: nat)
    requires SupportedWidth(width) && offset < PAGE_SIZE && offset % width == 0
    ensures OnCell(width, offset, r, c) <==> InData(r) && InCells(width, c) && CellAt(width, r, c) == offset
  {
    var k := (offset % COLS) / width;
    ColumnIndex(width, offset);
    if OnCell(width, offset, r, c) {
      ColumnCell(width, k, c);
    }
    if InData(r) && InCells(width, c) {
      CellAtBounds(width, r, c);
    }
  }

  lemma ColumnIndex(width: nat, offset: nat)
    requires SupportedWidth(width) && offset % width == 0
    ensures (offset % COLS) / width < COLS / width
    ensures ((offset % COLS) / width) * width == offset % COLS
  {
    assert COLS % width == 0;
    var x := offset % COLS;
    RemainderOfSum(COLS * (offset / COLS), x, width) by {
      MultipleTrans(COLS * (offset / COLS), COLS, width);
    }
    assert offset == COLS * (offset / COLS) + x;
  }

  lemma ColumnCell(width: nat, k: nat, c: nat)
    requires SupportedWidth(width) && k < COLS / width
    requires DATA_COLUMN + k * CellSpan(width) <= c < DATA_COLUMN + (k + 1) * CellSpan(width)
    ensures InCells(width, c) && CellInRow(width, c) == k * width
  {
    var span, n := CellSpan(width), COLS / width;
    DivisionUnique(c - DATA_COLUMN, span, k, c - DATA_COLUMN - k * span);
    ProductSize(span, n - (k + 1));
    assert span * (n - (k + 1)) == n * span - (k + 1) * span;
  }

  // --------------------------------------------------------------------- texts

  function QuestionMarks(n: nat): (s: string)
    ensures |s| == n && forall i :: 0 <= i < n ==> s[i] == '?'
  {
    seq(n, _ => '?')
  }

  /** The address of a page offset. */
  function OffsetAddress(s: Scene, offset: nat): u64 {
    Wrap(s.page.cursor.address + offset)
  }

  /** What the view shows of a range: nothing unless it is browsable and its read succeeds. */
  function ShownValue(fw: Firmware, mem: Ram, address: u64, width: u64): Option<u64> {
    if CoreRangeOk(CoreMap(fw.descriptors), address, width) && ReadStatus(fw, address, width) == Success
    then Some(ReadValue(fw, mem, address, width))
    else None
  }

  function CellValue(s: Scene, offset: nat): Option<u64> {
    ShownValue(s.fw, s.mem, OffsetAddress(s, offset), s.page.cursor.width)
  }

  function CellText(s: Scene, offset: nat): (text: string)
    ensures |text| == CellSpan(s.page.cursor.width)
  {
    var w := s.page.cursor.width;
    match CellValue(s, offset)
    case Some(value) => CellDigits(ValueBytes(value, w)) + " "
    case None => QuestionMarks(2 * w) + " "
  }

  /** A byte as the preview column shows it. */
  function PreviewGlyph(value: Option<u64>): char {
    if value.Some? && 32 <= value.value <= 126 then value.value as char else '.'
  }

  function PreviewChar(s: Scene, offset: nat): char {
    PreviewGlyph(ShownValue(s.fw, s.mem, OffsetAddress(s, offset), 1))
  }

  function PreviewText(s: Scene, offset: nat): (text: string)
    ensures |text| == COLS
  {
    seq(COLS, i requires 0 <= i < COLS => PreviewChar(s, offset + i))
  }

  function RowPrefix(offset: nat): (text: string)
    ensures |text| == 3
  {
    HexText(offset, 2) + ":"
  }

  function HeaderText(offset: nat, width: nat): (text: string)
    ensures |text| == CellSpan(width)
  {
    CellDigits(OffsetBytes(offset, width)) + " "
  }

  function TypeLine(p: Page): string {
    "Type: " + (if p.hasDescriptor then TypeName(p.uefiType) else "Unmapped") + "  Access: " + AccessText(p.access)
  }

  function InfoLine(p: Page): string {
    "Addr: " + AddressText(CurrentAddress(p.cursor)) + "  Offset: " + HexText(p.cursor.offset, 2) +
    "  Width: " + Decimal(p.cursor.width)
  }

  // ------------------------------------------------------------------- picture

  /** The glyph at column `c` of a row on which only `text` was written, from column `start`. */
  function Written(text: string, start: nat, c: nat): Glyph {
    if start <= c < start + |text| then Glyph(text[c - start], NORMAL) else BLANK
  }

  function CellGlyph(s: Scene, offset: nat, c: nat): Glyph
    requires SupportedWidth(s.page.cursor.width)
    requires CellColumn(s.page.cursor.width, offset) <= c
          < CellColumn(s.page.cursor.width, offset) + CellSpan(s.page.cursor.width)
  {
    Glyph(CellText(s, offset)[c - CellColumn(s.page.cursor.width, offset)],
          if offset == s.page.cursor.offset then HIGHLIGHT else NORMAL)
  }

  function HeaderGlyph(width: nat, c: nat): Glyph
    requires SupportedWidth(width)
  {
    if InCells(width, c) then
      CellInRowBounds(width, c);
      var offset := CellInRow(width, c);
      assert offset % COLS == offset;
      Glyph(HeaderText(offset, width)[c - CellColumn(width, offset)], NORMAL)
    else BLANK
  }

  function DataGlyph(s: Scene, r: nat, c: nat): Glyph
    requires SupportedWidth(s.page.cursor.width) && InData(r)
  {
    var offset := (r - DATA_ROW) * COLS;
    if InCells(s.page.cursor.width, c) then
      CellAtBounds(s.page.cursor.width, r, c);
      CellGlyph(s, CellAt(s.page.cursor.width, r, c), c)
    else if c < DATA_COLUMN then Written(RowPrefix(offset), 0, c)
    else Written(PreviewText(s, offset), ASCII_PREVIEW_COLUMN, c)
  }

  /** The whole screen. */
  function GlyphAt(s: Scene, r: nat, c: nat): Glyph
    requires SupportedWidth(s.page.cursor.width)
  {
    if r == TITLE_ROW then Written(TITLE_TEXT, 0, c)
    else if r == TYPE_ROW then Written(TypeLine(s.page), 0, c)
    else if r == HEADER_ROW then HeaderGlyph(s.page.cursor.width, c)
    else if InData(r) then DataGlyph(s, r, c)
    else if r == INFO_ROW then Written(InfoLine(s.page), 0, c)
    else if r == HELP_ROW then Written(HELP_TEXT, 0, c)
    else if r == HELP2_ROW then Written(HELP2_TEXT, 0, c)
    else BLANK
  }

  /** The columns of a data row outside the cells that are written: the row prefix and the preview. */
  predicate Margin(c: int) {
    0 <= c < 3 || ASCII_PREVIEW_COLUMN <= c < ASCII_PREVIEW_COLUMN + COLS
  }

  /** The positions a full redraw writes after it has set the normal attribute. */
  predicate Inked(width: nat, r: int, c: int)
    requires SupportedWidth(width)
  {
    || (r == HEADER_ROW && InCells(width, c))
    || (InData(r) && (InCells(width, c) || Margin(c)))
    || ((r == INFO_ROW || r == HELP_ROW || r == HELP2_ROW) && 0 <= c < DEFAULT_COLUMNS)
  }

  /** A glyph of a screen that was cleared with attribute `back`: the other positions keep that attribute. */
  function Backed(width: nat, back: nat, r: nat, c: nat, glyph: Glyph): Glyph
    requires SupportedWidth(width)
  {
    if Inked(width, r, c) then glyph else Glyph(glyph.ch, back)
  }

  /** Cleared with the normal attribute the screen is the picture itself. */
  lemma NormalBackIsPicture(s: Scene, r: nat, c: nat)
    requires SupportedWidth(s.page.cursor.width)
    ensures Backed(s.page.cursor.width, NORMAL, r, c, GlyphAt(s, r, c)) == GlyphAt(s, r, c)
  {
    hide CellText;
    hide PreviewText;
    hide InfoLine;
    hide TypeLine;
  }

  // -------------------------------------------------------- facts about display

  lemma LineLengths(p: Page)
    ensures |TypeLine(p)| < 80 && '\0' !in TypeLine(p)
    ensures SupportedWidth(p.cursor.width) ==> |InfoLine(p)| < 80 && '\0' !in InfoLine(p)
  {
    TypeNameFits(p.uefiType);
    if p.hasDescriptor && p.uefiType < |TYPE_NAMES| {
      KnownTypeName(p.uefiType);
    }
    WordDecimalLength(p.uefiType);
    if SupportedWidth(p.cursor.width) {
      WordDecimalLength(p.cursor.width);
    }
  }

  /** The range of the page that starts at an offset can be browsed and read. */
  predicate Readable(s: Scene, offset: nat, width: u64) {
    && s.page.cursor.address + offset + width <= TWO64
    && s.page.cursor.address + offset < TWO64
    && CoreRangeOk(CoreMap(s.fw.descriptors), s.page.cursor.address + offset, width)
    && ReadStatus(s.fw, s.page.cursor.address + offset, width) == Success
  }

  lemma OffsetIsAddress(s: Scene, offset: nat)
    requires Ready(s.page) && offset < PAGE_SIZE
    ensures s.page.cursor.address + offset < TWO64
    ensures OffsetAddress(s, offset) == s.page.cursor.address + offset
  {
    CurrentAddressSplits(s.page.cursor.(offset := offset));
    hide Floor;
  }

  lemma ShownIffReadable(s: Scene, offset: nat, width: u64)
    requires Ready(s.page) && offset < PAGE_SIZE
    ensures var v := ShownValue(s.fw, s.mem, OffsetAddress(s, offset), width);
            && (v.Some? <==> Readable(s, offset, width))
            && (v.Some? ==> v.value == Load(s.mem, s.page.cursor.address + offset, width))
  {
    OffsetIsAddress(s, offset);
    hide CoreRangeOk;
  }

  /**
    The cell at an offset of the page shows the bytes at page address plus offset, highest
    offset first, exactly when they can be browsed and read, and question marks otherwise.
   */
  lemma CellShowsBytes(s: Scene, offset: nat)
    requires Ready(s.page) && offset < PAGE_SIZE
    ensures CellValue(s, offset).Some? <==> Readable(s, offset, s.page.cursor.width)
    ensures var a, w := s.page.cursor.address + offset, s.page.cursor.width;
            CellText(s, offset) ==
              if Readable(s, offset, w) then CellDigits(s.mem[a..a + w]) + " " else QuestionMarks(2 * w) + " "
  {
    var a, w := s.page.cursor.address + offset, s.page.cursor.width;
    ShownIffReadable(s, offset, w);
    hide ShownValue;
    hide Readable;
    if CellValue(s, offset).Some? {
      assert a + w <= TWO64 by {
        ReadableEnds(s, offset, w);
      }
      ValueBytesOfLoad(s.mem, a, w);
    }
  }

  lemma ReadableEnds(s: Scene, offset: nat, width: u64)
    requires Readable(s, offset, width)
    ensures s.page.cursor.address + offset + width <= TWO64
  {
  }

  /** Decoding the digits of a readable cell recovers the value in memory. */
  lemma CellTextDecodes(s: Scene, offset: nat)
    requires Ready(s.page) && offset < PAGE_SIZE && Readable(s, offset, s.page.cursor.width)
    ensures var a, w := s.page.cursor.address + offset, s.page.cursor.width;
            var digits := CellText(s, offset)[..2 * w];
            AllHex(digits) && a + w <= TWO64 && ParseHex(digits) == Load(s.mem, a, w)
  {
    var a, w := s.page.cursor.address + offset, s.page.cursor.width;
    ReadableEnds(s, offset, w);
    CellShowsBytes(s, offset);
    hide CellText;
    hide Readable;
    var value := Load(s.mem, a, w);
    ValueBytesOfLoad(s.mem, a, w);
    assert CellText(s, offset)[..2 * w] == CellDigits(ValueBytes(value, w));
    ParseCellDigits(value, w);
    LoadFitsWord(s.mem, a, w);
    SmallMod(value, Pow256(w));
  }

  /** Character `i` of a preview is the byte at page address plus offset plus `i` when it can be read and printed, else a dot. */
  lemma PreviewShowsBytes(s: Scene, offset: nat, i: nat)
    requires Ready(s.page) && i < 16 && offset + i < PAGE_SIZE
    ensures s.page.cursor.address + offset + i < TWO64
    ensures var b := s.mem[s.page.cursor.address + offset + i];
            PreviewText(s, offset)[i] ==
              if Readable(s, offset + i, 1) && ' ' as int <= b <= '~' as int then b as char else '.'
  {
    OffsetIsAddress(s, offset + i);
    ShownIffReadable(s, offset + i, 1);
    hide ShownValue;
    hide Readable;
    assert PreviewText(s, offset)[i] == PreviewChar(s, offset + i);
    assert Load(s.mem, s.page.cursor.address + offset + i, 1) == s.mem[s.page.cursor.address + offset + i];
  }

  /** The same page seen one byte at a time. */
  function Bytewise(s: Scene): Scene {
    s.(page := s.page.(cursor := s.page.cursor.(width := 1)))
  }

  lemma HeaderNamesOffset(offset: nat, w: nat, k: nat)
    requires SupportedWidth(w) && offset % w == 0 && k < w
    ensures HeaderText(offset % COLS, w)[2 * (w - 1 - k)..2 * (w - k)] == HexByte((offset + k) % COLS)
  {
    var bytes := OffsetBytes(offset % COLS, w);
    var header, i, j := HeaderText(offset % COLS, w), 2 * (w - 1 - k), 2 * (w - k);
    CellDigitsAt(bytes, k);
    hide CellDigits;
    hide HexByte;
    assert 0 <= i < j <= 2 * w;
    assert bytes[k] == (offset + k) % COLS by {
      RowOffset(offset, w, k);
    }
    assert header[i..j] == CellDigits(bytes)[i..j];
  }

  /**
    Width-independent display: the digits at byte `k` of a wide cell are the digits of the
    one-byte cell of that byte, and the header names its offset at the same columns.
   */
  lemma WideCellIsBytesHighestFirst(s: Scene, offset: nat, k: nat)
    requires Ready(s.page) && offset % s.page.cursor.width == 0 && offset < PAGE_SIZE && k < s.page.cursor.width
    requires CellValue(s, offset).Some? && CellValue(Bytewise(s), offset + k).Some?
    ensures var w := s.page.cursor.width;
            var i := 2 * (w - 1 - k);
            && CellText(s, offset)[i..i + 2] == CellText(Bytewise(s), offset + k)[..2]
            && HeaderText(offset % COLS, w)[i..i + 2] == HexByte((offset + k) % COLS)
  {
    hide CellText;
    hide CellDigits;
    hide HeaderText;
    hide HexByte;
    hide ShownValue;
    var w, a, n := s.page.cursor.width, s.page.cursor.address + offset, Bytewise(s);
    WidthDividesPage(s.page.cursor);
    AlignedCellFits(offset, w);
    CellShowsBytes(s, offset);
    CellShowsBytes(n, offset + k);
    WideDigitsAt(s.mem, a, w, k);
    CellSlices(CellText(s, offset), CellText(n, offset + k), CellDigits(s.mem[a..a + w]),
               CellDigits(s.mem[a + k..a + k + 1]), 2 * (w - 1 - k));
    HeaderNamesOffset(offset, w, k);
    assert 2 * (w - 1 - k) + 2 == 2 * (w - k);
  }

  lemma CellSlices(wide: string, narrow: string, wideDigits: string, narrowDigits: string, i: nat)
    requires wide == wideDigits + " " && narrow == narrowDigits + " "
    requires i + 2 <= |wideDigits| && |narrowDigits| == 2 && wideDigits[i..i + 2] == narrowDigits
    ensures wide[i..i + 2] == narrow[..2]
  {
    assert wide[i..i + 2] == wideDigits[i..i + 2];
  }

  lemma RowOffset(offset: nat, w: nat, k: nat)
    requires SupportedWidth(w) && offset % w == 0 && k < w
    ensures (offset + k) % COLS == offset % COLS + k && (offset % COLS + k) % 256 == offset % COLS + k
  {
    ColumnIndex(w, offset);
    var j := (offset % COLS) / w;
    assert j * w + k < COLS by {
      if w == 1 {
      } else if w == 2 {
      } else if w == 4 {
      } else {
      }
    }
    DivisionUnique(offset + k, COLS, offset / COLS, offset % COLS + k);
  }

  lemma ReadableRangeIsBrowsable(ds: seq<Descriptor>, page: u64, size: u64, address: u64, width: u64)
    requires ToolReadable(ds, page, size) && Within(address, width, page, size)
    requires PagesFit(ds) && |ds| <= TABLE_SIZE
    ensures CoreRangeOk(CoreMap(ds), address, width)
  {
    var i := FirstCover(ds, 0, page, size);
    assert Usable(ds[i]) && Covers(ds[i], address, width);
    CoreMapHasSamePages(ds, address, width);
    RangeCheckAgrees(CoreMap(ds), address, width);
  }

  lemma CoherentAccess(fw: Firmware, p: Page)
    requires Coherent(fw, p)
    ensures p.access == QueryAccess(fw, p.cursor.address, PAGE_SIZE)
  {
  }

  lemma KnownReadIsToolRead(fw: Firmware, address: u64, length: u64)
    requires QueryAccess(fw, address, length).readAllowed
    ensures ToolReadable(fw.descriptors, address, length)
  {
  }

  lemma VerdictDecidesReads(fw: Firmware, p: Page, offset: nat)
    requires Ready(p) && Coherent(fw, p) && p.access.accessKnown
    requires Disjoint(fw.descriptors) && Consistent(fw.protocol)
    requires offset < PAGE_SIZE && offset % p.cursor.width == 0
    ensures p.cursor.address + offset < TWO64
    ensures ReadStatus(fw, p.cursor.address + offset, p.cursor.width) ==
              if p.access.readAllowed then Success else AccessDenied
  {
    var w, page := p.cursor.width, p.cursor.address;
    CoherentAccess(fw, p);
    WidthDividesPage(p.cursor);
    AlignedCellFits(offset, w);
    RemainderOfSum(page, offset, w);
    PageVerdictGovernsCells(fw, page, PAGE_SIZE, page + offset, w);
  }

  lemma ReadablePageIsBrowsable(fw: Firmware, p: Page, offset: nat)
    requires Ready(p) && Coherent(fw, p) && p.access.readAllowed
    requires PagesFit(fw.descriptors) && |fw.descriptors| <= TABLE_SIZE
    requires offset < PAGE_SIZE && offset % p.cursor.width == 0
    ensures p.cursor.address + offset < TWO64
    ensures CoreRangeOk(CoreMap(fw.descriptors), p.cursor.address + offset, p.cursor.width)
  {
    CoherentAccess(fw, p);
    WidthDividesPage(p.cursor);
    AlignedCellFits(offset, p.cursor.width);
    KnownReadIsToolRead(fw, p.cursor.address, PAGE_SIZE);
    ReadableRangeIsBrowsable(fw.descriptors, p.cursor.address, PAGE_SIZE, p.cursor.address + offset, p.cursor.width);
  }

  /** A known verdict shown for a page decides what every aligned cell of the page shows. */
  lemma VerdictDecidesCells(s: Scene, offset: nat)
    requires Ready(s.page) && Coherent(s.fw, s.page) && s.page.access.accessKnown
    requires Disjoint(s.fw.descriptors) && Consistent(s.fw.protocol) && PagesFit(s.fw.descriptors)
    requires |s.fw.descriptors| <= TABLE_SIZE
    requires offset < PAGE_SIZE && offset % s.page.cursor.width == 0
    ensures CellValue(s, offset).Some? <==> s.page.access.readAllowed
  {
    VerdictDecidesReads(s.fw, s.page, offset);
    assert OffsetAddress(s, offset) == s.page.cursor.address + offset;
    if s.page.access.readAllowed {
      ReadablePageIsBrowsable(s.fw, s.page, offset);
      assert CellValue(s, offset).Some?;
    } else {
      assert CellValue(s, offset).None?;
    }
  }

  /** A misaligned cell never shows digits. */
  lemma MisalignedCellUnreadable(s: Scene, offset: nat)
    requires Ready(s.page) && offset < PAGE_SIZE && offset % s.page.cursor.width != 0
    ensures CellValue(s, offset).None?
    ensures CellText(s, offset) == QuestionMarks(2 * s.page.cursor.width) + " "
  {
    WidthDividesPage(s.page.cursor);
    RemainderOfSum(s.page.cursor.address, offset, s.page.cursor.width);
  }

  /** Firmware that reports no attributes leaves every cell of every page without a value. */
  lemma SilentCellsAreBlank(s: Scene, offset: nat)
    requires Silent(s.fw) && SupportedWidth(s.page.cursor.width)
    ensures CellValue(s, offset).None? && CellText(s, offset) == QuestionMarks(2 * s.page.cursor.width) + " "
  {
    hide CoreRangeOk;
    SilenceDenies(s.fw, OffsetAddress(s, offset), s.page.cursor.width);
  }
}
