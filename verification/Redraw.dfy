/**
  Partial redraw: what the arrow-key fast path leaves on the screen, and exactly when
  that is the picture a full redraw would give.
 */
module Redraw {
  import opened Words
  import opened MemoryMap
  import opened PhysicalMemory
  import opened AccessPolicy
  import opened Text
  import opened HexInput
  import opened Session
  import opened Picture

  /** `t` is the scene `s` after a cursor move inside the page to the aligned offset `t.page.cursor.offset`. */
  ghost predicate CursorMoved(s: Scene, t: Scene) {
    && t.fw == s.fw && t.mem == s.mem
    && t.page == s.page.(cursor := s.page.cursor.(offset := t.page.cursor.offset), needsRedraw := t.page.needsRedraw)
    && Ready(s.page) && CellAligned(t.page.cursor)
  }

  /**
    A position after redrawing the old cell without highlight, the new cell with highlight
    and the info row, where `before` was shown.
   */
  function RepaintOver(s: Scene, t: Scene, r: nat, c: nat, before: Glyph): Glyph
    requires CursorMoved(s, t)
  {
    var w, oldOffset, newOffset := t.page.cursor.width, s.page.cursor.offset, t.page.cursor.offset;
    if r == INFO_ROW && c < DEFAULT_COLUMNS then Written(InfoLine(t.page), 0, c)
    else if OnCell(w, newOffset, r, c) then Glyph(CellText(t, newOffset)[c - CellColumn(w, newOffset)], HIGHLIGHT)
    else if OnCell(w, oldOffset, r, c) then Glyph(CellText(t, oldOffset)[c - CellColumn(w, oldOffset)], NORMAL)
    else before
  }

  /** The partial redraw on a screen that showed `s`. */
  function FastPathGlyph(s: Scene, t: Scene, r: nat, c: nat): Glyph
    requires CursorMoved(s, t)
  {
    RepaintOver(s, t, r, c, GlyphAt(s, r, c))
  }

  /** The old offset was a multiple of the width, or its cell is redrawn anyway, or its cell shows no value. */
  predicate FastPathExact(s: Scene, t: Scene)
    requires CursorMoved(s, t)
  {
    var w, oldOffset := s.page.cursor.width, s.page.cursor.offset;
    oldOffset % w == 0 || Floor(oldOffset, w) == t.page.cursor.offset || CellValue(s, Floor(oldOffset, w)).None?
  }

  /** What cells show does not depend on the cursor position inside the page. */
  lemma CellTextUnmoved(s: Scene, t: Scene, offset: nat)
    requires CursorMoved(s, t)
    ensures CellText(t, offset) == CellText(s, offset) && CellValue(t, offset) == CellValue(s, offset)
    ensures PreviewText(t, offset) == PreviewText(s, offset)
  {
    hide ShownValue;
    assert OffsetAddress(t, offset) == OffsetAddress(s, offset);
    forall i | 0 <= i < COLS
      ensures PreviewText(t, offset)[i] == PreviewText(s, offset)[i]
    {
      assert OffsetAddress(t, offset + i) == OffsetAddress(s, offset + i);
      assert PreviewChar(t, offset + i) == PreviewChar(s, offset + i);
    }
  }

  /** A move changes the picture only on the info row and on the cells it leaves and enters. */
  lemma MovedPicture(s: Scene, t: Scene, r: nat, c: nat)
    requires CursorMoved(s, t)
    ensures var w, oldOffset, newOffset := t.page.cursor.width, s.page.cursor.offset, t.page.cursor.offset;
            GlyphAt(t, r, c) ==
              if r == INFO_ROW then Written(InfoLine(t.page), 0, c)
              else if OnCell(w, newOffset, r, c) then CellGlyph(t, newOffset, c)
              else if oldOffset % w == 0 && OnCell(w, oldOffset, r, c) then CellGlyph(t, oldOffset, c)
              else GlyphAt(s, r, c)
  {
    hide CellText;
    hide PreviewText;
    hide InfoLine;
    hide HeaderGlyph;
    var w, oldOffset, newOffset := t.page.cursor.width, s.page.cursor.offset, t.page.cursor.offset;
    OneCellPerPosition(w, newOffset, r, c);
    if oldOffset % w == 0 {
      OneCellPerPosition(w, oldOffset, r, c);
    }
    if InData(r) {
      CellTextUnmoved(s, t, (r - DATA_ROW) * COLS);
      if InCells(w, c) {
        CellAtBounds(w, r, c);
        CellTextUnmoved(s, t, CellAt(w, r, c));
      }
    }
  }

  /** The bytes of an aligned cell lie in the row and at the index of the cell. */
  lemma SameCell(width: nat, base: nat, d: nat)
    requires SupportedWidth(width) && base % width == 0 && d < width
    ensures (base + d) / COLS == base / COLS
    ensures ((base + d) % COLS) / width == (base % COLS) / width
  {
    ColumnIndex(width, base);
    RowOffset(base, width, d);
    var k := (base % COLS) / width;
    DivisionUnique(base % COLS + d, width, k, d);
    DivisionUnique(base + d, COLS, base / COLS, base % COLS + d);
  }

  /** A misaligned offset is drawn on the cell that contains it. */
  lemma MisalignedPosition(width: nat, offset: nat, r: int, c: int)
    requires SupportedWidth(width) && offset < PAGE_SIZE
    ensures OnCell(width, offset, r, c) <==> OnCell(width, Floor(offset, width), r, c)
    ensures CellColumn(width, offset) == CellColumn(width, Floor(offset, width))
    ensures Floor(offset, width) < PAGE_SIZE && Floor(offset, width) % width == 0
  {
    FloorBounds(offset, width);
    var base := Floor(offset, width);
    SameCell(width, base, offset - base);
  }

  /** A cell with a value starts with a digit, a cell without one with a question mark. */
  lemma CellTextKind(s: Scene, offset: nat)
    requires SupportedWidth(s.page.cursor.width)
    ensures CellValue(s, offset).Some? ==> CellText(s, offset)[0] != '?'
    ensures CellValue(s, offset).None? ==> CellText(s, offset) == QuestionMarks(2 * s.page.cursor.width) + " "
  {
    hide ShownValue;
    var v := CellValue(s, offset);
    if v.Some? {
      var digits := CellDigits(ValueBytes(v.value, s.page.cursor.width));
      assert IsHexDigit(digits[0]) && CellText(s, offset)[0] == digits[0];
    }
  }

  lemma InfoRowEnds(s: Scene, c: nat)
    requires SupportedWidth(s.page.cursor.width) && c >= DEFAULT_COLUMNS
    ensures GlyphAt(s, INFO_ROW, c) == BLANK
  {
    LineLengths(s.page);
  }

  /** With an exact fast path the screen is the picture of the moved scene. */
  lemma FastPathIsFullRedraw(s: Scene, t: Scene, r: nat, c: nat)
    requires CursorMoved(s, t) && FastPathExact(s, t)
    ensures FastPathGlyph(s, t, r, c) == GlyphAt(t, r, c)
  {
    hide CellText;
    hide CellValue;
    hide GlyphAt;
    hide InfoLine;
    var w, oldOffset, newOffset := t.page.cursor.width, s.page.cursor.offset, t.page.cursor.offset;
    MovedPicture(s, t, r, c);
    if r == INFO_ROW && c >= DEFAULT_COLUMNS {
      InfoRowEnds(s, c);
      InfoRowEnds(t, c);
    }
    if oldOffset % w != 0 {
      MisalignedOldCell(s, t, r, c);
    }
  }

  /** What the fast path does to the cell of a misaligned old offset. */
  lemma MisalignedOldCell(s: Scene, t: Scene, r: nat, c: nat)
    requires CursorMoved(s, t) && s.page.cursor.offset % s.page.cursor.width != 0
    ensures var w, base := s.page.cursor.width, Floor(s.page.cursor.offset, s.page.cursor.width);
            && (OnCell(w, s.page.cursor.offset, r, c) <==> OnCell(w, base, r, c))
            && CellColumn(w, s.page.cursor.offset) == CellColumn(w, base)
            && CellText(t, s.page.cursor.offset) == QuestionMarks(2 * w) + " "
            && (CellValue(s, base).None? ==> CellText(t, base) == QuestionMarks(2 * w) + " ")
            && (CellValue(s, base).Some? ==> CellText(t, base)[0] != '?')
            && (OnCell(w, base, r, c) && base != t.page.cursor.offset ==>
                  GlyphAt(s, r, c) == GlyphAt(t, r, c) == CellGlyph(t, base, c)
                    == Glyph(CellText(t, base)[c - CellColumn(w, base)], NORMAL))
  {
    hide ShownValue;
    hide PreviewText;
    hide InfoLine;
    var w, base := s.page.cursor.width, Floor(s.page.cursor.offset, s.page.cursor.width);
    MisalignedPosition(w, s.page.cursor.offset, r, c);
    MisalignedCellUnreadable(s, s.page.cursor.offset);
    CellTextUnmoved(s, t, s.page.cursor.offset);
    CellTextUnmoved(s, t, base);
    CellTextKind(s, base);
    OneCellPerPosition(w, base, r, c);
    OneCellPerPosition(w, t.page.cursor.offset, r, c);
    MovedPicture(s, t, r, c);
  }

  /** Otherwise the first column of the old cell shows a question mark where the picture has a digit. */
  lemma InexactFastPathDiffers(s: Scene, t: Scene)
    requires CursorMoved(s, t) && !FastPathExact(s, t)
    ensures var w, base := s.page.cursor.width, Floor(s.page.cursor.offset, s.page.cursor.width);
            FastPathGlyph(s, t, CellRow(base), CellColumn(w, base)) != GlyphAt(t, CellRow(base), CellColumn(w, base))
  {
    hide CellText;
    hide CellValue;
    hide GlyphAt;
    hide InfoLine;
    var w, base := s.page.cursor.width, Floor(s.page.cursor.offset, s.page.cursor.width);
    var r, c := CellRow(base), CellColumn(w, base);
    MisalignedPosition(w, s.page.cursor.offset, r, c);
    MisalignedOldCell(s, t, r, c);
    OneCellPerPosition(w, base, r, c);
    OneCellPerPosition(w, t.page.cursor.offset, r, c);
    assert OnCell(w, base, r, c);
  }

  /** The fast path agrees with a full redraw of the page if and only if it is exact in the sense above. */
  lemma FastPathAgreesIff(s: Scene, t: Scene)
    requires CursorMoved(s, t)
    ensures (forall r: nat, c: nat :: FastPathGlyph(s, t, r, c) == GlyphAt(t, r, c)) <==> FastPathExact(s, t)
  {
    hide FastPathGlyph;
    hide GlyphAt;
    hide FastPathExact;
    if FastPathExact(s, t) {
      forall r: nat, c: nat
        ensures FastPathGlyph(s, t, r, c) == GlyphAt(t, r, c)
      {
        FastPathIsFullRedraw(s, t, r, c);
      }
    } else {
      InexactFastPathDiffers(s, t);
    }
  }

  // ------------------------------------------------------------- the stale cell

  /** The screen shows the picture, except that the stale cell, if there is one, shows question marks. */
  function StaleGlyph(s: Scene, stale: Option<nat>, r: nat, c: nat): Glyph
    requires SupportedWidth(s.page.cursor.width)
  {
    var w := s.page.cursor.width;
    if stale.Some? && OnCell(w, stale.value, r, c)
    then Glyph((QuestionMarks(2 * w) + " ")[c - CellColumn(w, stale.value)], NORMAL)
    else GlyphAt(s, r, c)
  }

  /** A stale cell has a value to show, and is not the one the cursor is on. */
  ghost predicate StaleOk(s: Scene, stale: Option<nat>) {
    && SupportedWidth(s.page.cursor.width)
    && (stale.Some? ==>
          && CellAligned(s.page.cursor) && stale.value != s.page.cursor.offset
          && stale.value < PAGE_SIZE && stale.value % s.page.cursor.width == 0
          && CellValue(s, stale.value).Some?)
  }

  /** An inexact repaint leaves its old cell stale; moving onto the stale cell repairs it. */
  function NextStale(s: Scene, t: Scene, stale: Option<nat>): Option<nat>
    requires CursorMoved(s, t)
  {
    if t.page.cursor.offset == s.page.cursor.offset then stale
    else if stale == Some(t.page.cursor.offset) then None
    else if FastPathExact(s, t) then stale
    else
      FloorBounds(s.page.cursor.offset, s.page.cursor.width);
      Some(Floor(s.page.cursor.offset, s.page.cursor.width))
  }

  lemma ExactStep(s: Scene, t: Scene, stale: Option<nat>, r: nat, c: nat)
    requires CursorMoved(s, t) && t.page.cursor.offset != s.page.cursor.offset
    requires StaleOk(s, stale) && FastPathExact(s, t)
    ensures RepaintOver(s, t, r, c, StaleGlyph(s, stale, r, c)) == StaleGlyph(t, NextStale(s, t, stale), r, c)
  {
    hide CellText;
    hide CellValue;
    hide GlyphAt;
    hide InfoLine;
    hide FastPathExact;
    var w := s.page.cursor.width;
    FastPathIsFullRedraw(s, t, r, c);
    if stale.Some? && OnCell(w, stale.value, r, c) {
      OneCellPerPosition(w, stale.value, r, c);
      OneCellPerPosition(w, t.page.cursor.offset, r, c);
      OneCellPerPosition(w, s.page.cursor.offset, r, c);
    }
  }

  lemma InexactStep(s: Scene, t: Scene, r: nat, c: nat)
    requires CursorMoved(s, t) && !FastPathExact(s, t)
    ensures RepaintOver(s, t, r, c, GlyphAt(s, r, c)) == StaleGlyph(t, NextStale(s, t, None), r, c)
  {
    hide CellText;
    hide CellValue;
    hide GlyphAt;
    hide InfoLine;
    var w, base := s.page.cursor.width, Floor(s.page.cursor.offset, s.page.cursor.width);
    FloorBounds(s.page.cursor.offset, w);
    assert base != t.page.cursor.offset;
    assert t.page.cursor.offset != s.page.cursor.offset;
    MovedPicture(s, t, r, c);
    MisalignedOldCell(s, t, r, c);
    if OnCell(w, base, r, c) {
      OneCellPerPosition(w, base, r, c);
      OneCellPerPosition(w, t.page.cursor.offset, r, c);
    }
    if r == INFO_ROW && c >= DEFAULT_COLUMNS {
      InfoRowEnds(s, c);
      InfoRowEnds(t, c);
    }
  }

  /** One partial redraw: what was stale or right before, and what is afterwards. */
  lemma RepaintStep(s: Scene, t: Scene, stale: Option<nat>, r: nat, c: nat)
    requires CursorMoved(s, t) && t.page.cursor.offset != s.page.cursor.offset && StaleOk(s, stale)
    ensures RepaintOver(s, t, r, c, StaleGlyph(s, stale, r, c)) == StaleGlyph(t, NextStale(s, t, stale), r, c)
  {
    if FastPathExact(s, t) {
      ExactStep(s, t, stale, r, c);
    } else {
      InexactStep(s, t, r, c);
    }
  }

  /** The repainted positions are all inked. */
  lemma RepaintedIsInked(s: Scene, t: Scene, r: nat, c: nat, before: Glyph)
    requires CursorMoved(s, t)
    ensures RepaintOver(s, t, r, c, before) == before || Inked(t.page.cursor.width, r, c)
    ensures Inked(t.page.cursor.width, r, c) || forall other :: RepaintOver(s, t, r, c, other) == other
  {
    hide CellText;
    hide InfoLine;
    var w := t.page.cursor.width;
    MisalignedPosition(w, s.page.cursor.offset, r, c);
    OneCellPerPosition(w, Floor(s.page.cursor.offset, w), r, c);
    OneCellPerPosition(w, t.page.cursor.offset, r, c);
  }

  /** The same on a screen that was cleared with any attribute. */
  lemma RepaintBackedStep(s: Scene, t: Scene, stale: Option<nat>, back: nat, r: nat, c: nat)
    requires CursorMoved(s, t) && t.page.cursor.offset != s.page.cursor.offset && StaleOk(s, stale)
    ensures var w := t.page.cursor.width;
            RepaintOver(s, t, r, c, Backed(w, back, r, c, StaleGlyph(s, stale, r, c))) ==
              Backed(w, back, r, c, StaleGlyph(t, NextStale(s, t, stale), r, c))
  {
    RepaintStep(s, t, stale, r, c);
    RepaintedIsInked(s, t, r, c, StaleGlyph(s, stale, r, c));
    hide RepaintOver;
    hide StaleGlyph;
    hide NextStale;
    hide Inked;
  }

  lemma StaleStaysOk(s: Scene, t: Scene, stale: Option<nat>)
    requires CursorMoved(s, t) && StaleOk(s, stale)
    ensures StaleOk(t, NextStale(s, t, stale))
  {
    hide CellValue;
    FloorBounds(s.page.cursor.offset, s.page.cursor.width);
    CellTextUnmoved(s, t, Floor(s.page.cursor.offset, s.page.cursor.width));
    if stale.Some? {
      CellTextUnmoved(s, t, stale.value);
    }
  }

  /** A stale cell is visible: its first column shows a question mark instead of a digit. */
  lemma StaleIsVisible(s: Scene, cell: nat)
    requires StaleOk(s, Some(cell))
    ensures var r, c := CellRow(cell), CellColumn(s.page.cursor.width, cell);
            StaleGlyph(s, Some(cell), r, c) != GlyphAt(s, r, c) && Inked(s.page.cursor.width, r, c)
  {
    hide CellText;
    hide CellValue;
    hide InfoLine;
    var w := s.page.cursor.width;
    var r, c := CellRow(cell), CellColumn(w, cell);
    assert OnCell(w, cell, r, c);
    OneCellPerPosition(w, cell, r, c);
    CellTextKind(s, cell);
  }

  // ------------------------------------------------------------------ whole runs

  function SceneAt(fw: Firmware, m: Machine): Scene {
    Scene(fw, m.page, m.mem)
  }

  /** The stale cell after one handled key. */
  ghost function KeyStale(s: Scene, key: Key, t: Scene, stale: Option<nat>): Option<nat> {
    if IsArrow(key) && CursorMoved(s, t) then NextStale(s, t, stale) else stale
  }

  /** The stale cell when a run waits for a command or has left: full redraws clear it, arrow keys leave or repair it. */
  ghost function StaleAfter(fw: Firmware, m: Machine, keys: seq<Key>, stale: Option<nat>): Option<nat>
    requires Ready(m.page)
    decreases |keys|
  {
    var ready, now := Drawn(m), if m.page.needsRedraw then None else stale;
    if keys == [] then now
    else
      HandleKeyKeepsReady(fw, ready, keys[0], keys[1..]);
      var o := HandleKey(fw, ready, keys[0], keys[1..]);
      if o.Blocked? || (o.status == Aborted && keys[0].scanCode == SCAN_ESC) then now
      else StaleAfter(fw, o.machine, o.rest, KeyStale(SceneAt(fw, ready), keys[0], SceneAt(fw, o.machine), now))
  }

  /** In a run that starts on a whole cell and never presses Goto no cell is ever stale. */
  lemma {:induction false} WithoutGotoNothingIsStale(fw: Firmware, m: Machine, keys: seq<Key>)
    requires Ready(m.page) && CellAligned(m.page.cursor)
    requires forall k :: k in keys ==> k.unicodeChar != 'g' && k.unicodeChar != 'G'
    ensures StaleAfter(fw, m, keys, None) == None
    decreases |keys|
  {
    hide HandleKey;
    hide KeyStale;
    if keys != [] {
      var ready := Drawn(m);
      var o := HandleKey(fw, ready, keys[0], keys[1..]);
      HandleKeyKeepsReady(fw, ready, keys[0], keys[1..]);
      if o.Done? {
        HandleKeyAlignment(fw, ready, keys[0], keys[1..]);
        RestIsLeft(fw, ready, keys[0], keys[1..]);
        AlignedKeyLeavesNothingStale(SceneAt(fw, ready), keys[0], SceneAt(fw, o.machine));
        WithoutGotoNothingIsStale(fw, o.machine, o.rest);
      }
    }
  }

  lemma AlignedKeyLeavesNothingStale(s: Scene, key: Key, t: Scene)
    requires CellAligned(s.page.cursor)
    ensures KeyStale(s, key, t, None) == None
  {
    hide CellValue;
  }
}
