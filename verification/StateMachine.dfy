/**
  The mutable page state: the cursor engine and the state machine updating its fields.
 */
module StateMachine {
  import opened Words
  import opened AccessPolicy
  import opened NexusMemLib
  import opened AddressMap
  import opened Session

  method AlignToPageBase(address: u64, pageSize: u64) returns (r: u64)
    requires pageSize == 0 || IsPow2(pageSize)
    ensures r == if pageSize == 0 then address else Floor(address, pageSize)
  {
    if pageSize == 0 {
      return address;
    }
    r := AlignDown(address, pageSize);
  }

  class CursorState {
    var address: u64
    var offset: u64
    var width: u64

    ghost function View(): Cursor
      reads this
    {
      Cursor(address, offset, width)
    }

    constructor ()
      ensures View() == Cursor(0, 0, 1)
    {
      address, offset, width := 0, 0, 1;
    }

    /** Any width, supported or not; the sum is computed without the overflow C leaves undefined. */
    method Move(delta: int) returns (newOffset: u64)
      modifies this`offset
      ensures View() == MoveCursor(old(View()), delta)
      ensures newOffset == offset
    {
      hide MaskDown;
      var step := Signed(width);
      if step <= 0 {
        step := 1;
      }
      var moved: int := Signed(offset) + delta * step;
      if moved < 0 {
        moved := 0;
      }
      var maxOffset := Wrap(PAGE_SIZE - (if width == 0 then 1 else width));
      if moved > maxOffset {
        moved := maxOffset;
      }
      if width > 1 {
        moved := MaskDown(moved, width);
      }
      offset := moved;
      newOffset := offset;
    }

    method SetWidth(newWidth: u64)
      modifies this`offset, this`width
      ensures View() == SetCursorWidth(old(View()), newWidth)
    {
      hide MaskDown;
      var w: u64 := newWidth;
      if w == 0 {
        w := 1;
      }
      width := w;
      offset := MaskDown(offset, w);
      if offset >= PAGE_SIZE {
        offset := Wrap(PAGE_SIZE - w);
      }
    }

    /** On a page boundary with an offset inside the page the sum does not wrap and splits again. */
    method GetCurrentAddress() returns (r: u64)
      ensures r == CurrentAddress(View())
      ensures address % PAGE_SIZE == 0 && offset < PAGE_SIZE ==>
                r == address + offset && Floor(r, PAGE_SIZE) == address && r % PAGE_SIZE == offset
    {
      if address % PAGE_SIZE == 0 && offset < PAGE_SIZE {
        CurrentAddressSplits(View());
      }
      r := Wrap(address + offset);
    }
  }

  class PageState {
    var currentState: Mode
    const cursor: CursorState
    const addressMap: AddressMap
    var pageUefiMemoryType: u32
    var pageHasMemoryDescriptor: bool
    var pageAccess: Access
    var needsRedraw: bool

    ghost function View(): Page
      reads this, cursor
    {
      Page(currentState, cursor.View(), pageUefiMemoryType, pageHasMemoryDescriptor, pageAccess, needsRedraw)
    }

    constructor ()
      ensures fresh(cursor) && fresh(addressMap) && addressMap.Valid()
    {
      currentState := Viewing;
      cursor := new CursorState();
      addressMap := new AddressMap();
      pageUefiMemoryType, pageHasMemoryDescriptor := 0, false;
      pageAccess := UNKNOWN_ACCESS;
      needsRedraw := false;
    }

    method InitPageState(initialAddress: u64)
      modifies this`currentState, this`needsRedraw, cursor
      ensures View() == old(View()).(mode := Viewing, cursor := Cursor(Floor(initialAddress, PAGE_SIZE), 0, 1), needsRedraw := true)
    {
      currentState := Viewing;
      PageSizeIsPow2();
      var base := AlignToPageBase(initialAddress, PAGE_SIZE);
      cursor.address := base;
      cursor.offset := 0;
      cursor.width := 1;
      needsRedraw := true;
    }

    method TransitionState(newState: Mode)
      modifies this`currentState, this`needsRedraw
      ensures View() == old(View()).(mode := newState, needsRedraw := old(needsRedraw) || old(currentState) != newState)
    {
      var previousState := currentState;
      currentState := newState;
      if previousState != newState {
        needsRedraw := true;
      }
    }

    method MarkForRedraw()
      modifies this`needsRedraw
      ensures View() == old(View()).(needsRedraw := true)
    {
      needsRedraw := true;
    }
  }
}
