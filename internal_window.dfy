/** The OS-window proxy of `internal_os/internal_window.rs`: a window handle
    with the size it had when last recorded, which it moves to one of two
    positions on the fake monitor or resizes to an aspect ratio. All window
    geometry is read from and written to the OS state. */
module InternalWindow {
  import opened Wrappers
  import opened WindowsBindings
  import opened InternalOs

  /** `padding`: the margin kept from the monitor's edges. */
  const PADDING: int := 40

  /** The box `set_aspect_ratio` fits a window into, and the fit. With the
      ratio `num / den` (width over height, both positive): a window of the
      full width if its height then fits, else one of the full height. The
      other side is rounded down. */
  function FitAspect(maxWidth: nat, maxHeight: nat, num: nat, den: nat): (r: UVec2)
    requires num > 0 && den > 0
    ensures r.x <= maxWidth && r.y <= maxHeight
    ensures r.x == maxWidth || r.y == maxHeight
    // Full width: the height is the floor of width / ratio.
    ensures maxWidth * den <= maxHeight * num ==>
              r.x == maxWidth && r.y * num <= r.x * den < (r.y + 1) * num
    // Full height: the width is the floor of height * ratio.
    ensures maxWidth * den > maxHeight * num ==>
              r.y == maxHeight && r.x * den <= r.y * num < (r.x + 1) * den
  {
    if maxWidth * den <= maxHeight * num then
      var h := (maxWidth * den) / num;
      FloorBelow(maxWidth * den, num, maxHeight);
      UVec2(maxWidth, h)
    else
      var w := (maxHeight * num) / den;
      FloorBelow(maxHeight * num, den, maxWidth);
      UVec2(w, maxHeight)
  }

  /** Floor division by `d`: `a / d` times `d` is at most `a` and one more
      `d` exceeds it, and a bound on `a` divides into a bound on `a / d`. */
  lemma FloorBelow(a: nat, d: nat, bound: nat)
    requires d > 0
    ensures 0 <= a / d
    ensures (a / d) * d <= a < (a / d + 1) * d
    ensures a <= bound * d ==> a / d <= bound
  {
  }

  /** The top-left corner `move_to_active` gives a window of width `width`:
      its right edge `PADDING` left of the monitor's right edge, its top
      `PADDING` below the monitor's top. */
  function ActivePos(m: FakeMonitor, width: nat): (r: IVec2)
    ensures r.x + width == m.pos.x + m.size.x - PADDING
    ensures r.y == m.pos.y + PADDING
  {
    IVec2(m.pos.x - PADDING + m.size.x - width, m.pos.y + PADDING)
  }

  /** The top-left corner `move_to_inactive` gives a window: `PADDING` in
      from the monitor's top-left corner. */
  function InactivePos(m: FakeMonitor): (r: IVec2)
    ensures r.x - m.pos.x == PADDING && r.y - m.pos.y == PADDING
  {
    IVec2(m.pos.x + PADDING, m.pos.y + PADDING)
  }

  class IWindow {
    const hwnd: Hwnd
    const fakeMonitor: FakeMonitor
    var storedSize: UVec2
    /** The OS this window lives in. */
    const os: Os

    constructor (hwnd: Hwnd, fakeMonitor: FakeMonitor, os: Os)
      ensures this.hwnd == hwnd && this.fakeMonitor == fakeMonitor && this.os == os
      ensures storedSize == UVec2(0, 0)
    {
      this.hwnd := hwnd;
      this.fakeMonitor := fakeMonitor;
      this.os := os;
      storedSize := UVec2(0, 0);
    }

    /** `IWindow::new`: fails when the window's current size is invalid;
        otherwise records that size. */
    static method New(hwnd: Hwnd, fakeMonitor: FakeMonitor, os: Os) returns (r: Result<IWindow>)
      ensures r.Err? <==> RectSize(os.WindowRect(hwnd)).None?
      ensures r.Ok? ==> fresh(r.value) && r.value.hwnd == hwnd && r.value.os == os
      ensures r.Ok? ==> r.value.fakeMonitor == fakeMonitor
      ensures r.Ok? ==> Some(r.value.storedSize) == r.value.Size() && !r.value.SizeChanged()
    {
      var w := new IWindow(hwnd, fakeMonitor, os);
      var size := w.Size();
      if size.None? {
        return Err("size of window was invalid, less then 0 in width or height");
      }
      w.storedSize := size.value;
      return Ok(w);
    }

    /** `size`: the window's current width and height, `None` when either is
        negative. */
    function Size(): (r: Option<UVec2>)
      reads this, os
      ensures r.None? <==> os.WindowRect(hwnd).right - os.WindowRect(hwnd).left < 0
                           || os.WindowRect(hwnd).bottom - os.WindowRect(hwnd).top < 0
      ensures r.Some? ==> r.value.x == os.WindowRect(hwnd).right - os.WindowRect(hwnd).left
      ensures r.Some? ==> r.value.y == os.WindowRect(hwnd).bottom - os.WindowRect(hwnd).top
    {
      RectSize(os.WindowRect(hwnd))
    }

    /** `size_changed`: the size cannot be read, or differs from the
        recorded one. */
    function SizeChanged(): (changed: bool)
      reads this, os
      ensures !changed <==> RectSize(os.WindowRect(hwnd)) == Some(storedSize)
    {
      Size().None? || Size().value != storedSize
    }

    /** `update_size`: records the current size; fails, recording nothing,
        when the size cannot be read. */
    method UpdateSize() returns (ok: bool)
      modifies this
      ensures ok == Size().Some?
      ensures ok ==> storedSize == Size().value && !SizeChanged()
      ensures !ok ==> storedSize == old(storedSize)
    {
      var size := Size();
      if size.None? {
        return false;
      }
      storedSize := size.value;
      return true;
    }

    /** `pos`: the window's top-left corner. */
    function Pos(): (r: IVec2)
      reads this, os
      ensures r.x == os.WindowRect(hwnd).left && r.y == os.WindowRect(hwnd).top
    {
      IVec2(os.WindowRect(hwnd).left, os.WindowRect(hwnd).top)
    }

    /** `set_size`: resizes the window in place, keeping its top-left corner;
        the recorded size is left alone. */
    method SetSize(size: UVec2)
      modifies os
      ensures hwnd in os.alive ==> os.rects == old(os.rects)[hwnd := Placed(old(Pos()), size)]
      ensures hwnd in os.alive ==> Pos() == old(Pos()) && Size() == Some(size)
      ensures hwnd !in os.alive ==> os.rects == old(os.rects)
      ensures OnlyRectsChanged(os)
    {
      var pos := Pos();
      os.MoveWindow(hwnd, pos.x, pos.y, size.x, size.y);
      PlacedSize(pos, size);
    }

    /** `set_pos`: moves the window's top-left corner to `pos`, keeping its
        size; fails without moving when the size cannot be read. */
    method SetPos(pos: IVec2) returns (ok: bool)
      modifies os
      ensures ok == old(Size()).Some?
      ensures ok && hwnd in os.alive ==> os.rects == old(os.rects)[hwnd := Placed(pos, old(Size()).value)]
      ensures ok && hwnd in os.alive ==> Pos() == pos && Size() == old(Size())
      ensures !ok || hwnd !in os.alive ==> os.rects == old(os.rects)
      ensures OnlyRectsChanged(os)
    {
      var size := Size();
      if size.None? {
        return false;
      }
      os.MoveWindow(hwnd, pos.x, pos.y, size.value.x, size.value.y);
      PlacedSize(pos, size.value);
      return true;
    }

    /** `move_to_active`: parks the window at the monitor's top-right corner,
        inset by `PADDING`, keeping its size. */
    method MoveToActive() returns (ok: bool)
      modifies os
      ensures ok == old(Size()).Some?
      ensures ok && hwnd in os.alive ==> Size() == old(Size())
      ensures ok && hwnd in os.alive ==>
                && os.WindowRect(hwnd).right == fakeMonitor.pos.x + fakeMonitor.size.x - PADDING
                && os.WindowRect(hwnd).top == fakeMonitor.pos.y + PADDING
      ensures ok && hwnd in os.alive ==> os.rects == old(os.rects)[hwnd := os.WindowRect(hwnd)]
      ensures !ok || hwnd !in os.alive ==> os.rects == old(os.rects)
      ensures OnlyRectsChanged(os)
    {
      var size := Size();
      if size.None? {
        return false;
      }
      ok := SetPos(ActivePos(fakeMonitor, size.value.x));
    }

    /** `move_to_inactive`: parks the window at the monitor's top-left
        corner, inset by `PADDING`, keeping its size. */
    method MoveToInactive() returns (ok: bool)
      modifies os
      ensures ok == old(Size()).Some?
      ensures ok && hwnd in os.alive ==> Pos() == InactivePos(fakeMonitor) && Size() == old(Size())
      ensures ok && hwnd in os.alive ==> os.rects == old(os.rects)[hwnd := Placed(InactivePos(fakeMonitor), old(Size()).value)]
      ensures !ok || hwnd !in os.alive ==> os.rects == old(os.rects)
      ensures OnlyRectsChanged(os)
    {
      ok := SetPos(InactivePos(fakeMonitor));
    }

    /** The box `set_aspect_ratio` fits into: half of the monitor's width
        less twice `PADDING`, rounded down, and the monitor's height less
        twice `PADDING`. */
    function AspectBox(): (r: UVec2)
      requires fakeMonitor.size.x >= 2 * PADDING && fakeMonitor.size.y >= 2 * PADDING
      reads this
      ensures 2 * r.x + 2 * PADDING <= fakeMonitor.size.x < 2 * r.x + 2 * PADDING + 2
      ensures r.y + 2 * PADDING == fakeMonitor.size.y
    {
      UVec2((fakeMonitor.size.x - 2 * PADDING) / 2, fakeMonitor.size.y - 2 * PADDING)
    }

    /** `set_aspect_ratio` with the ratio `num / den`: resizes the window to
        `FitAspect` of `AspectBox`, keeping the top-left corner. The source
        never fails here. */
    method SetAspectRatio(num: nat, den: nat)
      requires num > 0 && den > 0
      requires fakeMonitor.size.x >= 2 * PADDING && fakeMonitor.size.y >= 2 * PADDING
      modifies os
      ensures hwnd in os.alive ==>
                Pos() == old(Pos()) && Size() == Some(FitAspect(AspectBox().x, AspectBox().y, num, den))
      ensures hwnd in os.alive ==> Size().value.x <= AspectBox().x && Size().value.y <= AspectBox().y
      ensures hwnd in os.alive ==>
                os.rects == old(os.rects)[hwnd := Placed(old(Pos()), FitAspect(AspectBox().x, AspectBox().y, num, den))]
      ensures hwnd !in os.alive ==> os.rects == old(os.rects)
      ensures OnlyRectsChanged(os)
    {
      var box := AspectBox();
      var fit := FitAspect(box.x, box.y, num, den);
      SetSize(fit);
    }
  }

  /** Everything of the OS but the window rectangles is as it was. */
  twostate predicate OnlyRectsChanged(os: Os)
    reads os
  {
    && os.alive == old(os.alive) && os.visible == old(os.visible) && os.enabled == old(os.enabled)
    && os.cursor == old(os.cursor) && os.windowList == old(os.windowList) && os.displays == old(os.displays)
  }
}
