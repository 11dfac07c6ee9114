/** One virtual window of `virtual_manager/virtual_window.rs`: an OS window
    proxy together with the GPU capture of that window. Each frame it checks
    that the window still exists and, when its size changed, records the new
    size and rebuilds the capture. Creating a capture can fail for reasons
    outside the model, so whether it succeeds is a parameter. */
module VirtualWindow {
  import opened Wrappers
  import opened WindowsBindings
  import opened InternalOs
  import opened InternalWindow

  /** `IsWindowValid`: what `draw` reports to the desktop. */
  datatype IsWindowValid = Valid | Invalid

  /** `WindowCapture`: the capture of one window, sized for the window as it
      was when the capture was made. Its textures and meshes are left out. */
  datatype WindowCapture = WindowCapture(hwnd: Hwnd, size: UVec2)

  /** The outcome of `draw` for a window that is (`alive`) or is not a
      window, whose current size is `size` (`None` when it cannot be read),
      whose recorded size is `stored`, and whose re-capture would succeed
      exactly when `captureOk`. `Err` is the panic of the `unwrap` on a size
      that cannot be read. */
  function DrawOutcome(alive: bool, size: Option<UVec2>, stored: UVec2, captureOk: bool): (r: Result<IsWindowValid>)
    ensures r.Err? <==> alive && size.None?
    ensures r == Ok(Valid) <==>
              alive && size.Some? && (size.value == stored || (size.value.x != 0 && size.value.y != 0 && captureOk))
  {
    if !alive then Ok(Invalid)
    else if size.Some? && size.value == stored then Ok(Valid)
    else if size.None? then Err("called `Option::unwrap()` on a `None` value")
    else if size.value.x == 0 || size.value.y == 0 then Ok(Invalid)
    else if captureOk then Ok(Valid)
    else Ok(Invalid)
  }

  /** The part of a `VWindow` that `draw` changes: its capture and its
      proxy's recorded size. */
  datatype WindowState = WindowState(windowCapture: Option<WindowCapture>, storedSize: UVec2)

  /** The window `hwnd` holds a capture of itself at its recorded size. */
  predicate HoldsCapture(hwnd: Hwnd, w: WindowState)
  {
    w.windowCapture == Some(WindowCapture(hwnd, w.storedSize))
  }

  /** The state of a window `VWindow::new` has just built at size `size`. */
  function FreshState(hwnd: Hwnd, size: UVec2): (w: WindowState)
    ensures HoldsCapture(hwnd, w) && w.storedSize == size
  {
    WindowState(Some(WindowCapture(hwnd, size)), size)
  }

  /** `VWindow::draw` on the window `hwnd`, in state `w`, when it is
      (`alive`) or is not a window and its current size is `size`: the
      outcome and the new state. The state only changes on a change to a
      readable, non-zero size, which is recorded together with the new
      capture, or none when `captureOk` is false. */
  function DrawWindow(hwnd: Hwnd, alive: bool, size: Option<UVec2>, w: WindowState, captureOk: bool)
    : (r: (Result<IsWindowValid>, WindowState))
    ensures r.0 == DrawOutcome(alive, size, w.storedSize, captureOk)
  {
    if !alive then (Ok(Invalid), w)
    else if size.Some? && size.value == w.storedSize then (Ok(Valid), w)
    else if size.None? then (Err("called `Option::unwrap()` on a `None` value"), w)
    else if size.value.x == 0 || size.value.y == 0 then (Ok(Invalid), w)
    else
      var w' := WindowState(if captureOk then Some(WindowCapture(hwnd, size.value)) else None, size.value);
      (if captureOk then Ok(Valid) else Ok(Invalid), w')
  }

  /** A window that reports `Valid` holds a capture at a recorded size that
      is its current size, and a window reporting anything else either kept
      its state or lost its capture. */
  lemma DrawWindowValid(hwnd: Hwnd, alive: bool, size: Option<UVec2>, w: WindowState, captureOk: bool)
    requires HoldsCapture(hwnd, w)
    ensures var r := DrawWindow(hwnd, alive, size, w, captureOk);
            r.0 == Ok(Valid) ==> HoldsCapture(hwnd, r.1) && size == Some(r.1.storedSize)
    ensures var r := DrawWindow(hwnd, alive, size, w, captureOk);
            r.0 != Ok(Valid) ==> r.1 == w || r.1.windowCapture.None?
  {
  }

  /** Drawing again a window that reported `Valid`, with nothing changed in
      the OS, reports `Valid` again and changes nothing. */
  lemma DrawWindowSteady(hwnd: Hwnd, alive: bool, size: Option<UVec2>, w: WindowState, captureOk: bool, captureOk': bool)
    requires DrawWindow(hwnd, alive, size, w, captureOk).0 == Ok(Valid)
    ensures var w' := DrawWindow(hwnd, alive, size, w, captureOk).1;
            DrawWindow(hwnd, alive, size, w', captureOk') == (Ok(Valid), w')
  {
  }

  class VWindow {
    var windowCapture: Option<WindowCapture>
    const internalWindow: IWindow
    const hwnd: Hwnd

    /** The state `draw` changes. */
    function State(): WindowState
      reads this, internalWindow
    {
      WindowState(windowCapture, internalWindow.storedSize)
    }

    constructor (windowCapture: Option<WindowCapture>, internalWindow: IWindow, hwnd: Hwnd)
      ensures this.windowCapture == windowCapture && this.internalWindow == internalWindow
      ensures this.hwnd == hwnd
    {
      this.windowCapture := windowCapture;
      this.internalWindow := internalWindow;
      this.hwnd := hwnd;
    }

    /** `VWindow::new`: fails when the window's size cannot be read (the
        proxy cannot be built) or the capture cannot be made; otherwise the
        new window holds a capture at its current size. */
    static method New(hwnd: Hwnd, fakeMonitor: FakeMonitor, os: Os, captureOk: bool) returns (r: Result<VWindow>)
      ensures r.Ok? <==> RectSize(os.WindowRect(hwnd)).Some? && captureOk
      ensures r.Ok? ==> fresh(r.value) && fresh(r.value.internalWindow)
      ensures r.Ok? ==> r.value.hwnd == hwnd && r.value.internalWindow.os == os
      ensures r.Ok? ==> r.value.internalWindow.fakeMonitor == fakeMonitor
      ensures r.Ok? ==> r.value.internalWindow.hwnd == hwnd
      ensures r.Ok? ==> r.value.State() == FreshState(hwnd, RectSize(os.WindowRect(hwnd)).value)
    {
      var internalWindow := IWindow.New(hwnd, fakeMonitor, os);
      if internalWindow.Err? {
        return Err("internal window error");
      }
      var size := internalWindow.value.Size();
      if !captureOk {
        return Err("window capture error");
      }
      var v := new VWindow(Some(WindowCapture(hwnd, size.value)), internalWindow.value, hwnd);
      return Ok(v);
    }

    /** `VWindow::draw` without the rendering: `Invalid` for a handle that is
        no longer a window; `Valid`, keeping everything, when the size did
        not change; otherwise `Invalid` for a zero width or height, and else
        the new size is recorded, the old capture dropped and a new one made,
        the outcome being whether that succeeded. */
    method Draw(captureOk: bool) returns (r: Result<IsWindowValid>)
      requires internalWindow.hwnd == hwnd
      modifies this, internalWindow
      ensures r == DrawOutcome(hwnd in internalWindow.os.alive, internalWindow.Size(),
                               old(internalWindow.storedSize), captureOk)
      // Nothing changes unless the size changed to a non-zero one.
      ensures (r == Ok(Invalid) && (hwnd !in internalWindow.os.alive || internalWindow.Size().value.x == 0
                                    || internalWindow.Size().value.y == 0))
              || old(!internalWindow.SizeChanged()) ==>
                windowCapture == old(windowCapture) && internalWindow.storedSize == old(internalWindow.storedSize)
      // A recapture records the new size and holds the new capture, or none.
      ensures r.Ok? && hwnd in internalWindow.os.alive && old(internalWindow.SizeChanged())
              && internalWindow.Size().value.x != 0 && internalWindow.Size().value.y != 0 ==>
                && internalWindow.storedSize == internalWindow.Size().value
                && windowCapture == (if captureOk then Some(WindowCapture(hwnd, internalWindow.storedSize)) else None)
      ensures (r, State()) == DrawWindow(hwnd, old(hwnd in internalWindow.os.alive), old(internalWindow.Size()), old(State()), captureOk)
    {
      if hwnd !in internalWindow.os.alive {
        return Ok(Invalid);
      }
      if internalWindow.SizeChanged() {
        var size := internalWindow.Size();
        if size.None? {
          return Err("called `Option::unwrap()` on a `None` value");
        }
        if size.value.x == 0 || size.value.y == 0 {
          return Ok(Invalid);
        }
        var ok := internalWindow.UpdateSize();
        if !ok {
          return Ok(Invalid);
        }
        windowCapture := None;
        if captureOk {
          windowCapture := Some(WindowCapture(hwnd, internalWindow.Size().value));
        } else {
          return Ok(Invalid);
        }
      }
      return Ok(Valid);
    }
  }
}
