/** The second window-management layer of `window_management_2.rs`: the
    Win32 window wrapper `WindowsWindow` with its size and position queries
    and setters, and the frame step every `WindowManager` inherits, which
    hands the mouse between the virtual scene and a captured desktop window. */
module WindowManagement {
  import opened Wrappers
  import opened WindowsBindings
  import opened InternalWindow

  /** The position `WindowsWindow::position` reports for a window rectangle:
      a left edge less than 10 pixels off screen counts as 0 (the border
      Windows draws outside a maximised window); any other negative edge
      has no unsigned position. */
  function RectPosition(rect: Rect): (r: Option<UVec2>)
    ensures r.None? <==> rect.left <= -10 || rect.top < 0
    ensures r.Some? ==> r.value.y == rect.top
    ensures r.Some? ==> r.value.x == (if rect.left < 0 then 0 else rect.left)
  {
    var left := if rect.left < 0 && rect.left > -10 then 0 else rect.left;
    if left < 0 || rect.top < 0 then None else Some(UVec2(left, rect.top))
  }

  /** A reported position lies at most 9 pixels right of the real left edge
      and exactly on the real top edge. */
  lemma RectPositionNear(rect: Rect)
    requires RectPosition(rect).Some?
    ensures rect.left <= RectPosition(rect).value.x < rect.left + 10
    ensures RectPosition(rect).value.y == rect.top
  {
  }

  /** A window placed at an unsigned position reports that position back. */
  lemma PlacedPosition(pos: UVec2, size: UVec2)
    ensures RectPosition(Placed(IVec2(pos.x, pos.y), size)) == Some(pos)
  {
  }

  /** `WindowsWindow`: a top-level window addressed through its handle. */
  class WindowsWindow {
    const hwnd: Hwnd
    const os: Os

    constructor (hwnd: Hwnd, os: Os)
      ensures this.hwnd == hwnd && this.os == os
    {
      this.hwnd := hwnd;
      this.os := os;
    }

    /** `size`: width and height of the window rectangle, `None` when
        either is negative. */
    function Size(): (r: Option<UVec2>)
      reads os
      ensures r.None? <==> (os.WindowRect(hwnd).right < os.WindowRect(hwnd).left
                            || os.WindowRect(hwnd).bottom < os.WindowRect(hwnd).top)
      ensures r.Some? ==> r.value == UVec2(os.WindowRect(hwnd).right - os.WindowRect(hwnd).left,
                                           os.WindowRect(hwnd).bottom - os.WindowRect(hwnd).top)
    {
      RectSize(os.WindowRect(hwnd))
    }

    /** `position`: the top-left corner as `RectPosition` reports it. */
    function Position(): (r: Option<UVec2>)
      reads os
      ensures r.None? <==> os.WindowRect(hwnd).left <= -10 || os.WindowRect(hwnd).top < 0
      ensures r.Some? ==> r.value.x == if os.WindowRect(hwnd).left < 0 then 0 else os.WindowRect(hwnd).left
      ensures r.Some? ==> r.value.y == os.WindowRect(hwnd).top
    {
      RectPosition(os.WindowRect(hwnd))
    }

    /** `set_size`: resize in place. Without a position nothing moves and
        the answer is `None` (here `false`). */
    method SetSize(size: UVec2) returns (ok: bool)
      modifies os
      ensures ok == old(Position()).Some?
      ensures ok && hwnd in os.alive ==>
        os.rects == old(os.rects)[hwnd := Placed(IVec2(old(Position()).value.x, old(Position()).value.y), size)]
      ensures !ok || hwnd !in os.alive ==> os.rects == old(os.rects)
      ensures ok && hwnd in os.alive ==> Size() == Some(size) && Position() == old(Position())
      ensures OnlyRectsChanged(os)
    {
      var position := Position();
      if position.Some? {
        os.MoveWindow(hwnd, position.value.x, position.value.y, size.x, size.y);
        PlacedSize(IVec2(position.value.x, position.value.y), size);
        PlacedPosition(position.value, size);
        return true;
      }
      return false;
    }

    /** `set_position`: move keeping the size. Without a size nothing moves
        and the answer is `None` (here `false`). */
    method SetPosition(position: UVec2) returns (ok: bool)
      modifies os
      ensures ok == old(Size()).Some?
      ensures ok && hwnd in os.alive ==>
        os.rects == old(os.rects)[hwnd := Placed(IVec2(position.x, position.y), old(Size()).value)]
      ensures !ok || hwnd !in os.alive ==> os.rects == old(os.rects)
      ensures ok && hwnd in os.alive ==> Position() == Some(position) && Size() == old(Size())
      ensures OnlyRectsChanged(os)
    {
      var size := Size();
      if size.Some? {
        os.MoveWindow(hwnd, position.x, position.y, size.value.x, size.value.y);
        PlacedSize(IVec2(position.x, position.y), size.value);
        PlacedPosition(position, size.value);
        return true;
      }
      return false;
    }
  }

  /** What a `WindowManager` frame reads of and does to one managed window
      (the `Window` trait): whether it is still valid, its internal
      (desktop) rectangle, and whether `focus` has been asked of it. */
  datatype ManagedWindow = ManagedWindow(valid: bool, internalPos: UVec2, internalSize: UVec2, focused: bool)

  /** How a frame ends: the `unwrap` of a captured id that names no window
      panics; otherwise the frame says whether the virtual mouse was drawn. */
  datatype FrameOutcome = Panic | Drawn(mouseDrawn: bool)

  /** The internal mouse lies inside the window's closed rectangle
      `[pos, pos + size]`. */
  function Inside(w: ManagedWindow, p: UVec2): (r: bool)
    ensures !r <==> w.internalPos.x > p.x || w.internalPos.y > p.y
                    || w.internalPos.x + w.internalSize.x < p.x || w.internalPos.y + w.internalSize.y < p.y
  {
    && w.internalPos.x <= p.x <= w.internalPos.x + w.internalSize.x
    && w.internalPos.y <= p.y <= w.internalPos.y + w.internalSize.y
  }

  /** The windows left after a frame: the invalid ones are dropped. */
  function KeepValid<Id(!new)>(ws: map<Id, ManagedWindow>): (r: map<Id, ManagedWindow>)
    ensures forall id :: id in r <==> id in ws && ws[id].valid
    ensures forall id :: id in r ==> r[id] == ws[id]
  {
    map id | id in ws && ws[id].valid :: ws[id]
  }

  /** What stays captured after a frame that began with `id` captured, as
      the frame is written: capture is kept while the mouse is inside the
      window, whether or not the window is still valid. */
  function KeepCapture<Id(!new)>(ws: map<Id, ManagedWindow>, id: Id, mouse: UVec2): (r: Option<Id>)
    requires id in ws
    ensures r == Some(id) <==> Inside(ws[id], mouse)
    ensures r != Some(id) ==> r.None?
  {
    if Inside(ws[id], mouse) then Some(id) else None
  }

  /** The frame as written can keep a capture on a window it removes in the
      same frame: an invalid captured window with the mouse inside it. The
      next frame's lookup of that id then panics: `Draw` returns `Panic`
      for a captured id that names no window. */
  lemma DanglingCapture<Id(!new)>(ws: map<Id, ManagedWindow>, id: Id, mouse: UVec2)
    requires id in ws && !ws[id].valid && Inside(ws[id], mouse)
    ensures KeepCapture(ws, id, mouse) == Some(id)
    ensures id !in KeepValid(ws)
  {
  }

  /** A concrete such frame: window 1 is captured, has become invalid, and
      the mouse sits at its corner. */
  lemma DanglingCaptureExample()
    ensures var ws := map[1 := ManagedWindow(false, UVec2(0, 0), UVec2(100, 100), false)];
            KeepCapture(ws, 1, UVec2(0, 0)) == Some(1) && 1 !in KeepValid(ws)
  {
    var ws := map[1 := ManagedWindow(false, UVec2(0, 0), UVec2(100, 100), false)];
    assert Inside(ws[1], UVec2(0, 0));
  }

  /** The intended hand-off: a captured window that is invalid this frame
      releases the capture, so a kept capture always names a kept window. */
  function KeepCaptureFixed<Id(!new)>(ws: map<Id, ManagedWindow>, id: Id, mouse: UVec2): (r: Option<Id>)
    requires id in ws
    ensures r.Some? ==> r.value == id && r.value in KeepValid(ws)
    ensures r == Some(id) <==> ws[id].valid && Inside(ws[id], mouse)
  {
    if ws[id].valid && Inside(ws[id], mouse) then Some(id) else None
  }

  /** For a valid captured window the corrected hand-off is the one written. */
  lemma KeepCaptureFixedAgrees<Id(!new)>(ws: map<Id, ManagedWindow>, id: Id, mouse: UVec2)
    requires id in ws && ws[id].valid
    ensures KeepCaptureFixed(ws, id, mouse) == KeepCapture(ws, id, mouse)
  {
  }

  /** `CaptureTracked`: the captured id, if any, names a managed window, so
      the next frame's lookup cannot panic. */
  predicate CaptureTracked<Id(!new)>(ws: map<Id, ManagedWindow>, captured: Option<Id>)
  {
    captured.Some? ==> captured.value in ws
  }

  /** With the corrected hand-off, a frame that begins with a tracked
      capture ends with one. */
  lemma FixedKeepsCaptureTracked<Id(!new)>(ws: map<Id, ManagedWindow>, id: Id, mouse: UVec2)
    requires id in ws
    ensures CaptureTracked(KeepValid(ws), KeepCaptureFixed(ws, id, mouse))
  {
  }

  /** The state a `WindowManager` implementation exposes to its default
      `draw`: the managed windows by id, the captured id, and the mouse's
      internal (desktop) and virtual (scene) positions. Scene positions
      (`Vec3`) are only passed through, so their type is a parameter. */
  class WindowManager<Id(==,!new), V> {
    var windows: map<Id, ManagedWindow>
    var captured: Option<Id>
    var mouseInternal: UVec2
    var mouseVirtual: V

    constructor (windows: map<Id, ManagedWindow>, captured: Option<Id>, mouseInternal: UVec2, mouseVirtual: V)
      ensures this.windows == windows && this.captured == captured
      ensures this.mouseInternal == mouseInternal && this.mouseVirtual == mouseVirtual
    {
      this.windows := windows;
      this.captured := captured;
      this.mouseInternal := mouseInternal;
      this.mouseVirtual := mouseVirtual;
    }

    /** `draw`: one frame. `toInternal(id, v)` is the window's
        `map_virtual_to_internal_pos` and `toVirtual(id, p)` its
        `map_relative_to_virtual_pos` for the internal mouse position `p`.
        - With a window captured, the capture is kept while the window is
          valid and the internal mouse is inside its closed rectangle;
          otherwise the capture is released and the virtual mouse is put
          where the window maps it. The validity test is the corrected
          hand-off (`KeepCaptureFixed`); as written, the frame keeps the
          capture of an invalid window (`KeepCapture`, `DanglingCapture`).
        - With none captured, some valid window that maps the virtual mouse
          into itself becomes captured, receives the internal mouse there
          and is focused; if there is none, the virtual mouse is drawn.
        - Either way, the windows invalid at the start of the frame are
          removed at its end and all others are kept. */
    method Draw(toInternal: (Id, V) -> Option<UVec2>, toVirtual: (Id, UVec2) -> V) returns (r: FrameOutcome)
      modifies this
      ensures r == Panic <==> old(captured).Some? && old(captured).value !in old(windows)
      ensures old(captured).Some? && r != Panic ==>
        && captured == KeepCaptureFixed(old(windows), old(captured).value, old(mouseInternal))
        && mouseInternal == old(mouseInternal)
        && mouseVirtual == (if captured.Some? then old(mouseVirtual) else toVirtual(old(captured).value, old(mouseInternal)))
        && windows == KeepValid(old(windows))
        && r == Drawn(false)
      ensures old(captured).None? ==>
        (r == Drawn(true) <==> forall id :: id in old(windows) && old(windows)[id].valid ==> toInternal(id, old(mouseVirtual)).None?)
      ensures old(captured).None? && r == Drawn(true) ==>
        && captured.None? && mouseInternal == old(mouseInternal) && mouseVirtual == old(mouseVirtual)
        && windows == KeepValid(old(windows))
      ensures old(captured).None? && r == Drawn(false) ==>
        && captured.Some? && captured.value in old(windows) && old(windows)[captured.value].valid
        && toInternal(captured.value, old(mouseVirtual)) == Some(mouseInternal)
        && mouseVirtual == old(mouseVirtual)
        && windows == KeepValid(old(windows)[captured.value := old(windows)[captured.value].(focused := true)])
      // A frame that starts with the captured id naming a window neither
      // panics nor leaves it naming a removed one.
      ensures CaptureTracked(old(windows), old(captured)) ==> r != Panic && CaptureTracked(windows, captured)
    {
      var invalid := InvalidIds();
      if captured.Some? {
        var id := captured.value;
        captured := None;
        if id !in windows {
          return Panic;
        }
        var window := windows[id];
        if !window.valid || !Inside(window, mouseInternal) {
          mouseVirtual := toVirtual(id, mouseInternal);
        } else {
          captured := Some(id);
        }
        r := Drawn(false);
      } else {
        var found := Search(toInternal, invalid);
        if found.Some? {
          var id := found.value;
          captured := Some(id);
          mouseInternal := toInternal(id, mouseVirtual).value;
          windows := windows[id := windows[id].(focused := true)];
          r := Drawn(false);
        } else {
          r := Drawn(true);
        }
      }
      RemoveAll(invalid);
    }

    /** The first loop of `draw`: the ids of the windows that are not valid. */
    method InvalidIds() returns (invalid: seq<Id>)
      ensures forall id :: id in invalid <==> id in windows && !windows[id].valid
    {
      invalid := [];
      var todo := windows.Keys;
      while todo != {}
        invariant todo <= windows.Keys
        invariant forall id :: id in invalid <==> id in windows && id !in todo && !windows[id].valid
        decreases |todo|
      {
        var id :| id in todo;
        todo := todo - {id};
        if !windows[id].valid {
          invalid := invalid + [id];
        }
      }
    }

    /** The search loop of `draw`: some window not listed as invalid that
        maps the virtual mouse into itself, or none if there is no such
        window. */
    method Search(toInternal: (Id, V) -> Option<UVec2>, invalid: seq<Id>) returns (found: Option<Id>)
      ensures found.Some? ==> found.value in windows && found.value !in invalid
                              && toInternal(found.value, mouseVirtual).Some?
      ensures found.None? ==> forall id :: id in windows && id !in invalid ==> toInternal(id, mouseVirtual).None?
    {
      found := None;
      var todo := windows.Keys;
      while todo != {} && found.None?
        invariant todo <= windows.Keys
        invariant found.Some? ==> found.value in windows && found.value !in invalid
                                  && toInternal(found.value, mouseVirtual).Some?
        invariant found.None? ==>
          forall id :: id in windows && id !in todo && id !in invalid ==> toInternal(id, mouseVirtual).None?
        decreases |todo|
      {
        var id :| id in todo;
        todo := todo - {id};
        if id !in invalid && toInternal(id, mouseVirtual).Some? {
          found := Some(id);
        }
      }
    }

    /** The removal loop of `draw`: every listed id leaves the map. */
    method RemoveAll(invalid: seq<Id>)
      modifies this
      ensures forall id :: id in windows <==> id in old(windows) && id !in invalid
      ensures forall id :: id in windows ==> windows[id] == old(windows)[id]
      ensures captured == old(captured) && mouseInternal == old(mouseInternal) && mouseVirtual == old(mouseVirtual)
    {
      for i := 0 to |invalid|
        invariant forall id :: id in windows <==> id in old(windows) && id !in invalid[..i]
        invariant forall id :: id in windows ==> windows[id] == old(windows)[id]
        invariant captured == old(captured) && mouseInternal == old(mouseInternal) && mouseVirtual == old(mouseVirtual)
      {
        assert invalid[..i + 1] == invalid[..i] + [invalid[i]];
        windows := windows - {invalid[i]};
      }
      assert invalid[..|invalid|] == invalid;
    }
  }
}
