/** The operating system as seen by the core: the Win32 wrappers in
    `windows_bindings/mod.rs` and the enumerations of the capture crate become
    reads and writes of explicit state held by one `Os` object. */
module WindowsBindings {
  import opened Wrappers

  /** `HWND`: an opaque window handle. */
  type Hwnd = int

  /** `RECT`: screen coordinates of a window, right and bottom exclusive. */
  datatype Rect = Rect(left: int, top: int, right: int, bottom: int)

  /** `IVec2` / `POINT`: a signed screen point. */
  datatype IVec2 = IVec2(x: int, y: int)

  /** `UVec2`: an unsigned size (or unsigned position). */
  datatype UVec2 = UVec2(x: nat, y: nat)

  /** One entry of `enumerate_windows()`. */
  datatype WindowInfo = WindowInfo(handle: Hwnd, title: string)

  /** One entry of `enumerate_displays()`. */
  datatype DisplayInfo = DisplayInfo(handle: int, monitorRect: Rect)

  /** The rectangle whose top-left corner is `pos` and whose size is `size`:
      what `MoveWindow(hwnd, x, y, w, h)` leaves behind. */
  function Placed(pos: IVec2, size: UVec2): (r: Rect)
    ensures r.left == pos.x && r.top == pos.y
    ensures r.right - r.left == size.x && r.bottom - r.top == size.y
  {
    Rect(pos.x, pos.y, pos.x + size.x, pos.y + size.y)
  }

  /** The width and height of a rectangle, or `None` when either is negative
      (the check every size query in the program makes). */
  function RectSize(rect: Rect): (r: Option<UVec2>)
    ensures r.None? <==> rect.right - rect.left < 0 || rect.bottom - rect.top < 0
    ensures r.Some? ==> r.value.x == rect.right - rect.left && r.value.y == rect.bottom - rect.top
  {
    var w := rect.right - rect.left;
    var h := rect.bottom - rect.top;
    if w < 0 || h < 0 then None else Some(UVec2(w, h))
  }

  /** A rectangle placed anywhere with a given size reports that size. */
  lemma PlacedSize(pos: IVec2, size: UVec2)
    ensures RectSize(Placed(pos, size)) == Some(size)
  {
  }

  class Os {
    /** `GetWindowRect` per live handle. */
    var rects: map<Hwnd, Rect>
    /** Handles for which `IsWindow` holds. */
    var alive: set<Hwnd>
    /** Handles for which `IsWindowVisible` holds. */
    var visible: set<Hwnd>
    /** Handles for which `IsWindowEnabled` holds. */
    var enabled: set<Hwnd>
    /** `GetCursorPos`. */
    var cursor: IVec2
    /** What `enumerate_windows()` currently yields, in order. */
    var windowList: seq<WindowInfo>
    /** What `enumerate_displays()` yields, in order. */
    var displays: seq<DisplayInfo>

    constructor (rects: map<Hwnd, Rect>, alive: set<Hwnd>, visible: set<Hwnd>, enabled: set<Hwnd>,
                 cursor: IVec2, windowList: seq<WindowInfo>, displays: seq<DisplayInfo>)
      ensures this.rects == rects && this.alive == alive && this.visible == visible
      ensures this.enabled == enabled && this.cursor == cursor
      ensures this.windowList == windowList && this.displays == displays
    {
      this.rects := rects;
      this.alive := alive;
      this.visible := visible;
      this.enabled := enabled;
      this.cursor := cursor;
      this.windowList := windowList;
      this.displays := displays;
    }

    /** `get_window_rect`: a failed `GetWindowRect` leaves `Rect::default()`. */
    function WindowRect(h: Hwnd): (r: Rect)
      reads this
      ensures h !in rects ==> r == Rect(0, 0, 0, 0)
      ensures h in rects ==> r == rects[h]
    {
      if h in rects then rects[h] else Rect(0, 0, 0, 0)
    }

    /** `move_window`: `MoveWindow` repositions a live window and fails on a
        dead handle. Nothing else about the OS changes. */
    method MoveWindow(h: Hwnd, x: int, y: int, width: nat, height: nat)
      modifies this
      ensures h in alive ==> rects == old(rects)[h := Placed(IVec2(x, y), UVec2(width, height))]
      ensures h !in alive ==> rects == old(rects)
      ensures alive == old(alive) && visible == old(visible) && enabled == old(enabled)
      ensures cursor == old(cursor) && windowList == old(windowList) && displays == old(displays)
    {
      if h in alive {
        rects := rects[h := Placed(IVec2(x, y), UVec2(width, height))];
      }
    }

    /** `set_cursor_pos`: only the OS cursor moves. */
    method SetCursorPos(x: int, y: int)
      modifies this
      ensures cursor == IVec2(x, y)
      ensures rects == old(rects) && alive == old(alive) && visible == old(visible)
      ensures enabled == old(enabled) && windowList == old(windowList) && displays == old(displays)
    {
      cursor := IVec2(x, y);
    }
  }
}
