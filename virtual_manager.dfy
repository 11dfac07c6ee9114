/** The virtual desktop of `virtual_manager/mod.rs`: the set of OS windows
    mirrored into the headset, keyed by window handle. A background poll
    keeps a filtered list of the OS's windows; each frame the desktop starts
    tracking the polled windows it does not have yet, draws every tracked
    window, forgets those that report themselves invalid and parks the rest
    on the fake monitor. The poll thread is modelled as one `Poll` call per
    iteration; capture creation is the parameter `capturable`, the handles
    whose capture can be made this frame. Each tracked `VWindow` is kept as
    the state its `draw` changes (`WindowState`), drawn by `DrawWindow`, the
    function `VWindow.Draw` is proved against. */
module VirtualManager {
  import opened Wrappers
  import opened Strings
  import opened WindowsBindings
  import opened InternalOs
  import opened InternalWindow
  import opened VirtualWindow

  /** `INVALID_WINDOW_TITLES`: windows never mirrored, by title. */
  const INVALID_WINDOW_TITLES: seq<string> := ["Cloudcafe XR Desktop", "SteamVR", "OBS", "Mixed Reality Portal"]

  /** Whether `title` contains one of `titles`, tried in order. */
  function ContainsAny(title: string, titles: seq<string>): (b: bool)
    ensures b <==> exists i :: 0 <= i < |titles| && Contains(title, titles[i])
  {
    if titles == [] then false
    else if Contains(title, titles[0]) then true
    else ContainsAny(title, titles[1..])
  }

  /** `is_invalid_window`: the title contains a blacklisted title. */
  function IsInvalidWindow(title: string): (b: bool)
    ensures b <==> exists i :: 0 <= i < |INVALID_WINDOW_TITLES| && Contains(title, INVALID_WINDOW_TITLES[i])
  {
    ContainsAny(title, INVALID_WINDOW_TITLES)
  }

  /** Each blacklisted title is itself blacklisted, whatever surrounds it. */
  lemma BlacklistedTitles(prefix: string, i: nat, suffix: string)
    requires i < |INVALID_WINDOW_TITLES|
    ensures IsInvalidWindow(prefix + INVALID_WINDOW_TITLES[i] + suffix)
  {
    var t := prefix + INVALID_WINDOW_TITLES[i] + suffix;
    assert t[|prefix|..|prefix| + |INVALID_WINDOW_TITLES[i]|] == INVALID_WINDOW_TITLES[i];
    assert OccursAt(t, INVALID_WINDOW_TITLES[i], |prefix|);
  }

  /** The poll thread's filter: a window is listed when its title is not
      blacklisted, its width and height are positive, and it is a window,
      visible and enabled. */
  predicate KeepPolled(os: Os, info: WindowInfo)
    reads os
  {
    var rect := os.WindowRect(info.handle);
    && !IsInvalidWindow(info.title)
    && rect.right - rect.left > 0 && rect.bottom - rect.top > 0
    && info.handle in os.alive && info.handle in os.visible && info.handle in os.enabled
  }

  /** The handles one poll lists, in enumeration order. */
  function PolledHandles(os: Os, list: seq<WindowInfo>): (r: seq<Hwnd>)
    reads os
    ensures |r| <= |list|
    ensures forall h :: h in r <==> exists i :: 0 <= i < |list| && list[i].handle == h && KeepPolled(os, list[i])
  {
    if list == [] then []
    else
      var init := list[..|list| - 1];
      var last := list[|list| - 1];
      assert list == init + [last];
      PolledHandles(os, init) + (if KeepPolled(os, last) then [last.handle] else [])
  }

  /** A polled window has a positive size, so it can be tracked. */
  lemma PolledHaveSize(os: Os, h: Hwnd)
    requires h in PolledHandles(os, os.windowList)
    ensures RectSize(os.WindowRect(h)).Some?
    ensures RectSize(os.WindowRect(h)).value.x > 0 && RectSize(os.WindowRect(h)).value.y > 0
    ensures h in os.alive
  {
  }

  /** A handle `VDesktop::new` starts tracking: listed under a title that is
      not blacklisted, with a positive size, and capturable. */
  ghost predicate StartupTracked(os: Os, capturable: set<Hwnd>, h: Hwnd)
    reads os
  {
    && (exists i :: 0 <= i < |os.windowList| && os.windowList[i].handle == h
                    && !IsInvalidWindow(os.windowList[i].title))
    && RectSize(os.WindowRect(h)).Some?
    && RectSize(os.WindowRect(h)).value.x != 0 && RectSize(os.WindowRect(h)).value.y != 0
    && h in capturable
  }

  class VDesktop {
    /** The tracked windows by handle, each as the state `draw` changes. */
    var windows: map<Hwnd, WindowState>
    /** The list the poll thread shares with `draw`. */
    var currentListWindows: seq<Hwnd>
    const fakeMonitor: FakeMonitor
    const os: Os

    /** Every tracked window holds a capture of itself at its recorded
        size. */
    ghost predicate Valid()
      reads this
    {
      forall h :: h in windows ==> HoldsCapture(h, windows[h])
    }

    constructor (windows: map<Hwnd, WindowState>, fakeMonitor: FakeMonitor, os: Os)
      ensures this.windows == windows && this.fakeMonitor == fakeMonitor && this.os == os
      ensures currentListWindows == []
    {
      this.windows := windows;
      this.fakeMonitor := fakeMonitor;
      this.os := os;
      currentListWindows := [];
    }

    /** One iteration of the poll thread: the shared list is replaced by
        this poll's filtered handles. */
    method Poll()
      modifies this
      ensures currentListWindows == PolledHandles(os, os.windowList)
      ensures windows == old(windows)
    {
      var list := os.windowList;
      var polled: seq<Hwnd> := [];
      for i := 0 to |list|
        invariant polled == PolledHandles(os, list[..i])
      {
        assert list[..i + 1] == list[..i] + [list[i]];
        assert list[..i + 1][..i] == list[..i];
        var info := list[i];
        var rect := os.WindowRect(info.handle);
        var w := rect.right - rect.left;
        var h := rect.bottom - rect.top;
        if IsInvalidWindow(info.title) || w < 0 || h < 0 || w == 0 || h == 0
           || info.handle !in os.alive || info.handle !in os.visible || info.handle !in os.enabled {
          continue;
        }
        polled := polled + [info.handle];
      }
      assert list[..|list|] == list;
      currentListWindows := [];
      currentListWindows := currentListWindows + polled;
    }

    /** `VDesktop::new`: fails without a display (the `unwrap` on the first
        display) or when the first display's rectangle is invalid. Otherwise
        tracks every listed window whose title is not blacklisted, whose size
        is positive and whose `VWindow` can be built, under its handle, as
        just built. The shared list starts empty until the first poll. */
    static method New(os: Os, capturable: set<Hwnd>) returns (r: Result<VDesktop>)
      ensures r.Err? <==> |os.displays| == 0 || NewFakeMonitor(os.displays[0].handle, os.displays[0].monitorRect).Err?
      ensures r.Ok? ==> fresh(r.value) && r.value.os == os && r.value.Valid()
      ensures r.Ok? ==> r.value.fakeMonitor == NewFakeMonitor(os.displays[0].handle, os.displays[0].monitorRect).value
      ensures r.Ok? ==> forall h :: h in r.value.windows <==> StartupTracked(os, capturable, h)
      ensures r.Ok? ==> forall h :: h in r.value.windows ==>
                RectSize(os.WindowRect(h)).Some? && r.value.windows[h] == FreshState(h, RectSize(os.WindowRect(h)).value)
      ensures r.Ok? ==> r.value.currentListWindows == []
    {
      if |os.displays| == 0 {
        return Err("called `Option::unwrap()` on a `None` value");
      }
      var monitor := os.displays[0];
      var fakeMonitor := NewFakeMonitor(monitor.handle, monitor.monitorRect);
      if fakeMonitor.Err? {
        return Err(fakeMonitor.error);
      }
      var hwnds := Listed(os.windowList);
      var iWindows, handles := Sized(hwnds, fakeMonitor.value, os);
      var windows := Built(iWindows, handles, fakeMonitor.value, os, capturable);
      var desktop := new VDesktop(windows, fakeMonitor.value, os);
      return Ok(desktop);
    }

    /** The first loop of `new`: the handles of the listed windows whose
        title is not blacklisted. */
    static method Listed(list: seq<WindowInfo>) returns (hwnds: seq<Hwnd>)
      ensures forall h :: h in hwnds <==> exists j :: 0 <= j < |list| && list[j].handle == h && !IsInvalidWindow(list[j].title)
    {
      hwnds := [];
      for i := 0 to |list|
        invariant forall h :: h in hwnds <==>
                    exists j :: 0 <= j < i && list[j].handle == h && !IsInvalidWindow(list[j].title)
      {
        if IsInvalidWindow(list[i].title) {
          continue;
        }
        hwnds := hwnds + [list[i].handle];
      }
    }

    /** The second loop of `new`: an OS proxy for each of `hwnds` whose
        proxy can be built and whose size is non-zero. `handles` are their
        handles. */
    static method Sized(hwnds: seq<Hwnd>, fakeMonitor: FakeMonitor, os: Os)
      returns (iWindows: seq<IWindow>, ghost handles: seq<Hwnd>)
      ensures |handles| == |iWindows| && forall k :: 0 <= k < |iWindows| ==> iWindows[k].hwnd == handles[k]
      ensures forall h :: h in handles <==> h in hwnds && NonZeroSize(os, h)
    {
      iWindows := [];
      handles := [];
      for i := 0 to |hwnds|
        invariant |handles| == |iWindows| && forall k :: 0 <= k < |iWindows| ==> iWindows[k].hwnd == handles[k]
        invariant forall h :: h in handles <==> h in hwnds[..i] && NonZeroSize(os, h)
      {
        assert hwnds[..i + 1] == hwnds[..i] + [hwnds[i]];
        var iWindow := IWindow.New(hwnds[i], fakeMonitor, os);
        if iWindow.Ok? {
          var size := iWindow.value.Size();
          if size.value.x != 0 && size.value.y != 0 {
            iWindows := iWindows + [iWindow.value];
            handles := handles + [hwnds[i]];
          }
        }
      }
      assert hwnds[..|hwnds|] == hwnds;
    }

    /** The third loop of `new`: a `VWindow` for each proxy whose capture
        can be made, keyed by its handle, as just built. */
    static method Built(iWindows: seq<IWindow>, ghost handles: seq<Hwnd>, fakeMonitor: FakeMonitor, os: Os,
                        capturable: set<Hwnd>)
      returns (windows: map<Hwnd, WindowState>)
      requires |handles| == |iWindows| && forall k :: 0 <= k < |iWindows| ==> iWindows[k].hwnd == handles[k]
      requires forall h :: h in handles ==> RectSize(os.WindowRect(h)).Some?
      ensures forall h :: h in windows <==> h in handles && h in capturable
      ensures forall h :: h in windows ==> windows[h] == FreshState(h, RectSize(os.WindowRect(h)).value)
    {
      windows := map[];
      for i := 0 to |iWindows|
        invariant forall h :: h in windows <==> h in handles[..i] && h in capturable
        invariant forall h :: h in windows ==> windows[h] == FreshState(h, RectSize(os.WindowRect(h)).value)
      {
        assert handles[..i + 1] == handles[..i] + [handles[i]];
        var vWindow := VWindow.New(iWindows[i].hwnd, fakeMonitor, os, iWindows[i].hwnd in capturable);
        if vWindow.Ok? {
          windows := windows[iWindows[i].hwnd := vWindow.value.State()];
        }
      }
      assert handles[..|handles|] == handles;
    }

    /** The handles `draw` starts tracking: polled, not yet tracked, with a
        readable size, and capturable. */
    ghost function Created(polled: seq<Hwnd>, tracked: set<Hwnd>, capturable: set<Hwnd>): set<Hwnd>
      reads os
    {
      set h | h in polled && h !in tracked && RectSize(os.WindowRect(h)).Some? && h in capturable
    }

    /** `VDesktop::draw`: one frame. Every polled handle not yet tracked is
        tried once, and tracked if its `VWindow` can be built (a failure is
        retried on later frames). Then every tracked window is drawn, those
        that report `Invalid` are forgotten, and the rest are parked at the
        inactive position. A handle missing from the poll is not forgotten
        for that reason alone. `panicked` is the panic inside `VWindow::draw`
        on a live window whose size cannot be read; after it nothing is
        promised but the OS windows not having moved. */
    method Draw(capturable: set<Hwnd>) returns (panicked: bool)
      requires Valid()
      modifies this, os
      ensures panicked <==> exists h :: h in old(windows) && h in os.alive && RectSize(old(os.WindowRect(h))).None?
      ensures !panicked ==> Valid()
      ensures !panicked ==> forall h :: h in windows <==>
                || (h in old(windows) && old(Drawn(os, h, windows[h], capturable)).0 == Ok(IsWindowValid.Valid))
                || (h in old(Created(currentListWindows, windows.Keys, capturable)) && h in os.alive)
      ensures !panicked ==> forall h :: h in windows ==> h in os.alive && RectSize(old(os.WindowRect(h))) == Some(windows[h].storedSize)
      ensures !panicked ==> forall h :: h in windows ==>
                windows[h] == if h in old(windows) then old(Drawn(os, h, windows[h], capturable)).1
                              else FreshState(h, RectSize(old(os.WindowRect(h))).value)
      ensures !panicked ==> os.rects == old(os.rects) + map h | h in windows :: Placed(InactivePos(fakeMonitor), windows[h].storedSize)
      ensures panicked ==> os.rects == old(os.rects)
      ensures currentListWindows == old(currentListWindows)
      ensures OnlyRectsChanged(os)
    {
      AddNew(capturable);
      var invalid;
      invalid, panicked := DrawAll(capturable);
      if panicked {
        return;
      }
      RemoveInvalid(invalid);
      ParkAll();
    }

    /** The first loop of `draw`: tracks every polled handle whose `VWindow`
        can be built, as just built. */
    method AddNew(capturable: set<Hwnd>)
      modifies this
      ensures windows.Keys == old(windows.Keys) + Created(currentListWindows, old(windows.Keys), capturable)
      ensures forall h :: h in old(windows) ==> windows[h] == old(windows[h])
      ensures forall h :: h in windows && h !in old(windows) ==> windows[h] == FreshState(h, RectSize(os.WindowRect(h)).value)
      ensures currentListWindows == old(currentListWindows)
    {
      var polled := currentListWindows;
      for i := 0 to |polled|
        invariant windows.Keys == old(windows.Keys) + Created(polled[..i], old(windows.Keys), capturable)
        invariant forall h :: h in old(windows) ==> windows[h] == old(windows[h])
        invariant forall h :: h in windows && h !in old(windows) ==> windows[h] == FreshState(h, RectSize(os.WindowRect(h)).value)
        invariant currentListWindows == polled
      {
        assert polled[..i + 1] == polled[..i] + [polled[i]];
        if polled[i] !in windows {
          var vWindow := VWindow.New(polled[i], fakeMonitor, os, polled[i] in capturable);
          if vWindow.Ok? {
            windows := windows[polled[i] := vWindow.value.State()];
          }
        }
      }
      assert polled[..|polled|] == polled;
    }

    /** The second loop of `draw`: draws every tracked window, in some order,
        and collects those that report `Invalid`; stops at the first panic. */
    method DrawAll(capturable: set<Hwnd>) returns (invalid: seq<Hwnd>, panicked: bool)
      modifies this
      ensures panicked <==> exists h :: h in old(windows) && Drawn(os, h, old(windows[h]), capturable).0.Err?
      ensures !panicked ==> windows.Keys == old(windows.Keys)
      ensures !panicked ==> forall h :: h in windows ==> windows[h] == Drawn(os, h, old(windows[h]), capturable).1
      ensures !panicked ==> forall h :: h in invalid <==> h in windows && Drawn(os, h, old(windows[h]), capturable).0 == Ok(Invalid)
      ensures currentListWindows == old(currentListWindows)
    {
      var drawn;
      drawn, invalid, panicked := DrawEach(os, windows, capturable);
      if !panicked {
        windows := drawn;
      }
    }

    /** The body of that loop over the window states `ws`, in one OS state:
        the new states, the handles whose outcome is `Invalid`, and whether
        some window's draw panics. */
    static method DrawEach(os: Os, ws: map<Hwnd, WindowState>, capturable: set<Hwnd>)
      returns (drawn: map<Hwnd, WindowState>, invalid: seq<Hwnd>, panicked: bool)
      ensures panicked <==> exists h :: h in ws && Drawn(os, h, ws[h], capturable).0.Err?
      ensures !panicked ==> drawn.Keys == ws.Keys
      ensures !panicked ==> forall h :: h in drawn ==> drawn[h] == Drawn(os, h, ws[h], capturable).1
      ensures !panicked ==> forall h :: h in invalid <==> h in ws && Drawn(os, h, ws[h], capturable).0 == Ok(Invalid)
    {
      var todo := ws.Keys;
      drawn := ws;
      invalid := [];
      while todo != {}
        invariant drawn.Keys == ws.Keys && todo <= ws.Keys
        invariant forall h :: h in todo ==> drawn[h] == ws[h]
        invariant forall h :: h in ws && h !in todo ==>
                    drawn[h] == Drawn(os, h, ws[h], capturable).1 && Drawn(os, h, ws[h], capturable).0.Ok?
        invariant forall h :: h in invalid <==> h in ws && h !in todo && Drawn(os, h, ws[h], capturable).0 == Ok(Invalid)
        decreases |todo|
      {
        NonEmptyHasElement(todo);
        var h :| h in todo;
        var r := DrawWindow(h, h in os.alive, RectSize(os.WindowRect(h)), drawn[h], h in capturable);
        if r.0.Err? {
          return drawn, [], true;
        }
        drawn := drawn[h := r.1];
        if r.0.value == Invalid {
          invalid := invalid + [h];
        }
        todo := todo - {h};
      }
      return drawn, invalid, false;
    }

    /** The third loop of `draw`: forgets the invalid windows. */
    method RemoveInvalid(invalid: seq<Hwnd>)
      modifies this
      ensures forall h :: h in windows <==> h in old(windows) && h !in invalid
      ensures forall h :: h in windows ==> windows[h] == old(windows[h])
      ensures currentListWindows == old(currentListWindows)
    {
      for i := 0 to |invalid|
        invariant forall h :: h in windows <==> h in old(windows) && h !in invalid[..i]
        invariant forall h :: h in windows ==> windows[h] == old(windows[h])
        invariant currentListWindows == old(currentListWindows)
      {
        assert invalid[..i + 1] == invalid[..i] + [invalid[i]];
        windows := windows - {invalid[i]};
      }
      assert invalid[..|invalid|] == invalid;
    }

    /** The last loop of `draw`: parks every tracked window, through its OS
        proxy, at the inactive position, keeping its size. */
    method ParkAll()
      requires forall h :: h in windows ==> h in os.alive && RectSize(os.WindowRect(h)) == Some(windows[h].storedSize)
      modifies os
      ensures os.rects == old(os.rects) + map h | h in windows :: Placed(InactivePos(fakeMonitor), windows[h].storedSize)
      ensures OnlyRectsChanged(os)
    {
      var todo := windows.Keys;
      ghost var parked: map<Hwnd, Rect> := map[];
      while todo != {}
        invariant todo <= windows.Keys && parked.Keys == windows.Keys - todo
        invariant forall h :: h in parked ==> parked[h] == Placed(InactivePos(fakeMonitor), windows[h].storedSize)
        invariant os.rects == old(os.rects) + parked
        invariant OnlyRectsChanged(os)
        decreases |todo|
      {
        NonEmptyHasElement(todo);
        var h :| h in todo;
        assert h !in parked;
        assert os.WindowRect(h) == old(os.WindowRect(h));
        Park(h);
        UpdateUnion(old(os.rects), parked, h, Placed(InactivePos(fakeMonitor), windows[h].storedSize));
        parked := parked[h := Placed(InactivePos(fakeMonitor), windows[h].storedSize)];
        todo := todo - {h};
      }
      ghost var placed := map h | h in windows :: Placed(InactivePos(fakeMonitor), windows[h].storedSize);
      assert parked.Keys == placed.Keys;
      assert forall h :: h in parked ==> parked[h] == placed[h];
      assert parked == placed;
    }

    /** `move_to_inactive` on the tracked window `h`, through its OS proxy. */
    method Park(h: Hwnd)
      requires h in windows && h in os.alive && RectSize(os.WindowRect(h)) == Some(windows[h].storedSize)
      modifies os
      ensures os.rects == old(os.rects)[h := Placed(InactivePos(fakeMonitor), windows[h].storedSize)]
      ensures OnlyRectsChanged(os)
    {
      var internalWindow := new IWindow(h, fakeMonitor, os);
      internalWindow.storedSize := windows[h].storedSize;
      var ok := internalWindow.MoveToInactive();
    }
  }

  /** What drawing the tracked window `h`, in state `w`, yields in the
      OS state `os`: its outcome and its new state. */
  ghost function Drawn(os: Os, h: Hwnd, w: WindowState, capturable: set<Hwnd>): (Result<IsWindowValid>, WindowState)
    reads os
  {
    DrawWindow(h, h in os.alive, RectSize(os.WindowRect(h)), w, h in capturable)
  }

  /** A non-empty set has an element: what lets a loop over a map's keys
      pick the next one. */
  lemma NonEmptyHasElement(s: set<Hwnd>)
    requires s != {}
    ensures exists x :: x in s
  {
    if forall x :: x !in s {
      assert false;
    }
  }

  /** Updating a union of maps updates its right operand. */
  lemma UpdateUnion<K, V>(a: map<K, V>, b: map<K, V>, k: K, v: V)
    ensures (a + b)[k := v] == a + b[k := v]
  {
  }

  /** The window `h` has a readable, non-zero size. */
  predicate NonZeroSize(os: Os, h: Hwnd)
    reads os
  {
    RectSize(os.WindowRect(h)).Some? && RectSize(os.WindowRect(h)).value.x != 0 && RectSize(os.WindowRect(h)).value.y != 0
  }
}
