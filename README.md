# cloudcafe-client core, modelled in Dafny

cloudcafe-client mirrors the windows of a Windows desktop into a VR scene.
Under the rendering sits a set of small state machines and integer
rectangle rules. This project models them and proves what they promise:

- **Key-state table** (`Input`): a map from `Key` to `InputState`
  (`active`, `justChanged`).
  - The keyboard/mouse hook writes it through `keyboard_press` and the event
    dispatch table.
  - The frame loop reads it through `get_input`, which clears `justChanged`.
- **Run menu** (`RunMenu`): the start-menu entries, lower-cased and sorted
  by name, and a search string.
  - Windows+O opens the search.
  - Backspace and letters edit it, and it filters the entries by substring.
  - The selection is clamped after an edit, moved by the arrows and
    consumed by Enter.
  - Each frame of the class method `Draw` is proved equal to the pure step
    `MenuStep`. That step keeps the index invariant `MenuInv`, which is what
    makes the `unwrap` of the selected entry and `len() - 1` safe.
- **Fake monitor and OS-window proxy** (`InternalOs`, `InternalWindow`):
  - the rectangle rules, where a negative width or height is invalid;
  - stored-size change detection (`IWindow.SizeChanged`);
  - move and resize operations that keep the other component;
  - the two park positions, inset by a padding of 40;
  - aspect-ratio fitting.
- **OS-mouse proxy** (`InternalMouse`): the per-tick delta and the cursor
  lock.
- **Virtual window** (`VirtualWindow`): the per-frame validity and
  recapture decision, specified by the function `DrawWindow`.
- **Virtual desktop** (`VirtualManager`):
  - the title blacklist;
  - the poll filter and list replacement;
  - startup tracking;
  - the per-frame reconciliation: add the polled windows, draw, drop the
    invalid ones, park the rest.
- **Window manager** (`WindowManagement`):
  - `WindowsWindow`'s size and position rules, including the clamp of a
    slightly off-screen left edge;
  - the default `WindowManager::draw`, which holds, releases or acquires
    a captured window.

The operating system is explicit state: the class `WindowsBindings.Os`.
- It holds each window's rectangle, the `is_window`, `visible` and
  `enabled` flags, the cursor, the window enumeration and the displays.
- `move_window` and `set_cursor_pos` are methods that update that state.
- GPU capture creation can fail for reasons outside the model. It is a
  parameter: a `captureOk` flag, or the set `capturable` of handles whose
  capture can be made this frame.
- The hook and poll threads are one call per loop iteration
  (`KeyboardMouseState.OnEvent`, `VDesktop.Poll`).
- HashMap iteration order is unspecified, so where the code takes the
  first match in a map, the model takes some match.

Files: `wrappers.dfy` (Option/Result), `strings.dfy` (`str::contains`,
ASCII lower-casing, the order on `String`), `windows_bindings.dfy`,
`internal_os.dfy`, `internal_window.dfy`, `internal_mouse.dfy`,
`virtual_window.dfy`, `virtual_manager.dfy`, `input.dfy`, `run_menu.dfy`,
`window_management_2.dfy`.

## Model

| member | source | states |
|---|---|---|
| WindowsBindings.Placed | cloudcafe-client/src/windows_bindings/mod.rs:20-24 | the rectangle `MoveWindow(x, y, w, h)` leaves has its top-left corner at (x, y) and width w, height h |
| WindowsBindings.RectSize | cloudcafe-client/src/internal_os/internal_window.rs:46-53 | no size exactly when right − left or bottom − top is negative; otherwise the width and height |
| WindowsBindings.PlacedSize | cloudcafe-client/src/windows_bindings/mod.rs:20-24 | a window moved to any corner with size s reports size s |
| WindowsBindings.Os.WindowRect | cloudcafe-client/src/windows_bindings/mod.rs:13-19 | a handle the OS has no rectangle for reads as the default (all-zero) rectangle |
| WindowsBindings.Os.MoveWindow | cloudcafe-client/src/windows_bindings/mod.rs:20-24 | a live window gets the placed rectangle; a dead handle changes nothing; no other OS state changes |
| WindowsBindings.Os.SetCursorPos | cloudcafe-client/src/windows_bindings/mod.rs:32-36 | only the cursor moves, to (x, y) |
| InternalOs.NewFakeMonitor | cloudcafe-client/src/internal_os/mod.rs:17-30 | fails exactly when the width or height is negative (zero is accepted); on success the handle and rectangle are copied, pos is (left, top) and size is (right − left, bottom − top), which rebuild the rectangle |
| InternalOs.NewFakeMonitorRoundTrip | cloudcafe-client/src/internal_os/mod.rs:17-30 | rebuilding a monitor from its own handle and rectangle yields that same monitor |
| InternalWindow.FitAspect | cloudcafe-client/src/internal_os/internal_window.rs:62-69 | the fit stays in the box and fills one side of it; the other side is the floor of the ratio applied to the full side |
| InternalWindow.ActivePos | cloudcafe-client/src/internal_os/internal_window.rs:88 | the active park corner puts the right edge PADDING left of the monitor's right edge and the top PADDING below its top |
| InternalWindow.InactivePos | cloudcafe-client/src/internal_os/internal_window.rs:91 | the inactive park corner is PADDING right of and below the monitor's corner |
| InternalWindow.IWindow.constructor | cloudcafe-client/src/internal_os/internal_window.rs:16-21 | a proxy starts with a zero recorded size |
| InternalWindow.IWindow.New | cloudcafe-client/src/internal_os/internal_window.rs:15-31 | fails exactly when the size cannot be read; on success the recorded size is the current size, so the size has not changed |
| InternalWindow.IWindow.Size | cloudcafe-client/src/internal_os/internal_window.rs:45-54 | no size exactly when the window rectangle has a negative width or height; otherwise its width and height |
| InternalWindow.IWindow.SizeChanged | cloudcafe-client/src/internal_os/internal_window.rs:32-40 | unchanged exactly when the size can be read and equals the recorded size; an unreadable size counts as changed |
| InternalWindow.IWindow.UpdateSize | cloudcafe-client/src/internal_os/internal_window.rs:41-44 | succeeds exactly when the size can be read, and then records it; on failure the recorded size is untouched |
| InternalWindow.IWindow.Pos | cloudcafe-client/src/internal_os/internal_window.rs:73-76 | the window's top-left corner |
| InternalWindow.IWindow.SetSize | cloudcafe-client/src/internal_os/internal_window.rs:77-81 | the window gets the new size at the same corner; the recorded size and the rest of the OS are unchanged |
| InternalWindow.IWindow.SetPos | cloudcafe-client/src/internal_os/internal_window.rs:82-86 | fails, moving nothing, exactly when the size cannot be read; otherwise the corner moves and the size stays |
| InternalWindow.IWindow.MoveToActive | cloudcafe-client/src/internal_os/internal_window.rs:87-89 | the window keeps its size, with its right edge at the monitor's right edge less PADDING and its top at the monitor's top plus PADDING |
| InternalWindow.IWindow.MoveToInactive | cloudcafe-client/src/internal_os/internal_window.rs:90-92 | the window keeps its size and its corner goes to the inactive park position |
| InternalWindow.IWindow.AspectBox | cloudcafe-client/src/internal_os/internal_window.rs:60-61 | the box is half of (monitor width − 2·PADDING), rounded down, and monitor height − 2·PADDING |
| InternalWindow.IWindow.SetAspectRatio | cloudcafe-client/src/internal_os/internal_window.rs:59-72 | resizes in place to the fit of the ratio into the box, so width ≤ box width and height ≤ box height, keeping the corner; only this window's rectangle changes; it never fails |
| InternalMouse.IMouse.constructor | cloudcafe-client/src/internal_os/internal_mouse.rs:13-21 | starts unlocked with a zero delta and the recorded position at the OS cursor |
| InternalMouse.IMouse.Pos | cloudcafe-client/src/internal_os/internal_mouse.rs:32-35 | a read of the OS cursor that changes nothing |
| InternalMouse.IMouse.SetPos | cloudcafe-client/src/internal_os/internal_mouse.rs:36-39 | moves the OS cursor only; the recorded position and the windows are unchanged |
| InternalMouse.IMouse.Tick | cloudcafe-client/src/internal_os/internal_mouse.rs:22-31 | the delta is the OS cursor less the old recorded position; unlocked, the cursor is recorded and not moved; locked, both go to the lock point; the recorded position ends at the cursor |
| VirtualWindow.DrawOutcome | cloudcafe-client/src/virtual_manager/virtual_window.rs:45-68 | a panic exactly for a live window whose size cannot be read; `Valid` exactly for a live window whose size is unchanged, or changed to a non-zero size with the recapture succeeding |
| VirtualWindow.FreshState | cloudcafe-client/src/virtual_manager/virtual_window.rs:35-44 | a just-built window holds a capture of itself at its recorded size |
| VirtualWindow.DrawWindow | cloudcafe-client/src/virtual_manager/virtual_window.rs:45-69 | the outcome is `DrawOutcome` of the window's liveness, size and recorded size |
| VirtualWindow.DrawWindowValid | cloudcafe-client/src/virtual_manager/virtual_window.rs:49-68 | a window reporting `Valid` holds a capture at a recorded size equal to its current size; any other outcome keeps the state or leaves no capture |
| VirtualWindow.DrawWindowSteady | cloudcafe-client/src/virtual_manager/virtual_window.rs:49-68 | drawing a `Valid` window again, with the OS unchanged, reports `Valid` and changes nothing |
| VirtualWindow.VWindow.constructor | cloudcafe-client/src/virtual_manager/virtual_window.rs:38-43 | the window holds the given capture, proxy and handle |
| VirtualWindow.VWindow.New | cloudcafe-client/src/virtual_manager/virtual_window.rs:35-44 | fails exactly when the size cannot be read or the capture cannot be made; otherwise a fresh proxy and a capture at the current size |
| VirtualWindow.VWindow.Draw | cloudcafe-client/src/virtual_manager/virtual_window.rs:45-69 | outcome and new state are `DrawWindow` of the old state: `Invalid` untouched for a dead handle or a zero size, `Valid` untouched for an unchanged size, a panic for an unreadable size, otherwise the new size recorded and the capture remade or dropped |
| VirtualManager.ContainsAny | cloudcafe-client/src/virtual_manager/mod.rs:31-36 | true exactly when the title contains one of the titles |
| VirtualManager.IsInvalidWindow | cloudcafe-client/src/virtual_manager/mod.rs:30-37 | true exactly when the title contains one of the four blacklisted titles |
| VirtualManager.BlacklistedTitles | cloudcafe-client/src/virtual_manager/mod.rs:21 | any title with a blacklisted title inside it is blacklisted |
| VirtualManager.PolledHandles | cloudcafe-client/src/virtual_manager/mod.rs:79-103 | a handle is listed exactly when some enumerated window with it has a title that is not blacklisted, a positive width and height, and is a window, visible and enabled |
| VirtualManager.PolledHaveSize | cloudcafe-client/src/virtual_manager/mod.rs:84-102 | a polled handle is alive with a readable, positive size |
| VirtualManager.VDesktop.constructor | cloudcafe-client/src/virtual_manager/mod.rs:111-117 | the desktop starts with the given windows and an empty shared list |
| VirtualManager.VDesktop.Poll | cloudcafe-client/src/virtual_manager/mod.rs:78-108 | the shared list is replaced entirely by this poll's filtered handles; the tracked windows are untouched |
| VirtualManager.VDesktop.New | cloudcafe-client/src/virtual_manager/mod.rs:39-118 | fails exactly without a display or with an invalid first display; otherwise it tracks exactly the listed, non-blacklisted, non-zero-size, capturable handles, each as just built |
| VirtualManager.VDesktop.Listed | cloudcafe-client/src/virtual_manager/mod.rs:50-56 | the handles of exactly the enumerated windows whose title is not blacklisted |
| VirtualManager.VDesktop.Sized | cloudcafe-client/src/virtual_manager/mod.rs:57-64 | a proxy for exactly those handles with a readable, non-zero size |
| VirtualManager.VDesktop.Built | cloudcafe-client/src/virtual_manager/mod.rs:65-70 | a window for exactly those proxies whose capture can be made, keyed by handle, as just built |
| VirtualManager.VDesktop.Draw | cloudcafe-client/src/virtual_manager/mod.rs:126-153 | panics exactly when a tracked live window's size cannot be read; otherwise the tracked keys are the old ones that draw `Valid` plus the newly created live ones, each state is its drawn state or fresh, every tracked window is parked at the inactive position with its size, and the capture invariant is kept |
| VirtualManager.VDesktop.AddNew | cloudcafe-client/src/virtual_manager/mod.rs:129-140 | adds exactly the polled, untracked handles with a readable size and a capture, as just built; tracked windows are untouched; failures are not remembered |
| VirtualManager.VDesktop.DrawAll | cloudcafe-client/src/virtual_manager/mod.rs:141-146 | every tracked window is drawn: same keys, each state its drawn state, and the invalid list is exactly the windows drawn `Invalid`; a panic when any draw panics |
| VirtualManager.VDesktop.DrawEach | cloudcafe-client/src/virtual_manager/mod.rs:141-146 | the loop over the window states: the same result on a map of states |
| VirtualManager.VDesktop.RemoveInvalid | cloudcafe-client/src/virtual_manager/mod.rs:147-149 | exactly the listed windows are forgotten; the others are untouched |
| VirtualManager.VDesktop.ParkAll | cloudcafe-client/src/virtual_manager/mod.rs:150-152 | every tracked window's rectangle becomes its size at the inactive position; no other OS state changes |
| VirtualManager.VDesktop.Park | cloudcafe-client/src/virtual_manager/mod.rs:151 | one window is parked at the inactive position with its recorded size |
| Input.AsStr | cloudcafe-client/src/input.rs:45-78 | fails exactly for Enter, ArrowUp and ArrowDown; names MouseLeft, Windows and Backspace; a letter key gives one lower-case letter |
| Input.LetterKeysReached | cloudcafe-client/src/input.rs:170-195 | every letter key is what the hook's key of the same letter dispatches to |
| Input.InitialKeysComplete | cloudcafe-client/src/input.rs:109-142 | the initial map holds all 32 keys, each in the default state, so the `expect` in `get_input` cannot fail |
| Input.Pressed | cloudcafe-client/src/input.rs:93-103 | Down sets the key to held-and-changed, Up to released-and-changed, anything else changes nothing; no other key changes; a complete map stays complete |
| Input.KeyFor | cloudcafe-client/src/input.rs:160-197 | exactly the two Windows keys map to `Windows`; Enter, the two arrows and Backspace, and only they, map to their own tracked keys; unlisted keys map to nothing |
| Input.HookUpdate | cloudcafe-client/src/input.rs:151-242 | a dispatched key is pressed as by `keyboard_press`; a left mouse button event sets MouseLeft the same way; every other event changes nothing; completeness is kept |
| Input.KeyboardMouseState.constructor | cloudcafe-client/src/input.rs:109-142 | the table starts as the complete initial map |
| Input.KeyboardMouseState.KeyboardPress | cloudcafe-client/src/input.rs:93-103 | the table becomes `Pressed` of the old table |
| Input.KeyboardMouseState.OnEvent | cloudcafe-client/src/input.rs:151-242 | one received event makes the table `HookUpdate` of the old table |
| Input.KeyboardMouseState.GetInput | cloudcafe-client/src/input.rs:254-261 | returns the state as it was, then leaves it with the same `active` and no change |
| Input.ReadTwice | cloudcafe-client/src/input.rs:254-261 | two `get_input` calls in a row: the first returns the stored state, the second the same `active` flag with no change, and the keys end as the first read left them |
| Strings.Contains | cloudcafe-client/src/run_menu.rs:113 | true exactly when the pattern occurs at some position |
| Strings.Lower | cloudcafe-client/src/run_menu.rs:50 | each ASCII upper-case letter lower-cased and every other character kept, so the length is unchanged and no ASCII upper-case letter is left |
| Strings.LessEq | cloudcafe-client/src/run_menu.rs:55 | the `Ord for String` order on names: a prefix of a name is ordered before it |
| Strings.LessEqAntisymmetric | cloudcafe-client/src/run_menu.rs:55 | two names each ordered before the other are equal |
| Strings.LessEqReflexive | cloudcafe-client/src/run_menu.rs:55 | the name order is reflexive |
| Strings.LessEqTotal | cloudcafe-client/src/run_menu.rs:55 | the name order is total |
| Strings.LessEqTransitive | cloudcafe-client/src/run_menu.rs:55 | the name order is transitive |
| RunMenu.AlphabetOrder | cloudcafe-client/src/run_menu.rs:36 | the alphabet has 26 keys, the i-th being the i-th letter |
| RunMenu.AlphabetLetters | cloudcafe-client/src/run_menu.rs:36 | the alphabet holds only letter keys |
| RunMenu.AlphabetDistinct | cloudcafe-client/src/run_menu.rs:36 | no key occurs twice in the alphabet |
| RunMenu.LetterName | cloudcafe-client/src/input.rs:50-75 | a letter key's name is the lower-case letter at its place in the alphabet |
| RunMenu.AlphabetNames | cloudcafe-client/src/run_menu.rs:105-109 | scanning the alphabet appends 'a' … 'z' in order |
| RunMenu.Insert | cloudcafe-client/src/run_menu.rs:55 | inserting into a sorted list keeps it sorted and adds exactly that entry |
| RunMenu.SortByName | cloudcafe-client/src/run_menu.rs:55 | sorted by name and a permutation of the input |
| RunMenu.Collected | cloudcafe-client/src/run_menu.rs:46-54 | exactly the readable listing entries, each named by its lower-cased file name |
| RunMenu.Filtered | cloudcafe-client/src/run_menu.rs:111-116 | exactly the entries whose name contains the query |
| RunMenu.FilteredSorted | cloudcafe-client/src/run_menu.rs:111-116 | filtering a sorted list keeps it sorted |
| RunMenu.FilteredEmptyQuery | cloudcafe-client/src/run_menu.rs:89-97 | the empty search matches every entry, so selection 0 indexes the list after Windows+O |
| RunMenu.FilterEntries | cloudcafe-client/src/run_menu.rs:111-116 | the filter loop builds exactly `Filtered` |
| RunMenu.DropLast | cloudcafe-client/src/run_menu.rs:102 | popping removes exactly the last character, and nothing from an empty string |
| RunMenu.Typed | cloudcafe-client/src/run_menu.rs:105-109 | empty exactly when no scanned letter was just pressed; only lower-case letters (which letters, and their order, are `TypedMembers` and `TypedIncreasing`) |
| RunMenu.LetterChar | cloudcafe-client/src/input.rs:50-75 | a letter key's name is one lower-case letter |
| RunMenu.TypedMembers | cloudcafe-client/src/run_menu.rs:105-109 | a character is typed exactly when some scanned key whose name it is was just pressed |
| RunMenu.TypedIncreasing | cloudcafe-client/src/run_menu.rs:105-109 | keys scanned in alphabetical order type strictly increasing letters, so each letter at most once |
| RunMenu.TypedAlphabet | cloudcafe-client/src/run_menu.rs:105-109 | empty exactly when no letter of the alphabet was just pressed |
| RunMenu.TypedInOrder | cloudcafe-client/src/run_menu.rs:105-109 | over 26 keys typing 'a' to 'z' in order, the letter c is typed exactly when key c − 'a' was just pressed, in strictly increasing order |
| RunMenu.TypedAlphabetLetters | cloudcafe-client/src/run_menu.rs:105-109 | the letters typed this frame are exactly those whose keys were just pressed, in alphabetical order, each once |
| RunMenu.EditedInput | cloudcafe-client/src/run_menu.rs:100-110 | the old text, popped when Backspace was just pressed, followed by exactly the letters typed this frame |
| RunMenu.UnchangedInput | cloudcafe-client/src/run_menu.rs:99-110 | with no Backspace and no letter the text is unchanged |
| RunMenu.ClampSelection | cloudcafe-client/src/run_menu.rs:117-127 | an in-range selection stays, one past the end moves to the last index, and it is cleared only when there was none or the list is empty |
| RunMenu.SelectUp | cloudcafe-client/src/run_menu.rs:136-144 | one up, staying at 0; no selection stays none |
| RunMenu.SelectDown | cloudcafe-client/src/run_menu.rs:145-153 | one down, staying at the last index; no selection stays none |
| RunMenu.MenuStep | cloudcafe-client/src/run_menu.rs:89-154 | keeps `MenuInv`; Windows+O opens an empty search on entry 0 and does nothing else; a closed menu ignores keys; a launch closes the menu and launches an entry that matches the edited text; otherwise the menu stays open with the edited text |
| RunMenu.OpenStep | cloudcafe-client/src/run_menu.rs:100-154 | the same for an open menu: keeps `MenuInv`, and either launches a matching entry and closes, or keeps the edited text |
| RunMenu.EditStep | cloudcafe-client/src/run_menu.rs:100-127 | the edited text, the entries it filters to, and a selection within them that is dropped only when there was none or the edit left no entries |
| RunMenu.NavigateStep | cloudcafe-client/src/run_menu.rs:128-153 | launches exactly when Enter is down with a selection, that filtered entry, closing the menu; otherwise the input stays and the selection stays present and in range |
| RunMenu.EnterWithoutSelection | cloudcafe-client/src/run_menu.rs:128-135 | Enter without a selection launches nothing and the menu only takes the edit |
| RunMenu.RunMenu.constructor | cloudcafe-client/src/run_menu.rs:39-67 | the entries are a permutation of the collected listing (none if it cannot be read), sorted by name; the menu starts closed |
| RunMenu.RunMenu.Draw | cloudcafe-client/src/run_menu.rs:89-154 | the new menu state and launched entry are exactly `MenuStep` of the key states before the frame; keys are only read; the invariant is kept; on a closed menu only Windows and O are read |
| RunMenu.RunMenu.DrawOpen | cloudcafe-client/src/run_menu.rs:100-154 | on an open menu, exactly `OpenStep` of the key states before |
| RunMenu.RunMenu.Edit | cloudcafe-client/src/run_menu.rs:100-127 | exactly `EditStep` of the key states before; keys other than Backspace and the letters are untouched |
| RunMenu.RunMenu.Reselect | cloudcafe-client/src/run_menu.rs:117-127 | after an input change the selection is clamped, else untouched |
| RunMenu.RunMenu.Navigate | cloudcafe-client/src/run_menu.rs:128-153 | exactly `NavigateStep` of the key states before; Enter and the two arrows are marked read and no other key changes |
| RunMenu.RunMenu.MoveUp | cloudcafe-client/src/run_menu.rs:136-144 | a just-pressed ArrowUp applies `SelectUp`; the arrow is marked read |
| RunMenu.RunMenu.MoveDown | cloudcafe-client/src/run_menu.rs:145-153 | a just-pressed ArrowDown applies `SelectDown`; the arrow is marked read |
| RunMenu.EditsSame | cloudcafe-client/src/run_menu.rs:100-110 | the edit depends only on Backspace and the letters being just pressed |
| RunMenu.OpenStepSame | cloudcafe-client/src/run_menu.rs:100-154 | an open menu's step depends only on which keys besides Windows were just pressed and on Enter being down |
| RunMenu.NavigateSame | cloudcafe-client/src/run_menu.rs:128-153 | navigation depends only on Enter being down and the arrows being just pressed |
| RunMenu.TypedSame | cloudcafe-client/src/run_menu.rs:105-109 | the typed letters depend only on which letters were just pressed |
| RunMenu.ReadOpenChord | cloudcafe-client/src/run_menu.rs:89-97 | true exactly when Windows and O are both down; when false, Enter is untouched and only Windows' change flag may be cleared; no key but Windows and O changes |
| RunMenu.ReadPress | cloudcafe-client/src/run_menu.rs:101 | true exactly when the key was just pressed; the key is marked read |
| RunMenu.ReadEdits | cloudcafe-client/src/run_menu.rs:100-110 | the edited text and whether it changed, from the key states before; other keys are untouched |
| RunMenu.ReadLetters | cloudcafe-client/src/run_menu.rs:105-110 | the letters of the just-pressed alphabet keys in order; non-letter keys are untouched |
| RunMenu.ReadKeys | cloudcafe-client/src/run_menu.rs:105-110 | over any distinct letter keys, the typed letters in order; keys not scanned are untouched |
| WindowManagement.RectPosition | cloudcafe-client/src/window_management_2.rs:191-203 | no position exactly when the left edge is at most −10 or the top is negative; otherwise the top, and the left edge clamped to 0 when negative |
| WindowManagement.RectPositionNear | cloudcafe-client/src/window_management_2.rs:196-198 | a reported position is less than 10 pixels right of the real left edge and on the real top |
| WindowManagement.PlacedPosition | cloudcafe-client/src/window_management_2.rs:191-212 | a window moved to an unsigned corner reports that corner |
| WindowManagement.WindowsWindow.Size | cloudcafe-client/src/window_management_2.rs:170-181 | no size exactly when the rectangle has a negative width or height; otherwise its width and height |
| WindowManagement.WindowsWindow.Position | cloudcafe-client/src/window_management_2.rs:191-203 | none exactly when left ≤ −10 or top < 0; otherwise x is left, raised to 0 when it is between −10 and 0, and y is top |
| WindowManagement.WindowsWindow.SetSize | cloudcafe-client/src/window_management_2.rs:182-190 | fails, moving nothing, exactly without a position; otherwise the size changes and the position stays |
| WindowManagement.WindowsWindow.SetPosition | cloudcafe-client/src/window_management_2.rs:204-212 | fails, moving nothing, exactly without a size; otherwise the position changes and the size stays |
| WindowManagement.KeepValid | cloudcafe-client/src/window_management_2.rs:70-72 | exactly the valid windows remain, unchanged |
| WindowManagement.Inside | cloudcafe-client/src/window_management_2.rs:34-37 | outside exactly when the mouse is left of, above, right of or below the window's internal rectangle, edges counting as inside |
| WindowManagement.KeepCapture | cloudcafe-client/src/window_management_2.rs:31-43 | as written: the capture is kept exactly when the mouse is inside the closed rectangle |
| WindowManagement.DanglingCapture | cloudcafe-client/src/window_management_2.rs:31-72 | as written, an invalid captured window with the mouse inside stays captured and is removed |
| WindowManagement.DanglingCaptureExample | cloudcafe-client/src/window_management_2.rs:31-72 | a concrete frame where that happens |
| WindowManagement.KeepCaptureFixed | cloudcafe-client/src/window_management_2.rs:31-43 | corrected: kept exactly when the window is valid and the mouse inside, so a kept capture names a kept window |
| WindowManagement.KeepCaptureFixedAgrees | cloudcafe-client/src/window_management_2.rs:31-43 | for a valid window the corrected and written hand-offs agree |
| WindowManagement.FixedKeepsCaptureTracked | cloudcafe-client/src/window_management_2.rs:31-72 | with the corrected hand-off a frame keeps the captured id naming a managed window |
| WindowManagement.WindowManager.constructor | cloudcafe-client/src/window_management_2.rs:15-21 | the manager exposes the given windows, capture and mouse positions |
| WindowManagement.WindowManager.Draw | cloudcafe-client/src/window_management_2.rs:23-76 | panics exactly when the captured id names no window; a capture is kept or released by the corrected hand-off, the virtual mouse moving on release; without one, some valid window mapping the virtual mouse is captured, given the mapped internal mouse and focused, else the mouse is drawn; the invalid windows are removed; a tracked capture stays tracked |
| WindowManagement.WindowManager.InvalidIds | cloudcafe-client/src/window_management_2.rs:24-30 | exactly the ids of the invalid windows |
| WindowManagement.WindowManager.Search | cloudcafe-client/src/window_management_2.rs:45-57 | some window not listed invalid that maps the virtual mouse, or none exactly when there is no such window |
| WindowManagement.WindowManager.RemoveAll | cloudcafe-client/src/window_management_2.rs:70-72 | exactly the listed ids leave the map; the rest and the capture are untouched |

## Left out

- Rendering, GPU capture internals and the StereoKit scene: meshes, textures, poses, text and the UI window (run_menu.rs:69-88), the draw of the capture model (virtual_window.rs:64-67), each managed window's `draw` (window_management_2.rs:73-75) and the virtual mouse's `draw`. `FrameOutcome.Drawn(true)` says the mouse would be drawn.
- Threads and locks: the hook thread and the poll thread are one call per iteration; the `Arc<Mutex<…>>` sharing and the 5 ms sleep are not modelled.
- File system and process spawning in the run menu: the start-menu directory listing is a parameter, and the program that would be run is returned instead of spawned.
- `IWindow::aspect_ratio` (internal_window.rs:55-58): an `f32` division; `SetAspectRatio` takes the ratio as a fraction instead.
- InternalWindow.IWindow.SetAspectRatio: the `f32` ratio is an exact fraction `num / den`, and the `f32` division and truncating cast are exact floor division, so rounding of large values is not modelled. A monitor smaller than twice the padding (a `u32` underflow in the source) is excluded by its precondition. The ratio is required to be positive: the source also accepts a zero, negative, infinite or NaN `f32` (an infinite or NaN ratio is what `aspect_ratio` gives for a zero-height window) and still resizes to whatever the casts produce; nothing in the source calls it with such a ratio.
- Strings.Lower: only ASCII letters are lower-cased; Rust's `to_lowercase` maps every Unicode upper-case letter and can change the length (for example 'İ' becomes two characters), which this model does not capture.
- WindowsBindings.RectSize: right − left and bottom − top are unbounded integers; the `i32` subtraction that overflows for extreme rectangles is not modelled. The same holds for `IWindow.Size` and `WindowsWindow.Size`.
- InternalMouse.IMouse.Tick: the delta is an unbounded difference; the `i32` subtraction that overflows when the cursor jumps across more than `i32::MAX` is not modelled.
- WindowManagement.WindowsWindow.SetPosition: the `as i32` cast of a position above `i32::MAX` is not modelled.
- WindowsBindings.Os.MoveWindow: a call on a live window always leaves exactly the requested rectangle; Windows may clamp a window's size to its minimum or maximum, which is not modelled, so `IWindow.SetSize` and the moves built on it assume the size sticks.
- WindowsBindings.Os.SetCursorPos: the cursor always lands exactly on (x, y); Windows clips it to the screen or a clip rectangle, which is not modelled, so `IMouse.Tick` with the cursor locked assumes the lock point is reachable.
- RunMenu.SortByName: `sort_by_key` is stable, but the contract does not state the relative order of entries whose lower-cased names are equal; file names in one Windows directory differ even ignoring case, so such ties need non-ASCII case folding to arise.
- InternalWindow.IWindow.SetSize: sizes are unbounded naturals; the `as i32` casts of sizes above `i32::MAX` are not modelled. The same holds for `SetPos`, `MoveToActive`, `MoveToInactive`, and for `WindowsWindow.SetSize` and `SetPosition`.
- WindowManagement.Inside: `pos + size` is an unbounded sum; a `u32` overflow of that sum is not modelled.
- VirtualManager.VDesktop.Draw: each tracked `VWindow` is kept as the state its `draw` changes (its capture and its proxy's recorded size) and is drawn by `DrawWindow`, the function `VWindow.Draw` is proved against; the `VWindow` objects themselves, and their aliasing, are not kept in the map.
- VirtualManager.VDesktop.Park: the tracked window's proxy is rebuilt for the call from its handle and recorded size, rather than being the stored object.
- HashMap order: the draw loops over the desktop's windows and the manager's search take some window rather than the first in an unspecified order; `VDesktop.Draw` stops at the first panic, which then is the panic of some window.
- WindowManagement.WindowManager.Draw: the `Window` and `Mouse` traits are abstract. Their mappings `map_virtual_to_internal_pos` and `map_relative_to_virtual_pos` are function parameters, the scene position type is a type parameter, and `focus` is a flag on the window.
- WindowManagement.WindowManager.Draw uses the corrected capture hand-off (see Findings); the hand-off as written is `KeepCapture`.
- `WindowsWindow::new`, `bring_to_top`, `title` and its `draw`: capture creation, window-style calls and rendering.
- Input: the hook's letter keys are identified by their upper-case virtual-key character (`Character('A')` for `KeyboardKey::A`); the event fields the dispatch ignores (`is_injected`, key payloads, other mouse events) are dropped.
- Input.AsStr: the `panic!` for Enter, ArrowUp and ArrowDown is the result `None`.
- Coordinate conversions, the virtual mouse, simple_wm.rs, window_management.rs, the service and the remaining files are not part of this model.

## Findings

| source | as written | input that shows it | evidently intended | confidence | as-written member | corrected member |
|---|---|---|---|---|---|---|
| cloudcafe-client/src/window_management_2.rs:31-43 | a captured window keeps the capture while the internal mouse is inside it, even when it is invalid this frame; lines 70-72 then remove it, leaving the captured id naming no window, so the `unwrap` on line 32 panics on the next frame | window 1 captured, invalid, at (0, 0) with size (100, 100), internal mouse at (0, 0) | an invalid captured window releases the capture, as one outside the mouse does | not executed; high | WindowManagement.DanglingCaptureExample | WindowManagement.KeepCaptureFixed |
