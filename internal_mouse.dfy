/** The OS-mouse proxy of `internal_os/internal_mouse.rs`: each tick measures
    how far the OS cursor moved since the last recorded position and, when the
    cursor is locked, pins both the recorded position and the OS cursor back to
    a fixed point. */
module InternalMouse {
  import opened WindowsBindings

  class IMouse {
    var lockCursor: bool
    var pos: IVec2
    var deltaPos: IVec2
    const cursorLockPosition: IVec2
    /** The OS whose cursor this proxy reads and writes. */
    const os: Os

    /** `IMouse::new`: unlocked, no movement yet, and the recorded position
        is the OS cursor. */
    constructor (cursorLockPosition: IVec2, os: Os)
      ensures !lockCursor && deltaPos == IVec2(0, 0)
      ensures pos == os.cursor
      ensures this.cursorLockPosition == cursorLockPosition && this.os == os
    {
      this.os := os;
      this.cursorLockPosition := cursorLockPosition;
      lockCursor := false;
      pos := IVec2(os.cursor.x, os.cursor.y);
      deltaPos := IVec2(0, 0);
    }

    /** `pos`: reads the OS cursor. */
    function Pos(): (r: IVec2)
      reads this, os
      ensures r == os.cursor
    {
      IVec2(os.cursor.x, os.cursor.y)
    }

    /** `set_pos`: moves the OS cursor only; the recorded position stays. */
    method SetPos(p: IVec2)
      modifies os
      ensures os.cursor == p
      ensures os.rects == old(os.rects) && os.alive == old(os.alive) && os.visible == old(os.visible)
      ensures os.enabled == old(os.enabled) && os.windowList == old(os.windowList)
      ensures os.displays == old(os.displays)
    {
      os.SetCursorPos(p.x, p.y);
    }

    /** `tick`: the delta is the OS cursor less the previously recorded
        position; unlocked, the OS cursor becomes the recorded position;
        locked, both the recorded position and the OS cursor go to the lock
        point. Either way the recorded position ends equal to the OS cursor,
        so a tick with no movement in between measures a zero delta. */
    method Tick()
      modifies this, os
      ensures deltaPos == IVec2(old(os.cursor.x) - old(pos.x), old(os.cursor.y) - old(pos.y))
      ensures !lockCursor ==> pos == old(os.cursor) && os.cursor == old(os.cursor)
      ensures lockCursor ==> pos == cursorLockPosition && os.cursor == cursorLockPosition
      ensures pos == os.cursor
      ensures lockCursor == old(lockCursor)
      ensures os.rects == old(os.rects) && os.alive == old(os.alive) && os.visible == old(os.visible)
      ensures os.enabled == old(os.enabled) && os.windowList == old(os.windowList)
      ensures os.displays == old(os.displays)
    {
      var newPos := Pos();
      deltaPos := IVec2(newPos.x - pos.x, deltaPos.y);
      deltaPos := IVec2(deltaPos.x, newPos.y - pos.y);
      pos := newPos;
      if lockCursor {
        pos := cursorLockPosition;
        SetPos(cursorLockPosition);
      }
    }
  }
}
