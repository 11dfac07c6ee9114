/** The fake monitor of `internal_os/mod.rs`: the rectangle of the display the
    windows are parked on, with its top-left corner and size precomputed. */
module InternalOs {
  import opened Wrappers
  import opened WindowsBindings

  /** `FakeMonitor`. */
  datatype FakeMonitor = FakeMonitor(handle: int, rect: Rect, pos: IVec2, size: UVec2)

  /** `FakeMonitor::new`: refuses a rectangle with a negative width or height
      (a zero size is accepted); otherwise copies the handle and the rectangle
      and records its top-left corner and size. */
  function NewFakeMonitor(handle: int, rect: Rect): (r: Result<FakeMonitor>)
    ensures r.Err? <==> rect.right - rect.left < 0 || rect.bottom - rect.top < 0
    ensures r.Ok? ==> r.value.handle == handle && r.value.rect == rect
    ensures r.Ok? ==> r.value.pos == IVec2(rect.left, rect.top)
    ensures r.Ok? ==> r.value.size == UVec2(rect.right - rect.left, rect.bottom - rect.top)
    ensures r.Ok? ==> Placed(r.value.pos, r.value.size) == rect
  {
    match RectSize(rect)
    case None => Err("invalid monitor size, width or height is less then 0")
    case Some(size) => Ok(FakeMonitor(handle, rect, IVec2(rect.left, rect.top), size))
  }

  /** Every fake monitor built from a rectangle describes that rectangle:
      its corner and size give the rectangle back. */
  predicate MonitorConsistent(m: FakeMonitor)
  {
    Placed(m.pos, m.size) == m.rect
  }

  /** A monitor built by `NewFakeMonitor` is consistent, and any rectangle
      rebuilt from a consistent monitor yields that monitor again. */
  lemma NewFakeMonitorRoundTrip(m: FakeMonitor)
    requires MonitorConsistent(m)
    ensures NewFakeMonitor(m.handle, m.rect) == Ok(m)
  {
  }
}
