/**
 * The bookkeeping of the EGL preview window (preview/egl_preview.cpp,
 * class EglPreview) with every X11, EGL, GL and FreeType call replaced by
 * an abstract event in an ordered trace.
 *
 * - `buffers` maps a frame buffer's fd to the record kept for it; a record
 *   whose own `fd` is -1 has not been imported yet (it is what
 *   `std::map::operator[]` inserts for an unseen key).
 * - `lastFd` is the fd shown by the previous frame, -1 when there is none.
 * - `firstTime` holds until the one-time GL setup has run in this cycle.
 * - `glyphs` is the key set of the glyph table.
 * - `countdown` is the fading digit overlay.
 *
 * The answers of the graphics driver that decide whether an operation
 * throws are the `Driver` parameter of `Show`.
 */
module EglPreview {

  import opened Wrappers
  import opened DmaBuf
  import opened Glyphs

  /** The per-fd record: fd, byte size and description of the imported frame. */
  datatype Buffer = Buffer(fd: int, size: nat, info: StreamInfo)

  /** The record inserted for an fd that has not been imported. */
  const Unimported: Buffer := Buffer(-1, 0, StreamInfo(0, 0, 0, None))

  datatype Countdown = Countdown(visible: bool, val: int, alpha: real)

  datatype State = State(buffers: map<int, Buffer>, lastFd: int, firstTime: bool, glyphs: set<int>, countdown: Countdown)

  /** Fade factor below or at which the overlay is hidden instead of drawn. */
  const FadeCutoff: real := 0.01
  /** Decrease of the fade factor per displayed frame. */
  const FadeStep: real := 0.10

  datatype Event =
    | Setup                                        // gl_setup: shaders and glyph table built
    | Import(fd: int, attrs: ImportAttributes)    // eglCreateImageKHR on the frame buffer
    | DrawImage(fd: int)                           // the frame's texture drawn
    | DrawGlyph(val: int, alpha: real)            // the countdown glyph drawn with this fade
    | Swap                                         // eglSwapBuffers
    | Release(fd: int)                             // the buffer-done callback

  datatype Failure = ContextFailed | ShaderFailed | ImportFailed(fd: int)

  datatype Outcome = Ok | Failed(failure: Failure)

  /** Whether eglMakeCurrent, shader compilation and linking, and the image import succeed. */
  datatype Driver = Driver(contextCurrent: bool, shadersBuilt: bool, imageImported: bool)

  const Healthy: Driver := Driver(true, true, true)

  datatype Step = Step(state: State, trace: seq<Event>, outcome: Outcome)

  /** True when `fd` has been imported (or its import attempted) in this cycle. */
  predicate Imported(s: State, fd: int)
  {
    fd in s.buffers && s.buffers[fd].fd != -1
  }

  /**
   * What every reachable state satisfies: a record carries its own key or
   * -1; before the setup of a cycle nothing is imported, no glyph exists
   * and no frame awaits release; after it the setup's glyphs exist.
   */
  predicate Inv(s: State)
  {
    && (forall k :: k in s.buffers ==> s.buffers[k].fd == -1 || s.buffers[k].fd == k)
    && (s.firstTime ==> (forall k :: k in s.buffers ==> s.buffers[k].fd == -1) && s.glyphs == {} && s.lastFd == -1)
    && (!s.firstTime ==> GlyphIds() <= s.glyphs)
  }

  /** The state right after construction (the countdown's value and fade start unset in the source). */
  function Initial(): (s: State)
    ensures Inv(s) && s.firstTime && !s.countdown.visible
    ensures forall fd :: !Imported(s, fd)
  {
    State(map[], -1, true, {}, Countdown(false, 0, 0.0))
  }

  /** Forget every import, the glyph table and the pending release, and re-arm the setup. */
  function Reset(s: State): (r: State)
    ensures Inv(r)
    ensures forall fd :: !Imported(r, fd)
    ensures r.firstTime && r.lastFd == -1 && r.glyphs == {}
    ensures r.countdown == s.countdown
  {
    State(map[], -1, true, {}, s.countdown)
  }

  function ShowCountdown(s: State, val: int, alpha: real): (r: State)
    ensures r.countdown == Countdown(true, val, alpha)
    ensures r.buffers == s.buffers && r.lastFd == s.lastFd && r.firstTime == s.firstTime && r.glyphs == s.glyphs
    ensures Inv(s) ==> Inv(r)
  {
    s.(countdown := Countdown(true, val, alpha))
  }

  function HideCountdown(s: State): (r: State)
    ensures !r.countdown.visible
    ensures r.countdown.val == s.countdown.val && r.countdown.alpha == s.countdown.alpha
    ensures r.buffers == s.buffers && r.lastFd == s.lastFd && r.firstTime == s.firstTime && r.glyphs == s.glyphs
    ensures Inv(s) ==> Inv(r)
  {
    s.(countdown := s.countdown.(visible := false))
  }

  /** Whether a frame shown with this overlay state draws the glyph. */
  predicate Draws(c: Countdown)
  {
    c.visible && c.alpha > FadeCutoff
  }

  /** The overlay state after one displayed frame. */
  function Fade(c: Countdown): (r: Countdown)
    ensures r.val == c.val
    ensures Draws(c) ==> r.visible && r.alpha == c.alpha - FadeStep
    ensures !Draws(c) ==> !r.visible && r.alpha == c.alpha
  {
    if !c.visible then c
    else if c.alpha > FadeCutoff then c.(alpha := c.alpha - FadeStep)
    else c.(visible := false)
  }

  /**
   * The events of a frame once its buffer is available: the frame drawn,
   * the overlay drawn if it is still fading, the swap, and then the release
   * of the previous frame's fd.
   */
  function FrameEvents(c: Countdown, lastFd: int, fd: int): (tr: seq<Event>)
    ensures |tr| == 2 + (if Draws(c) then 1 else 0) + (if lastFd >= 0 then 1 else 0)
    ensures tr[0] == DrawImage(fd)
    ensures Draws(c) ==> tr[1] == DrawGlyph(c.val, c.alpha)
    ensures tr[if Draws(c) then 2 else 1] == Swap
    ensures lastFd >= 0 ==> tr[|tr| - 1] == Release(lastFd)
  {
    [DrawImage(fd)]
    + (if Draws(c) then [DrawGlyph(c.val, c.alpha)] else [])
    + [Swap]
    + (if lastFd >= 0 then [Release(lastFd)] else [])
  }

  /**
   * The buffer lookup at the start of `Show` together with makeBuffer: an
   * fd without a recorded import is imported, and the first import of a
   * cycle makes the context current and runs the setup first. The record
   * takes the fd before the import is attempted. `Ok` means the frame is
   * ready to draw.
   */
  function Acquire(s: State, fd: int, size: nat, info: StreamInfo, drv: Driver): (st: Step)
    ensures st.state.lastFd == s.lastFd && st.state.countdown == s.countdown
    ensures st.state.buffers.Keys == s.buffers.Keys + {fd}
    ensures forall k :: k in s.buffers && k != fd ==> st.state.buffers[k] == s.buffers[k]
    ensures Imported(s, fd) ==> st == Step(s, [], Ok)
    ensures !Imported(s, fd) && st.outcome != Failed(ContextFailed) && st.outcome != Failed(ShaderFailed) ==>
              st.state.buffers[fd] == Buffer(fd, size, info) && !st.state.firstTime
  {
    var slot := if fd in s.buffers then s.buffers[fd] else Unimported;
    var s0 := s.(buffers := s.buffers[fd := slot]);
    if slot.fd != -1 then
      Step(s0, [], Ok)
    else if s.firstTime && !drv.contextCurrent then
      Step(s0, [], Failed(ContextFailed))
    else if s.firstTime && !drv.shadersBuilt then
      Step(s0, [Setup], Failed(ShaderFailed))
    else
      var setup := if s.firstTime then [Setup] else [];
      var s1 := s0.(buffers := s0.buffers[fd := Buffer(fd, size, info)],
                    firstTime := false,
                    glyphs := if s.firstTime then s.glyphs + GlyphIds() else s.glyphs);
      Step(s1, setup + [Import(fd, ImportAttributesFor(fd, info))],
           if drv.imageImported then Ok else Failed(ImportFailed(fd)))
  }

  /**
   * Display the frame in buffer `fd`: acquire it, draw it and the overlay,
   * present, and only then hand the previous frame's fd back.
   */
  function Show(s: State, fd: int, size: nat, info: StreamInfo, drv: Driver): (st: Step)
    ensures Imported(s, fd) ==> st.outcome == Ok
    ensures st.outcome == Ok ==> st.state.lastFd == fd && |st.trace| > 0 && st.trace[|st.trace| - 1] in {Swap, Release(s.lastFd)}
    ensures st.outcome.Failed? ==> st.state.lastFd == s.lastFd && Swap !in st.trace && st.state.countdown == s.countdown
    ensures Setup in st.trace <==> s.firstTime && !Imported(s, fd) && drv.contextCurrent
    ensures drv == Healthy ==> st.outcome == Ok
  {
    var acq := Acquire(s, fd, size, info, drv);
    if acq.outcome.Failed? then acq
    else
      var r := acq.state;
      var c := r.countdown;
      // looking the glyph up inserts its key when setup never built it
      var glyphs := if Draws(c) then r.glyphs + {c.val} else r.glyphs;
      Step(r.(countdown := Fade(c), glyphs := glyphs, lastFd := fd),
           acq.trace + FrameEvents(c, r.lastFd, fd), Ok)
  }
}
