/**
 * Properties of the preview over one frame and over a run of frames
 * displayed with a driver that never fails.
 */
module PreviewRuns {

  import opened DmaBuf
  import opened Glyphs
  import opened EglPreview
  import opened Traces

  datatype Frame = Frame(fd: int, size: nat, info: StreamInfo)

  /** The fds of a run of frames, in display order. */
  function Fds(frames: seq<Frame>): (fds: seq<int>)
    ensures |fds| == |frames|
    ensures forall i :: 0 <= i < |frames| ==> fds[i] == frames[i].fd
  {
    if frames == [] then [] else [frames[0].fd] + Fds(frames[1..])
  }

  /** Display the frames one after the other, concatenating the traces. */
  function Run(s: State, frames: seq<Frame>): (r: Step)
    decreases |frames|
  {
    if frames == [] then Step(s, [], Ok)
    else
      var st := Show(s, frames[0].fd, frames[0].size, frames[0].info, Healthy);
      var rest := Run(st.state, frames[1..]);
      Step(rest.state, st.trace + rest.trace, Ok)
  }

  /** Whether `Show` gets as far as attempting the import of `fd`. */
  predicate ImportAttempted(s: State, fd: int, drv: Driver)
  {
    !Imported(s, fd) && (!s.firstTime || (drv.contextCurrent && drv.shadersBuilt))
  }

  // ----- one frame -----

  lemma CountSingle(e: Event, p: Event -> bool)
    ensures Count([e], p) == if p(e) then 1 else 0
  {
    assert [e][1..] == [];
  }

  lemma ReleasesSingle(e: Event)
    ensures Releases([e]) == if e.Release? then [e.fd] else []
  {
    assert [e][1..] == [];
  }

  lemma Count4(a: seq<Event>, b: seq<Event>, c: seq<Event>, d: seq<Event>, p: Event -> bool)
    ensures Count(a + b + c + d, p) == Count(a, p) + Count(b, p) + Count(c, p) + Count(d, p)
  {
    CountAppend(a + b + c, d, p);
    CountAppend(a + b, c, p);
    CountAppend(a, b, p);
  }

  lemma Releases4(a: seq<Event>, b: seq<Event>, c: seq<Event>, d: seq<Event>)
    ensures Releases(a + b + c + d) == Releases(a) + Releases(b) + Releases(c) + Releases(d)
  {
    ReleasesAppend(a + b + c, d);
    ReleasesAppend(a + b, c);
    ReleasesAppend(a, b);
  }

  /** How often a predicate holds on the events of the drawing part of a frame. */
  lemma FrameEventsCount(c: Countdown, lastFd: int, fd: int, p: Event -> bool)
    ensures Count(FrameEvents(c, lastFd, fd), p)
            == (if p(DrawImage(fd)) then 1 else 0)
             + (if Draws(c) && p(DrawGlyph(c.val, c.alpha)) then 1 else 0)
             + (if p(Swap) then 1 else 0)
             + (if lastFd >= 0 && p(Release(lastFd)) then 1 else 0)
  {
    var g: seq<Event> := if Draws(c) then [DrawGlyph(c.val, c.alpha)] else [];
    var r: seq<Event> := if lastFd >= 0 then [Release(lastFd)] else [];
    assert FrameEvents(c, lastFd, fd) == [DrawImage(fd)] + g + [Swap] + r;
    Count4([DrawImage(fd)], g, [Swap], r, p);
    CountSingle(DrawImage(fd), p);
    CountSingle(Swap, p);
    if Draws(c) { CountSingle(DrawGlyph(c.val, c.alpha), p); }
    if lastFd >= 0 { CountSingle(Release(lastFd), p); }
  }

  /** The drawing part of a frame releases the previous frame's fd, if it is non-negative, and nothing else. */
  lemma FrameEventsReleases(c: Countdown, lastFd: int, fd: int)
    ensures Releases(FrameEvents(c, lastFd, fd)) == NonNeg([lastFd])
  {
    var g: seq<Event> := if Draws(c) then [DrawGlyph(c.val, c.alpha)] else [];
    var r: seq<Event> := if lastFd >= 0 then [Release(lastFd)] else [];
    assert FrameEvents(c, lastFd, fd) == [DrawImage(fd)] + g + [Swap] + r;
    Releases4([DrawImage(fd)], g, [Swap], r);
    ReleasesSingle(DrawImage(fd));
    ReleasesSingle(Swap);
    if Draws(c) { ReleasesSingle(DrawGlyph(c.val, c.alpha)); }
    if lastFd >= 0 { ReleasesSingle(Release(lastFd)); }
    assert [lastFd][1..] == [];
  }

  /** What the drawing part of a frame contributes to each observer. */
  lemma FrameEventsObserved(c: Countdown, lastFd: int, fd: int, h: int)
    ensures Count(FrameEvents(c, lastFd, fd), ImportOf(h)) == 0
    ensures Count(FrameEvents(c, lastFd, fd), IsSetup) == 0
    ensures Count(FrameEvents(c, lastFd, fd), IsGlyphDraw) == if Draws(c) then 1 else 0
    ensures Releases(FrameEvents(c, lastFd, fd)) == NonNeg([lastFd])
  {
    FrameEventsCount(c, lastFd, fd, ImportOf(h));
    FrameEventsCount(c, lastFd, fd, IsSetup);
    FrameEventsCount(c, lastFd, fd, IsGlyphDraw);
    FrameEventsReleases(c, lastFd, fd);
  }

  /** What acquiring the buffer contributes to each observer. */
  lemma AcquireObserved(s: State, fd: int, size: nat, info: StreamInfo, drv: Driver, h: int)
    ensures var acq := Acquire(s, fd, size, info, drv);
            && Count(acq.trace, ImportOf(h)) == (if h == fd && ImportAttempted(s, fd, drv) then 1 else 0)
            && Count(acq.trace, IsSetup) == (if s.firstTime && !Imported(s, fd) && drv.contextCurrent then 1 else 0)
            && Count(acq.trace, IsGlyphDraw) == 0
            && Releases(acq.trace) == []
  {
    var acq := Acquire(s, fd, size, info, drv);
    if acq.trace == [Setup] {
      CountSingle(Setup, ImportOf(h));
      CountSingle(Setup, IsSetup);
      CountSingle(Setup, IsGlyphDraw);
      ReleasesSingle(Setup);
    } else if acq.trace != [] {
      var imp := Import(fd, ImportAttributesFor(fd, info));
      var setup: seq<Event> := if s.firstTime then [Setup] else [];
      assert acq.trace == setup + [imp];
      CountAppend(setup, [imp], ImportOf(h));
      CountAppend(setup, [imp], IsSetup);
      CountAppend(setup, [imp], IsGlyphDraw);
      ReleasesAppend(setup, [imp]);
      CountSingle(imp, ImportOf(h));
      CountSingle(imp, IsSetup);
      CountSingle(imp, IsGlyphDraw);
      ReleasesSingle(imp);
      if s.firstTime {
        CountSingle(Setup, ImportOf(h));
        CountSingle(Setup, IsSetup);
        CountSingle(Setup, IsGlyphDraw);
        ReleasesSingle(Setup);
      }
    }
  }

  /** A frame's trace is the acquisition's events followed, when it succeeded, by the drawing events. */
  lemma ShowTrace(s: State, fd: int, size: nat, info: StreamInfo, drv: Driver)
    ensures var acq := Acquire(s, fd, size, info, drv);
            var st := Show(s, fd, size, info, drv);
            && st.outcome == acq.outcome
            && st.state.buffers == acq.state.buffers
            && st.trace == acq.trace + (if acq.outcome == Ok then FrameEvents(s.countdown, s.lastFd, fd) else [])
            && (acq.outcome == Ok ==> st.state.countdown == Fade(s.countdown) && st.state.lastFd == fd)
  {
    var acq := Acquire(s, fd, size, info, drv);
    assert acq.trace + [] == acq.trace;
  }

  /** Every shown frame's observers add up the acquisition and the drawing. */
  lemma ShowObserved(s: State, fd: int, size: nat, info: StreamInfo, drv: Driver, p: Event -> bool)
    ensures var acq := Acquire(s, fd, size, info, drv);
            && Count(Show(s, fd, size, info, drv).trace, p)
                 == Count(acq.trace, p) + (if acq.outcome == Ok then Count(FrameEvents(s.countdown, s.lastFd, fd), p) else 0)
            && Releases(Show(s, fd, size, info, drv).trace)
                 == Releases(acq.trace) + (if acq.outcome == Ok then Releases(FrameEvents(s.countdown, s.lastFd, fd)) else [])
  {
    var acq := Acquire(s, fd, size, info, drv);
    var frame := if acq.outcome == Ok then FrameEvents(s.countdown, s.lastFd, fd) else [];
    ShowTrace(s, fd, size, info, drv);
    CountAppend(acq.trace, frame, p);
    ReleasesAppend(acq.trace, frame);
    if acq.outcome != Ok {
      assert Count(frame, p) == 0 && Releases(frame) == [];
    }
  }

  /**
   * A frame touches only its own fd's record, adding it if missing, and
   * leaves a cached record as it was: the size and description of a later
   * frame in the same buffer are not recorded.
   */
  lemma ShowKeepsOtherRecords(s: State, fd: int, size: nat, info: StreamInfo, drv: Driver)
    ensures var st := Show(s, fd, size, info, drv);
            && st.state.buffers.Keys == s.buffers.Keys + {fd}
            && (forall k :: k in s.buffers && k != fd ==> st.state.buffers[k] == s.buffers[k])
            && (Imported(s, fd) ==> st.state.buffers[fd] == s.buffers[fd])
  {
    ShowTrace(s, fd, size, info, drv);
  }

  /**
   * Every reachable state keeps the invariant: `Show` (whatever the driver
   * answers), `Reset`, and the countdown calls all preserve it.
   */
  lemma ShowPreservesInv(s: State, fd: int, size: nat, info: StreamInfo, drv: Driver)
    requires Inv(s)
    ensures Inv(Show(s, fd, size, info, drv).state)
  {
  }

  /**
   * A frame imports `h` exactly when it shows `h` for the first time in
   * the cycle and gets past the setup; the fd stays recorded as imported
   * from then on, even when the import itself fails.
   */
  lemma ShowImportsOnce(s: State, fd: int, size: nat, info: StreamInfo, drv: Driver, h: int)
    requires h != -1
    ensures var st := Show(s, fd, size, info, drv);
            && ImportCount(st.trace, h) == (if h == fd && ImportAttempted(s, fd, drv) then 1 else 0)
            && (Imported(st.state, h) <==> Imported(s, h) || (h == fd && ImportAttempted(s, fd, drv)))
  {
    ShowTrace(s, fd, size, info, drv);
    ShowObserved(s, fd, size, info, drv, ImportOf(h));
    AcquireObserved(s, fd, size, info, drv, h);
    FrameEventsObserved(s.countdown, s.lastFd, fd, h);
  }

  /**
   * The release of a frame trails the swap: a shown frame hands back the
   * previous frame's fd, if that fd is non-negative, and a frame that fails
   * hands back nothing.
   */
  lemma ShowReleasesPrevious(s: State, fd: int, size: nat, info: StreamInfo, drv: Driver)
    ensures var st := Show(s, fd, size, info, drv);
            Releases(st.trace) == (if st.outcome == Ok && s.lastFd >= 0 then [s.lastFd] else [])
  {
    ShowTrace(s, fd, size, info, drv);
    ShowObserved(s, fd, size, info, drv, IsSetup);
    AcquireObserved(s, fd, size, info, drv, fd);
    FrameEventsObserved(s.countdown, s.lastFd, fd, fd);
    assert [s.lastFd][1..] == [];
  }

  /** The drawing events end with the swap, followed by the release of the previous fd when there is one. */
  lemma FrameEventsEnd(c: Countdown, lastFd: int, fd: int)
    requires lastFd >= 0
    ensures var tr := FrameEvents(c, lastFd, fd);
            |tr| >= 2 && tr[|tr| - 2] == Swap && tr[|tr| - 1] == Release(lastFd)
  {
  }

  /** The release is the last event of a shown frame and comes right after the swap. */
  lemma ShowReleasesAfterSwap(s: State, fd: int, size: nat, info: StreamInfo, drv: Driver)
    ensures var st := Show(s, fd, size, info, drv);
            st.outcome == Ok && s.lastFd >= 0 ==>
              |st.trace| >= 2 && st.trace[|st.trace| - 2] == Swap && st.trace[|st.trace| - 1] == Release(s.lastFd)
  {
    var st := Show(s, fd, size, info, drv);
    var acq := Acquire(s, fd, size, info, drv);
    ShowTrace(s, fd, size, info, drv);
    if st.outcome == Ok && s.lastFd >= 0 {
      var frame := FrameEvents(s.countdown, s.lastFd, fd);
      FrameEventsEnd(s.countdown, s.lastFd, fd);
      assert st.trace == acq.trace + frame;
      assert st.trace[|st.trace| - 1] == frame[|frame| - 1];
      assert st.trace[|st.trace| - 2] == frame[|frame| - 2];
    }
  }

  /**
   * A frame draws the overlay exactly when it is shown while the overlay is
   * visible and its fade factor is above the cutoff, and every shown frame
   * advances the fade by one step.
   */
  lemma ShowFadesCountdown(s: State, fd: int, size: nat, info: StreamInfo, drv: Driver)
    ensures var st := Show(s, fd, size, info, drv);
            && GlyphDraws(st.trace) == (if st.outcome == Ok && Draws(s.countdown) then 1 else 0)
            && (st.outcome == Ok ==> st.state.countdown == Fade(s.countdown))
            && (st.outcome == Ok && Draws(s.countdown) ==> DrawGlyph(s.countdown.val, s.countdown.alpha) in st.trace)
  {
    ShowTrace(s, fd, size, info, drv);
    ShowObserved(s, fd, size, info, drv, IsGlyphDraw);
    AcquireObserved(s, fd, size, info, drv, fd);
    FrameEventsObserved(s.countdown, s.lastFd, fd, fd);
  }

  /** A frame runs the setup exactly when it is the first import of a cycle, and then only once. */
  lemma ShowSetupCount(s: State, fd: int, size: nat, info: StreamInfo, drv: Driver)
    requires Inv(s)
    ensures var st := Show(s, fd, size, info, drv);
            st.outcome == Ok ==>
              && SetupCount(st.trace) == (if s.firstTime then 1 else 0)
              && !st.state.firstTime
  {
    ShowTrace(s, fd, size, info, drv);
    ShowObserved(s, fd, size, info, drv, IsSetup);
    AcquireObserved(s, fd, size, info, drv, fd);
    FrameEventsObserved(s.countdown, s.lastFd, fd, fd);
  }

  /**
   * An fd whose import failed stays recorded: showing it again imports
   * nothing and draws whatever texture the record holds.
   */
  lemma FailedImportIsNotRetried(s: State, fd: int, size: nat, info: StreamInfo, drv: Driver,
                                 size': nat, info': StreamInfo, drv': Driver)
    requires fd != -1
    requires Show(s, fd, size, info, drv).outcome == Failed(ImportFailed(fd))
    ensures var s1 := Show(s, fd, size, info, drv).state;
            var st := Show(s1, fd, size', info', drv');
            Imported(s1, fd) && ImportCount(st.trace, fd) == 0 && st.outcome == Ok
  {
    ShowTrace(s, fd, size, info, drv);
    var s1 := Show(s, fd, size, info, drv).state;
    ShowImportsOnce(s1, fd, size', info', drv', fd);
  }

  /** A frame in fd -1 is never recorded as imported, so it is imported each time it is shown. */
  lemma ShowUnimportedFd(s: State, size: nat, info: StreamInfo, drv: Driver)
    requires !Imported(s, -1)
    ensures var st := Show(s, -1, size, info, drv);
            ImportCount(st.trace, -1) == (if ImportAttempted(s, -1, drv) then 1 else 0) && !Imported(st.state, -1)
  {
    ShowTrace(s, -1, size, info, drv);
    ShowObserved(s, -1, size, info, drv, ImportOf(-1));
    AcquireObserved(s, -1, size, info, drv, -1);
    FrameEventsObserved(s.countdown, s.lastFd, -1, -1);
  }

  /**
   * Only the fd -1 in a record marks it as not imported, so showing fd -1
   * twice in a row imports it on both frames.
   */
  lemma MinusOneIsImportedEveryTime(s: State, size: nat, info: StreamInfo)
    requires Inv(s)
    ensures var st1 := Show(s, -1, size, info, Healthy);
            var st2 := Show(st1.state, -1, size, info, Healthy);
            ImportCount(st1.trace, -1) == 1 && ImportCount(st2.trace, -1) == 1
  {
    assert !Imported(s, -1);
    ShowUnimportedFd(s, size, info, Healthy);
    ShowUnimportedFd(Show(s, -1, size, info, Healthy).state, size, info, Healthy);
  }

  /** Hiding the countdown suppresses the glyph on the very next frame, whatever fade remains. */
  lemma HiddenCountdownDrawsNothing(s: State, fd: int, size: nat, info: StreamInfo, drv: Driver)
    ensures var st := Show(HideCountdown(s), fd, size, info, drv);
            GlyphDraws(st.trace) == 0 && st.state.countdown == HideCountdown(s).countdown
  {
    ShowFadesCountdown(HideCountdown(s), fd, size, info, drv);
  }

  /**
   * After `Reset`, showing an fd the previous cycle had imported runs the
   * setup and imports the fd again, before anything is drawn.
   */
  lemma ResetForcesReimport(s: State, fd: int, size: nat, info: StreamInfo)
    ensures var st := Show(Reset(s), fd, size, info, Healthy);
            && |st.trace| >= 2 && st.trace[0] == Setup && st.trace[1] == Import(fd, ImportAttributesFor(fd, info))
            && ImportCount(st.trace, fd) == 1 && SetupCount(st.trace) == 1
            && Releases(st.trace) == []
  {
    var r := Reset(s);
    if fd == -1 {
      ShowUnimportedFd(r, size, info, Healthy);
    } else {
      ShowImportsOnce(r, fd, size, info, Healthy, fd);
    }
    ShowSetupCount(r, fd, size, info, Healthy);
    ShowReleasesPrevious(r, fd, size, info, Healthy);
  }

  /**
   * A frame in a successful `Show` draws its own buffer first, then the
   * overlay when it is still fading, then swaps; the release of the previous
   * fd, if any, closes the trace.
   */
  lemma ShowDrawOrder(s: State, fd: int, size: nat, info: StreamInfo, drv: Driver)
    ensures var n := |Acquire(s, fd, size, info, drv).trace|;
            var st := Show(s, fd, size, info, drv);
            st.outcome == Ok ==>
              && |st.trace| >= n + 2
              && st.trace[n] == DrawImage(fd)
              && (Draws(s.countdown) ==> st.trace[n + 1] == DrawGlyph(s.countdown.val, s.countdown.alpha))
              && st.trace[n + (if Draws(s.countdown) then 2 else 1)] == Swap
              && (s.lastFd >= 0 ==> st.trace[|st.trace| - 1] == Release(s.lastFd))
  {
    var acq := Acquire(s, fd, size, info, drv);
    ShowTrace(s, fd, size, info, drv);
    if acq.outcome == Ok {
      var frame := FrameEvents(s.countdown, s.lastFd, fd);
      var st := Show(s, fd, size, info, drv);
      var n := |acq.trace|;
      assert st.trace == acq.trace + frame;
      assert st.trace[n] == frame[0];
      if Draws(s.countdown) {
        assert st.trace[n + 1] == frame[1];
        assert st.trace[n + 2] == frame[2];
      } else {
        assert st.trace[n + 1] == frame[1];
      }
      assert st.trace[|st.trace| - 1] == frame[|frame| - 1];
    }
  }

  /**
   * A successful frame adds to the glyph table exactly the setup's glyphs on
   * the first import of a cycle and the drawn countdown value, which the
   * lookup inserts whether or not the setup built it.
   */
  lemma ShowGlyphTable(s: State, fd: int, size: nat, info: StreamInfo, drv: Driver)
    requires Inv(s)
    ensures var st := Show(s, fd, size, info, drv);
            st.outcome == Ok ==>
              st.state.glyphs == s.glyphs + (if s.firstTime then GlyphIds() else {})
                                 + (if Draws(s.countdown) then {s.countdown.val} else {})
  {
  }

  /**
   * Showing a countdown value outside 0..8, which the setup never builds,
   * adds that value as a glyph-table key the setup did not create.
   */
  lemma UnbuiltGlyphIsLookedUp(s: State, val: int, alpha: real, fd: int, size: nat, info: StreamInfo)
    requires Inv(s) && val !in GlyphIds() && alpha > FadeCutoff
    ensures var st := Show(ShowCountdown(s, val, alpha), fd, size, info, Healthy);
            st.state.glyphs == s.glyphs + GlyphIds() + {val} && val in st.state.glyphs - GlyphIds()
  {
    var s1 := ShowCountdown(s, val, alpha);
    ShowGlyphTable(s1, fd, size, info, Healthy);
  }

  // ----- runs of frames -----

  lemma {:induction false} RunPreservesInv(s: State, frames: seq<Frame>)
    requires Inv(s)
    ensures Inv(Run(s, frames).state)
    decreases |frames|
  {
    if frames != [] {
      var st := Show(s, frames[0].fd, frames[0].size, frames[0].info, Healthy);
      ShowPreservesInv(s, frames[0].fd, frames[0].size, frames[0].info, Healthy);
      RunPreservesInv(st.state, frames[1..]);
    }
  }

  /**
   * Over a run, each fd other than -1 is imported once if the run shows it
   * and the cycle had not imported it before, and never otherwise.
   */
  lemma {:induction false} RunImportsEachFdOnce(s: State, frames: seq<Frame>, h: int)
    requires h != -1
    ensures ImportCount(Run(s, frames).trace, h) == (if h in Fds(frames) && !Imported(s, h) then 1 else 0)
    ensures Imported(Run(s, frames).state, h) <==> Imported(s, h) || h in Fds(frames)
    decreases |frames|
  {
    if frames != [] {
      var f := frames[0];
      var st := Show(s, f.fd, f.size, f.info, Healthy);
      ShowImportsOnce(s, f.fd, f.size, f.info, Healthy, h);
      RunImportsEachFdOnce(st.state, frames[1..], h);
      CountAppend(st.trace, Run(st.state, frames[1..]).trace, ImportOf(h));
      assert Fds(frames) == [f.fd] + Fds(frames[1..]);
    }
  }

  /** A run leaves its last frame's fd pending release. */
  lemma {:induction false} RunLeavesLastPending(s: State, frames: seq<Frame>)
    requires frames != []
    ensures Run(s, frames).state.lastFd == frames[|frames| - 1].fd
    decreases |frames|
  {
    var st := Show(s, frames[0].fd, frames[0].size, frames[0].info, Healthy);
    if |frames| > 1 {
      RunLeavesLastPending(st.state, frames[1..]);
    }
  }

  /** The fds pending release before each frame of a run: the starting one, then all shown but the last. */
  function Pending(lastFd: int, frames: seq<Frame>): seq<int>
  {
    ([lastFd] + Fds(frames))[..|frames|]
  }

  lemma PendingUnfold(lastFd: int, frames: seq<Frame>)
    requires frames != []
    ensures Pending(lastFd, frames) == [lastFd] + Pending(frames[0].fd, frames[1..])
  {
    assert Fds(frames) == [frames[0].fd] + Fds(frames[1..]);
  }

  /**
   * Release lags display by one frame: a run hands back, in order, the fd
   * that was current when it started followed by every fd it showed except
   * the last, skipping negative ones.
   */
  lemma {:induction false} RunReleasesLagByOne(s: State, frames: seq<Frame>)
    ensures Releases(Run(s, frames).trace) == NonNeg(Pending(s.lastFd, frames))
    decreases |frames|
  {
    if frames == [] {
      assert Pending(s.lastFd, frames) == [];
    } else {
      var f := frames[0];
      var st := Show(s, f.fd, f.size, f.info, Healthy);
      var rest := Run(st.state, frames[1..]);
      assert Run(s, frames).trace == st.trace + rest.trace;
      assert Releases(st.trace) == NonNeg([s.lastFd]) by {
        ShowReleasesPrevious(s, f.fd, f.size, f.info, Healthy);
        assert [s.lastFd][1..] == [];
      }
      assert Releases(rest.trace) == NonNeg(Pending(f.fd, frames[1..])) by {
        assert st.state.lastFd == f.fd;
        RunReleasesLagByOne(st.state, frames[1..]);
      }
      ReleasesAppend(st.trace, rest.trace);
      PendingUnfold(s.lastFd, frames);
      NonNegAppend([s.lastFd], Pending(f.fd, frames[1..]));
    }
  }

  /** From a fresh or reset preview, N frames with non-negative fds release the first N-1 fds, in order. */
  lemma FreshRunReleasesAllButLast(s: State, frames: seq<Frame>)
    requires s.lastFd == -1 && frames != []
    requires forall i :: 0 <= i < |frames| ==> frames[i].fd >= 0
    ensures Releases(Run(s, frames).trace) == Fds(frames)[..|frames| - 1]
  {
    RunReleasesLagByOne(s, frames);
    assert Pending(s.lastFd, frames) == [-1] + Fds(frames)[..|frames| - 1];
    NonNegAppend([-1], Fds(frames)[..|frames| - 1]);
    assert NonNeg([-1]) == [] by {
      assert [-1][1..] == [];
    }
    NonNegKeepsNonNegative(Fds(frames)[..|frames| - 1]);
  }

  /** A run from a state before setup runs the setup once if it shows any frame; a run after setup never does. */
  lemma {:induction false} RunSetupOnce(s: State, frames: seq<Frame>)
    requires Inv(s)
    ensures SetupCount(Run(s, frames).trace) == (if s.firstTime && frames != [] then 1 else 0)
    ensures frames != [] ==> !Run(s, frames).state.firstTime
    decreases |frames|
  {
    if frames != [] {
      var f := frames[0];
      var st := Show(s, f.fd, f.size, f.info, Healthy);
      ShowSetupCount(s, f.fd, f.size, f.info, Healthy);
      ShowPreservesInv(s, f.fd, f.size, f.info, Healthy);
      RunSetupOnce(st.state, frames[1..]);
      CountAppend(st.trace, Run(st.state, frames[1..]).trace, IsSetup);
    }
  }

  /** Between a `Reset` and the next, the setup runs exactly once, on the first frame. */
  lemma SetupOncePerReset(s: State, frames: seq<Frame>)
    requires frames != []
    ensures SetupCount(Run(Reset(s), frames).trace) == 1
  {
    RunSetupOnce(Reset(s), frames);
  }

  function Min(a: int, b: int): int { if a <= b then a else b }

  /** The fade factor after `k` of ten steps down from 1. */
  function Tenths(k: int): real { (10 - k) as real / 10.0 }

  /** Frames shown while the overlay is hidden neither draw it nor change it. */
  lemma {:induction false} HiddenRun(s: State, frames: seq<Frame>)
    requires !s.countdown.visible
    ensures GlyphDraws(Run(s, frames).trace) == 0
    ensures Run(s, frames).state.countdown == s.countdown
    decreases |frames|
  {
    if frames != [] {
      var f := frames[0];
      var st := Show(s, f.fd, f.size, f.info, Healthy);
      ShowFadesCountdown(s, f.fd, f.size, f.info, Healthy);
      HiddenRun(st.state, frames[1..]);
      CountAppend(st.trace, Run(st.state, frames[1..]).trace, IsGlyphDraw);
    }
  }

  lemma {:induction false} FadeFromStep(s: State, frames: seq<Frame>, k: nat)
    requires k <= 10 && s.countdown.visible && s.countdown.alpha == Tenths(k)
    ensures GlyphDraws(Run(s, frames).trace) == Min(|frames|, 10 - k)
    ensures Run(s, frames).state.countdown.visible <==> |frames| <= 10 - k
    decreases |frames|
  {
    if frames != [] {
      var f := frames[0];
      var st := Show(s, f.fd, f.size, f.info, Healthy);
      ShowFadesCountdown(s, f.fd, f.size, f.info, Healthy);
      CountAppend(st.trace, Run(st.state, frames[1..]).trace, IsGlyphDraw);
      if k < 10 {
        assert Draws(s.countdown);
        assert Tenths(k) - FadeStep == Tenths(k + 1);
        FadeFromStep(st.state, frames[1..], k + 1);
      } else {
        assert !Draws(s.countdown);
        HiddenRun(st.state, frames[1..]);
      }
    }
  }

  /**
   * A countdown shown at full fade is drawn on the next ten frames and
   * hidden by the eleventh, which no longer draws it.
   */
  lemma CountdownFadesAfterTenFrames(s: State, val: int, frames: seq<Frame>)
    ensures var r := Run(ShowCountdown(s, val, 1.0), frames);
            && GlyphDraws(r.trace) == Min(|frames|, 10)
            && (r.state.countdown.visible <==> |frames| <= 10)
  {
    FadeFromStep(ShowCountdown(s, val, 1.0), frames, 0);
  }
}
