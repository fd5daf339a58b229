# EGL preview window: a Dafny model

This project models the bookkeeping of the camera preview window of the
photo-booth application, `EglPreview` in `preview/egl_preview.cpp`. The
window receives DMA-BUF frame buffers from the capture pipeline. It imports
each buffer once as an EGL image and draws it. After the swap it hands the
*previous* frame's fd back to the producer through the buffer-done callback.
It can also draw a fading countdown digit over the frame.

All X11, EGL, GL and FreeType calls are gone. The preview is an immutable
`EglPreview.State`, and `Show`, `Reset`, `ShowCountdown` and `HideCountdown`
are pure transitions. `Show` returns the new state, an ordered trace of
abstract events (`Setup`, `Import`, `DrawImage`, `DrawGlyph`, `Swap`,
`Release`) and an outcome. The driver answers that make the source throw
become a `Driver` parameter:

- `eglMakeCurrent` failing gives `Failed(ContextFailed)`.
- A shader failing to compile or link gives `Failed(ShaderFailed)`.
- `eglCreateImageKHR` failing gives `Failed(ImportFailed(fd))`.

Each failure keeps the partial state the C++ leaves behind.

Modules:

- `Geometry`: the size and position of the window (`makeWindow`).
- `Colour`: the YUV encoding and range hints (`get_colour_space_info`).
- `DmaBuf`: the frame description and the three-plane YUV 4:2:0 import
  attributes (`makeBuffer`). The unsigned 32-bit products and the cast to
  the signed `EGLint` are written out explicitly.
- `Glyphs`: the glyph-table loop of `gl_setup`. A coverage byte is
  replicated into the four bytes of a `bv32` RGBA word. Glyph 0 is an opaque
  white plane.
- `EglPreview`: the state machine.
- `Traces`: observers of a trace, such as counts per event kind and the
  released fds in order.
- `Wrappers`: the `Option` type used for the optional colour space.
- `PreviewRuns`: lemmas about one frame and about runs of frames. Runs show
  every frame with a driver that never fails; a failed `Show` is fatal for
  the caller.

Behaviour of the code that the model keeps as written:

- The setup loop builds glyphs 0 to 8 only (`i < 9`), so countdown value 9
  has no built glyph. Drawing it looks up `charas_[9]` through
  `std::map::operator[]`, which inserts a key the setup never built
  (`UnbuiltGlyphIsLookedUp`).
- `makeBuffer` writes `buffer.fd = fd` before the import. An fd whose import
  threw therefore counts as imported: it is never imported again in that
  cycle (`FailedImportIsNotRetried`).
- Only fd -1 marks a record as not imported. So `Show(-1, …)` imports again
  on every call (`MinusOneIsImportedEveryTime`). The lemmas about importing
  once exclude that fd.
  Release happens only for `last_fd_ >= 0`, so a negative fd is never
  handed back.

## Model

| member | source | states |
|---|---|---|
| Geometry.Sized | preview/egl_preview.cpp:422-427 | A zero width or height selects 1024x768 and keeps the position; a fully specified request is kept |
| Geometry.WindowGeometry | preview/egl_preview.cpp:422-434 | The window always fits on the screen; full screen or a request that does not fit gives the whole screen at (0,0); otherwise the (defaulted) request is kept exactly |
| Geometry.GeometryIsStable | preview/egl_preview.cpp:422-434 | Placing an already placed window again (not full screen) leaves it unchanged |
| Geometry.DefaultSizeWhenUnspecified | preview/egl_preview.cpp:422-434 | An unspecified size on a screen with room gives exactly a 1024x768 window at the requested position |
| Colour.ColourSpaceInfo | preview/egl_preview.cpp:523-536 | Full range iff sYCC; Rec709 encoding iff Rec709 (whose range stays narrow); a warning iff the space is absent or not sYCC/SMPTE170M/Rec709, which then get the Rec601 narrow default |
| Colour.AtMostOneHintChanges | preview/egl_preview.cpp:523-536 | No colour space changes both the encoding and the range away from the default |
| DmaBuf.EglInt | preview/egl_preview.cpp:556-568 | The cast to EGLint is the two's-complement reading: identity below 2^31, and reversible by unsigned wrap-around |
| DmaBuf.ImportAttributesFor | preview/egl_preview.cpp:553-572 | Three planes all on the frame's fd, plane 0 at offset 0, chroma planes with the same pitch, half the stride, hint taken from the colour space |
| DmaBuf.PlaneLayout | preview/egl_preview.cpp:556-568 | Without overflow: plane 0 at 0 with pitch stride, plane 1 at stride*height with pitch stride/2, plane 2 at stride*height+(stride/2)*(height/2) with pitch stride/2; offsets non-decreasing and planes 1 and 2 exactly one chroma plane apart |
| DmaBuf.LargeFrameWrapsPlaneOffset | preview/egl_preview.cpp:564 | A 65536x65536 frame with stride 65536 wraps the U plane's offset to 0, onto the luma plane |
| Glyphs.GlyphIds | preview/egl_preview.cpp:254 | The setup builds exactly glyph ids 0 to 8 |
| Glyphs.Pack | preview/egl_preview.cpp:281-284 | All four bytes of a packed pixel equal the coverage byte |
| Glyphs.PackCoverageInverse | preview/egl_preview.cpp:281-284 | Reading the coverage undoes packing, and packing the coverage rebuilds a word iff its four bytes are equal |
| Glyphs.OpaqueIsFullCoverage | preview/egl_preview.cpp:277-279 | The backdrop's 0xffffffff pixel is the packing of full coverage 0xff |
| Glyphs.GlyphPixels | preview/egl_preview.cpp:274-287 | A glyph texture has width*rows pixels; each pixel has four equal bytes, 0xff for glyph 0 and raster byte j otherwise |
| Glyphs.BuildAtlas | preview/egl_preview.cpp:254-311 | The table has keys exactly 0..8; glyph 0 is all 0xffffffff; every pixel of glyphs 1..8 carries its raster's coverage in all four bytes |
| EglPreview.Initial | preview/egl_preview.cpp:328-350 | A new preview has nothing imported, no pending release, is before setup and shows no countdown, and satisfies the invariant |
| EglPreview.Reset | preview/egl_preview.cpp:633-646 | Reset forgets every import and glyph and the pending release, re-arms the setup, keeps the countdown, and restores the invariant |
| EglPreview.ShowCountdown | preview/egl_preview.cpp:660-678 | The countdown becomes visible with the given value and fade; nothing else changes |
| EglPreview.HideCountdown | preview/egl_preview.cpp:680-683 | Only the visible flag is cleared; value, fade and all buffer state are kept |
| EglPreview.Fade | preview/egl_preview.cpp:612-625 | A visible overlay above the 0.01 cutoff stays visible and loses 0.10; otherwise it ends up hidden with its fade unchanged |
| EglPreview.Acquire | preview/egl_preview.cpp:538-599 | An imported fd is reused with no event; otherwise once past the setup the record holds the new fd, size and info and the setup is disarmed, whether or not the import succeeds |
| EglPreview.FrameEvents | preview/egl_preview.cpp:601-630 | A frame's drawing events are its own buffer first, then the overlay glyph with the current value and fade if it is still fading, then the swap, and last the release of the previous fd if it is non-negative |
| EglPreview.Show | preview/egl_preview.cpp:595-631 | A frame in a cached fd never fails; a shown frame becomes the one pending release and its trace ends with the swap or a release; a failed frame changes neither the pending fd nor the countdown and never swaps; Setup happens iff the frame is the cycle's first import and the context is made current; a healthy driver never fails |
| PreviewRuns.ShowKeepsOtherRecords | preview/egl_preview.cpp:549-599 | A frame adds its own fd's record if missing, leaves every other fd's record as it was, and leaves a cached record unchanged (a later frame's size and description are not recorded) |
| PreviewRuns.ShowPreservesInv | preview/egl_preview.cpp:538-631 | Whatever the driver answers, Show keeps: records hold their key or -1; before setup nothing is imported, no glyph exists and nothing is pending; after it glyphs 0..8 exist |
| PreviewRuns.ShowImportsOnce | preview/egl_preview.cpp:597-599 | A frame imports fd h once iff it shows h, h is not yet imported and setup succeeds; h then stays recorded even if the import fails |
| PreviewRuns.ShowReleasesPrevious | preview/egl_preview.cpp:627-630 | A shown frame releases exactly the previous fd if it is non-negative; a failed frame releases nothing |
| PreviewRuns.ShowReleasesAfterSwap | preview/egl_preview.cpp:627-630 | When a release happens it is the last event, immediately after the swap |
| PreviewRuns.ShowFadesCountdown | preview/egl_preview.cpp:612-625 | A shown frame draws the glyph (with the current value and fade) iff the overlay is visible above the cutoff, and advances the fade one step |
| PreviewRuns.ShowSetupCount | preview/egl_preview.cpp:540-547 | From a reachable state, whatever the driver answers, a successful frame runs the setup once iff the cycle has not run it, and leaves it disarmed |
| PreviewRuns.FailedImportIsNotRetried | preview/egl_preview.cpp:549-599 | After an import of fd fails, showing fd again imports nothing and draws |
| PreviewRuns.ShowUnimportedFd | preview/egl_preview.cpp:597-599 | A frame in fd -1 shown from a state that has not imported it imports it once exactly when the setup gets through (the context is made current and the shaders build, or the setup already ran), and in every case leaves it recorded as not imported |
| PreviewRuns.MinusOneIsImportedEveryTime | preview/egl_preview.cpp:597-599 | From a reachable state, showing fd -1 twice with a driver that never fails imports it on both frames |
| PreviewRuns.HiddenCountdownDrawsNothing | preview/egl_preview.cpp:680-683 | Right after HideCountdown the next frame draws no glyph, whatever fade remains, and keeps the overlay state |
| PreviewRuns.ResetForcesReimport | preview/egl_preview.cpp:633-646 | After Reset, showing any fd with a driver that never fails, even an fd imported before, starts with Setup then Import of that fd, and releases nothing |
| PreviewRuns.ShowDrawOrder | preview/egl_preview.cpp:601-630 | A successful frame, right after acquiring its buffer, draws its own buffer, then the overlay if it is still fading, then swaps, and ends with the release of the previous non-negative fd |
| PreviewRuns.ShowGlyphTable | preview/egl_preview.cpp:254-310 | From a reachable state a successful frame adds exactly glyphs 0..8 on a cycle's first import, plus the drawn countdown value that the lookup at lines 617-619 inserts, and no other key |
| PreviewRuns.UnbuiltGlyphIsLookedUp | preview/egl_preview.cpp:612-619 | Drawing any countdown value outside 0..8, such as 9, adds that value to the glyph table as a key the setup never built |
| PreviewRuns.RunPreservesInv | preview/egl_preview.cpp:595-631 | Every run of frames keeps the invariant |
| PreviewRuns.RunImportsEachFdOnce | preview/egl_preview.cpp:597-599 | Over any run, fd h other than -1 is imported once iff the run shows it and it was not imported before, else never; afterwards it is imported iff it was before or was shown |
| PreviewRuns.RunLeavesLastPending | preview/egl_preview.cpp:630 | After a run the last shown fd is the one pending release |
| PreviewRuns.RunReleasesLagByOne | preview/egl_preview.cpp:627-630 | A run releases, in order, the fd pending at its start and then every shown fd but the last, skipping negative ones |
| PreviewRuns.FreshRunReleasesAllButLast | preview/egl_preview.cpp:627-630 | From a fresh or reset preview, N frames with non-negative fds H1..HN release exactly H1..H(N-1) in order |
| PreviewRuns.RunSetupOnce | preview/egl_preview.cpp:540-547 | A run from a reachable state runs the setup once iff it starts before setup and shows a frame, and leaves it disarmed |
| PreviewRuns.SetupOncePerReset | preview/egl_preview.cpp:633-646 | Between a Reset and the next, any non-empty run runs the setup exactly once |
| PreviewRuns.HiddenRun | preview/egl_preview.cpp:612-625 | While the overlay is hidden no frame draws it and its state stays as it was |
| PreviewRuns.FadeFromStep | preview/egl_preview.cpp:612-625 | From fade (10-k)/10, a run draws the glyph on min(N, 10-k) frames and the overlay is still visible iff N <= 10-k |
| PreviewRuns.CountdownFadesAfterTenFrames | preview/egl_preview.cpp:612-625 | After ShowCountdown(v, 1.0) the next ten frames draw the glyph and the eleventh hides it without drawing |

## Left out

- All X11, EGL, GL and FreeType calls (window creation, `no_border`, context binding, image import, texture upload, draw calls, swap). They appear only as trace events or as `Driver` answers.
- Texture names (`Buffer::texture`, `Chara::texture`) and the `glDeleteTextures` calls of `Reset`. A texture is an opaque driver object. The import event stands for it.
- The `eglMakeCurrent` that detaches the context in `Reset` has no observable effect in the model, so it has no event.
- The shader sources, `compile_shader` and `link_program`. Their failure is the `ShaderFailed` outcome.
- Float geometry: the letterbox factors (`w_factor`, `h_factor`), the glyph quad vertices and the `2.0 - ialphafac` scale in the shader.
- EglPreview.Fade: the fade factor is an exact `real`, not a 32-bit `float`. In `float`, `1.0f - 0.1f` is 0.89999998 rather than 0.9, so the exact fade values of `Fade` and `FadeFromStep` do not carry over bit for bit. The draw counts and visibility (`FadeFromStep`'s counts, `CountdownFadesAfterTenFrames`) do hold in `float` too, because the rounding drift of about 1e-7 stays far from the 0.01 cutoff.
- EglPreview.Initial: `countdownVal_` and `countdownAlpha_` are left uninitialised by the constructor. The model starts them at 0 and 0.0. They are read only while the overlay is visible, and `ShowCountdown` sets them first.
- EglPreview.Acquire: the `Buffer` that `std::map::operator[]` value-initialises has unspecified size and info. The model uses 0 and an empty description.
- Geometry.WindowGeometry: `x + width` is computed in unbounded integers. A signed `int` overflow in the source is not modelled.
- Font loading and rasterisation: glyph rasters are given byte sequences. The row pitch of a FreeType bitmap is assumed to equal its width, as the source's indexing does.
- `Quit` drains X events, `SetInfoText` wraps `XStoreName`, and `MaxImageSize` echoes `GL_MAX_TEXTURE_SIZE` from the driver. All three are window-system or driver I/O.
- The constructor's X display and EGL initialisation failures are window-system errors outside the preview's bookkeeping.
- `uploader/uploader.py` is an HTTP upload polling loop with no logic of the preview.
