/**
 * Observers of a trace of preview events: how many events of a kind it
 * holds, and which fds it hands back to the producer, in order.
 */
module Traces {

  import opened EglPreview

  function Count(tr: seq<Event>, p: Event -> bool): nat
  {
    if tr == [] then 0 else (if p(tr[0]) then 1 else 0) + Count(tr[1..], p)
  }

  predicate IsSetup(e: Event) { e.Setup? }

  predicate IsGlyphDraw(e: Event) { e.DrawGlyph? }

  function ImportOf(fd: int): Event -> bool
  {
    (e: Event) => e.Import? && e.fd == fd
  }

  function SetupCount(tr: seq<Event>): nat { Count(tr, IsSetup) }

  function GlyphDraws(tr: seq<Event>): nat { Count(tr, IsGlyphDraw) }

  function ImportCount(tr: seq<Event>, fd: int): nat { Count(tr, ImportOf(fd)) }

  /** The fds passed to the buffer-done callback, in call order. */
  function Releases(tr: seq<Event>): seq<int>
  {
    if tr == [] then [] else (if tr[0].Release? then [tr[0].fd] else []) + Releases(tr[1..])
  }

  /** The non-negative entries of `xs`, in order. */
  function NonNeg(xs: seq<int>): seq<int>
  {
    if xs == [] then [] else (if xs[0] >= 0 then [xs[0]] else []) + NonNeg(xs[1..])
  }

  lemma {:induction false} CountAppend(a: seq<Event>, b: seq<Event>, p: Event -> bool)
    ensures Count(a + b, p) == Count(a, p) + Count(b, p)
  {
    if a != [] {
      assert (a + b)[1..] == a[1..] + b;
      CountAppend(a[1..], b, p);
    } else {
      assert a + b == b;
    }
  }

  lemma {:induction false} ReleasesAppend(a: seq<Event>, b: seq<Event>)
    ensures Releases(a + b) == Releases(a) + Releases(b)
  {
    if a != [] {
      assert (a + b)[1..] == a[1..] + b;
      ReleasesAppend(a[1..], b);
    } else {
      assert a + b == b;
    }
  }

  lemma {:induction false} NonNegAppend(a: seq<int>, b: seq<int>)
    ensures NonNeg(a + b) == NonNeg(a) + NonNeg(b)
  {
    if a != [] {
      assert (a + b)[1..] == a[1..] + b;
      NonNegAppend(a[1..], b);
    } else {
      assert a + b == b;
    }
  }

  lemma {:induction false} NonNegKeepsNonNegative(xs: seq<int>)
    requires forall i :: 0 <= i < |xs| ==> xs[i] >= 0
    ensures NonNeg(xs) == xs
  {
    if xs != [] {
      NonNegKeepsNonNegative(xs[1..]);
    }
  }
}
