/**
 The "Visit Crank Studio" transition: a click paints a navy disc on a
 full-screen canvas that expands from the click point (600 ms, ease-out),
 holds (250 ms) and recedes (420 ms, ease-in), with a centred label fading in
 and out. Part-way through the expansion the studio site opens in a new tab;
 when the timeline is over the canvas is removed.

 Frame timestamps become explicit events carrying the elapsed time in
 milliseconds; `Math.pow` and the easing curves are real polynomials. The
 drawing itself (gradients, blob orbits, the `sqrt` for the largest radius) is
 not modelled: the largest radius is a parameter.
 */
module CrankCta {
  import opened Options
  import opened RealArith

  const Expand: real := 600.0
  const Hold: real := 250.0
  const Recede: real := 420.0
  const Total: real := Expand + Hold + Recede
  /** The tab opens once the expansion is 55% done. */
  const OpenAfter: real := Expand * 0.55
  /** The label starts fading in when the expansion is 65% done. */
  const LabelStart: real := Expand * 0.65
  const LabelFadeIn: real := 220.0
  const LabelFadeOut: real := 180.0
  const LabelPeak: real := 0.48

  // ---------------------------------------------------------------------------
  // Easing
  // ---------------------------------------------------------------------------

  function Cube(x: real): real {
    x * x * x
  }

  lemma CubeIsMonotone(a: real, b: real)
    ensures a <= b ==> Cube(a) <= Cube(b)
  {
    if a <= b {
      var spread := a * a + a * b + b * b;
      var h := a + b / 2.0;
      assert spread == h * h + 0.75 * (b * b);
      Square(h);
      Square(b);
      NonNegativeProduct(b - a, spread);
      assert Cube(b) - Cube(a) == (b - a) * spread;
    }
  }

  lemma Square(x: real)
    ensures 0.0 <= x * x
  {
    if x < 0.0 {
      NonNegativeProduct(-x, -x);
    } else {
      NonNegativeProduct(x, x);
    }
  }

  /** Scaling by a factor in [0, 1] stays within [0, m]. */
  lemma ScaleWithin(m: real, x: real)
    requires 0.0 <= m && 0.0 <= x <= 1.0
    ensures 0.0 <= m * x <= m
  {
    NonNegativeProduct(m, x);
    NonNegativeProduct(m, 1.0 - x);
    assert m - m * x == m * (1.0 - x);
  }

  lemma CubeAboveOne(x: real)
    ensures x > 1.0 ==> Cube(x) > 1.0
  {
    if x > 1.0 {
      assert Cube(x) - 1.0 == (x - 1.0) * (x * x + x + 1.0);
    }
  }

  /** `easeOutCubic`: fixes 0 and 1, maps [0, 1] into [0, 1], never exceeds 1 below 1, and is negative below 0. */
  function EaseOutCubic(t: real): (r: real)
    ensures t == 0.0 ==> r == 0.0
    ensures t == 1.0 ==> r == 1.0
    ensures 0.0 <= t <= 1.0 ==> 0.0 <= r <= 1.0
    ensures t <= 1.0 ==> r <= 1.0
    ensures t < 0.0 ==> r < 0.0
  {
    CubeIsMonotone(0.0, 1.0 - t);
    CubeIsMonotone(1.0 - t, 1.0);
    CubeAboveOne(1.0 - t);
    1.0 - Cube(1.0 - t)
  }

  /** `easeInCubic`: fixes 0 and 1, maps [0, 1] into [0, 1], and exceeds 1 beyond 1. */
  function EaseInCubic(t: real): (r: real)
    ensures t == 0.0 ==> r == 0.0
    ensures t == 1.0 ==> r == 1.0
    ensures 0.0 <= t <= 1.0 ==> 0.0 <= r <= 1.0
    ensures 0.0 <= t ==> 0.0 <= r
    ensures t > 1.0 ==> r > 1.0
  {
    CubeIsMonotone(0.0, t);
    CubeIsMonotone(t, 1.0);
    CubeAboveOne(t);
    Cube(t)
  }

  lemma EasingIsMonotone(a: real, b: real)
    requires a <= b
    ensures EaseOutCubic(a) <= EaseOutCubic(b)
    ensures EaseInCubic(a) <= EaseInCubic(b)
  {
    CubeIsMonotone(1.0 - b, 1.0 - a);
    CubeIsMonotone(a, b);
  }

  // ---------------------------------------------------------------------------
  // One frame's geometry
  // ---------------------------------------------------------------------------

  /**
   `radiusT`: 0 at the click, rising to 1 by the end of the expansion, 1
   throughout the hold, back to 0 at the end of the timeline, negative after
   it (and before the click); never above 1.
   */
  function RadiusT(elapsed: real): (r: real)
    ensures r <= 1.0
    ensures 0.0 <= elapsed <= Total ==> 0.0 <= r
    ensures Expand <= elapsed <= Expand + Hold ==> r == 1.0
    ensures elapsed == 0.0 || elapsed == Total ==> r == 0.0
    ensures elapsed < 0.0 || elapsed > Total ==> r < 0.0
  {
    if elapsed < Expand then EaseOutCubic(elapsed / Expand)
    else if elapsed < Expand + Hold then 1.0
    else 1.0 - EaseInCubic((elapsed - Expand - Hold) / Recede)
  }

  /** The disc grows during the expansion and shrinks from the start of the recession on. */
  lemma RadiusRisesThenFalls(a: real, b: real)
    requires a <= b
    ensures b <= Expand + Hold ==> RadiusT(a) <= RadiusT(b)
    ensures Expand + Hold <= a ==> RadiusT(b) <= RadiusT(a)
  {
    if b < Expand {
      EasingIsMonotone(a / Expand, b / Expand);
    }
    if Expand + Hold <= a {
      EasingIsMonotone((a - Expand - Hold) / Recede, (b - Expand - Hold) / Recede);
    }
  }

  /** `R = maxR * Math.max(radiusT, 0)`: never negative, never above `maxR`, `maxR` during the hold, 0 once over. */
  function Radius(maxR: real, elapsed: real): (r: real)
    requires 0.0 <= maxR
    ensures 0.0 <= r <= maxR
    ensures Expand <= elapsed <= Expand + Hold ==> r == maxR
    ensures elapsed <= 0.0 || Total <= elapsed ==> r == 0.0
  {
    var t := RadiusT(elapsed);
    var clamped := if t > 0.0 then t else 0.0;
    ScaleWithin(maxR, clamped);
    maxR * clamped
  }

  /** `blobScale = Math.min(radiusT * 1.5, 1)`: at most 1, and 1 once the disc is two thirds grown. */
  function BlobScale(elapsed: real): (s: real)
    ensures s <= 1.0
    ensures 0.0 <= elapsed <= Total ==> 0.0 <= s
    ensures RadiusT(elapsed) * 1.5 >= 1.0 ==> s == 1.0
  {
    var scaled := RadiusT(elapsed) * 1.5;
    if scaled < 1.0 then scaled else 1.0
  }

  /** `labelIn`: the fade-in factor, in (0, 1], reaching 1 after 220 ms. */
  function LabelIn(elapsed: real): (r: real)
    requires elapsed > LabelStart
    ensures 0.0 < r <= 1.0
    ensures elapsed >= LabelStart + LabelFadeIn ==> r == 1.0
  {
    var x := (elapsed - LabelStart) / LabelFadeIn;
    if x < 1.0 then x else 1.0
  }

  /** `labelOut`: 1 until the recession starts, then falling to 0 over 180 ms. */
  function LabelOut(elapsed: real): (r: real)
    ensures 0.0 <= r <= 1.0
    ensures elapsed <= Expand + Hold ==> r == 1.0
    ensures elapsed >= Expand + Hold + LabelFadeOut ==> r == 0.0
  {
    if elapsed > Expand + Hold then
      var x := (elapsed - Expand - Hold) / LabelFadeOut;
      1.0 - (if x < 1.0 then x else 1.0)
    else 1.0
  }

  /** The label's alpha, None while it is not drawn (up to 390 ms); never above 0.48, and 0 once faded out. */
  function LabelAlpha(elapsed: real): (a: Option<real>)
    ensures a.None? <==> elapsed <= LabelStart
    ensures a.Some? ==> 0.0 <= a.value <= LabelPeak
    ensures a.Some? && elapsed >= Expand + Hold + LabelFadeOut ==> a.value == 0.0
    ensures a.Some? && LabelStart + LabelFadeIn <= elapsed <= Expand + Hold ==> a.value == LabelPeak
  {
    if elapsed > LabelStart then
      var fadeIn := EaseOutCubic(LabelIn(elapsed));
      var fadeOut := LabelOut(elapsed);
      ScaleWithin(fadeIn, fadeOut);
      ScaleWithin(LabelPeak, fadeIn * fadeOut);
      Some(fadeIn * fadeOut * LabelPeak)
    else None
  }

  // ---------------------------------------------------------------------------
  // The frame loop of one click
  // ---------------------------------------------------------------------------

  /** `openedTab`, the number of `window.open` calls, whether the canvas is attached, whether a frame is requested. */
  datatype Transition = Transition(openedTab: bool, opens: nat, canvasAttached: bool, frameRequested: bool)

  /** Right after the click: canvas attached, first frame requested, nothing opened. */
  const Started := Transition(false, 0, true, true)

  /**
   `tick`: opens the tab on the first frame past 330 ms, requests another
   frame while the timeline runs, and removes the canvas on the first frame at
   or past 1270 ms.
   */
  function OnFrame(t: Transition, elapsed: real): (r: Transition)
    ensures !t.frameRequested ==> r == t
    ensures t.frameRequested ==> (r.frameRequested <==> elapsed < Total)
    ensures t.frameRequested ==> (r.canvasAttached <==> t.canvasAttached && elapsed < Total)
    ensures t.frameRequested ==> r.opens == t.opens + (if !t.openedTab && elapsed > OpenAfter then 1 else 0)
    ensures r.openedTab <==> t.openedTab || (t.frameRequested && elapsed > OpenAfter)
  {
    if !t.frameRequested then t
    else
      var opening := !t.openedTab && elapsed > OpenAfter;
      var t' := if opening then t.(openedTab := true, opens := t.opens + 1) else t;
      if elapsed < Total then t' else t'.(canvasAttached := false, frameRequested := false)
  }

  /**
   At most one `window.open`, recorded by `openedTab`; frames are requested
   exactly while the canvas is attached; a removed canvas means the tab is open.
   */
  predicate Invariant(t: Transition) {
    && t.opens <= 1
    && (t.openedTab <==> t.opens == 1)
    && (t.canvasAttached <==> t.frameRequested)
    && (!t.canvasAttached ==> t.openedTab)
  }

  lemma OnFrameKeepsInvariant(t: Transition, elapsed: real)
    requires Invariant(t)
    ensures Invariant(OnFrame(t, elapsed))
  {
  }

  /** The transition after a run of frames with the given elapsed times. */
  function Play(t: Transition, frames: seq<real>): (r: Transition)
    ensures frames == [] ==> r == t
    ensures t.opens <= r.opens
    ensures t.openedTab ==> r.openedTab
    ensures !t.canvasAttached ==> !r.canvasAttached
    decreases |frames|
  {
    if frames == [] then t else Play(OnFrame(t, frames[0]), frames[1..])
  }

  lemma {:induction false} PlayKeepsInvariant(t: Transition, frames: seq<real>)
    requires Invariant(t)
    ensures Invariant(Play(t, frames))
    decreases |frames|
  {
    if frames != [] {
      OnFrameKeepsInvariant(t, frames[0]);
      PlayKeepsInvariant(OnFrame(t, frames[0]), frames[1..]);
    }
  }

  lemma {:induction false} PlayAfterLastFrame(t: Transition, frames: seq<real>)
    requires !t.frameRequested
    ensures Play(t, frames) == t
    decreases |frames|
  {
    if frames != [] {
      PlayAfterLastFrame(OnFrame(t, frames[0]), frames[1..]);
    }
  }

  predicate SomeFrameAfter(frames: seq<real>, bound: real) {
    exists i :: 0 <= i < |frames| && frames[i] > bound
  }

  predicate SomeFrameAtOrAfter(frames: seq<real>, bound: real) {
    exists i :: 0 <= i < |frames| && frames[i] >= bound
  }

  /** The tab is open after a run exactly when some frame of it came after 330 ms. */
  lemma {:induction false} OpensIffLateFrame(t: Transition, frames: seq<real>)
    requires Invariant(t) && !t.openedTab && t.frameRequested
    ensures Play(t, frames).openedTab <==> SomeFrameAfter(frames, OpenAfter)
    ensures Play(t, frames).opens == if SomeFrameAfter(frames, OpenAfter) then 1 else 0
    decreases |frames|
  {
    PlayKeepsInvariant(t, frames);
    if frames != [] {
      var next := OnFrame(t, frames[0]);
      OnFrameKeepsInvariant(t, frames[0]);
      if frames[0] > OpenAfter {
        assert next.openedTab;
        OpenStaysOpen(next, frames[1..]);
        assert SomeFrameAfter(frames, OpenAfter) by { assert frames[0] > OpenAfter; }
      } else {
        OpensIffLateFrame(next, frames[1..]);
        if SomeFrameAfter(frames[1..], OpenAfter) {
          var i :| 0 <= i < |frames[1..]| && frames[1..][i] > OpenAfter;
          assert frames[i + 1] > OpenAfter;
        }
        if SomeFrameAfter(frames, OpenAfter) {
          var i :| 0 <= i < |frames| && frames[i] > OpenAfter;
          assert i > 0 && frames[1..][i - 1] > OpenAfter;
        }
      }
    }
  }

  lemma {:induction false} OpenStaysOpen(t: Transition, frames: seq<real>)
    requires t.openedTab
    ensures Play(t, frames).openedTab && Play(t, frames).opens == t.opens
    decreases |frames|
  {
    if frames != [] {
      OpenStaysOpen(OnFrame(t, frames[0]), frames[1..]);
    }
  }

  /** The canvas is gone after a run exactly when some frame of it came at or after 1270 ms. */
  lemma {:induction false} RemovedIffFinalFrame(t: Transition, frames: seq<real>)
    requires Invariant(t) && t.canvasAttached
    ensures !Play(t, frames).canvasAttached <==> SomeFrameAtOrAfter(frames, Total)
    decreases |frames|
  {
    if frames != [] {
      var next := OnFrame(t, frames[0]);
      OnFrameKeepsInvariant(t, frames[0]);
      if frames[0] >= Total {
        PlayAfterLastFrame(next, frames[1..]);
        assert SomeFrameAtOrAfter(frames, Total) by { assert frames[0] >= Total; }
      } else {
        RemovedIffFinalFrame(next, frames[1..]);
        if SomeFrameAtOrAfter(frames[1..], Total) {
          var i :| 0 <= i < |frames[1..]| && frames[1..][i] >= Total;
          assert frames[i + 1] >= Total;
        }
        if SomeFrameAtOrAfter(frames, Total) {
          var i :| 0 <= i < |frames| && frames[i] >= Total;
          assert i > 0 && frames[1..][i - 1] >= Total;
        }
      }
    }
  }

  /**
   The tab opens on the first frame past 330 ms and not before, and once the
   canvas is removed the tab has been opened exactly once.
   */
  lemma OpensOnFirstLateFrame(frames: seq<real>, i: nat)
    requires i < |frames| && frames[i] > OpenAfter
    requires forall j :: 0 <= j < i ==> frames[j] <= OpenAfter
    ensures Play(Started, frames[..i]).opens == 0
    ensures Play(Started, frames[..i + 1]).opens == 1
  {
    OpensIffLateFrame(Started, frames[..i]);
    OpensIffLateFrame(Started, frames[..i + 1]);
    assert frames[..i + 1][i] > OpenAfter;
  }

  lemma RemovalMeansOpenedOnce(frames: seq<real>)
    ensures !Play(Started, frames).canvasAttached ==> Play(Started, frames).opens == 1
  {
    PlayKeepsInvariant(Started, frames);
  }

  /** Frames at a steady interval, the last at or past 1270 ms, end the loop with the tab opened once. */
  lemma SteadyFramesFinish(interval: real, n: nat)
    requires interval > 0.0 && n as real * interval >= Total
    ensures var frames := seq(n + 1, k => k as real * interval);
            && !Play(Started, frames).frameRequested
            && !Play(Started, frames).canvasAttached
            && Play(Started, frames).opens == 1
  {
    var frames := seq(n + 1, k => k as real * interval);
    assert frames[n] >= Total;
    RemovedIffFinalFrame(Started, frames);
    RemovalMeansOpenedOnce(frames);
    PlayKeepsInvariant(Started, frames);
  }

  // ---------------------------------------------------------------------------
  // Repeated clicks
  // ---------------------------------------------------------------------------

  /** Each click starts its own transition, with its own start time, canvas and `openedTab`. */
  datatype Run = Run(start: real, transition: Transition)

  datatype PageEvent = Click(now: real) | Frame(now: real)

  /** A click appends a new run; a frame ticks every run at its own elapsed time. */
  function PageStep(runs: seq<Run>, e: PageEvent): (r: seq<Run>)
    ensures |r| == |runs| + (if e.Click? then 1 else 0)
    ensures forall i :: 0 <= i < |runs| ==> r[i].start == runs[i].start
    ensures e.Click? ==> r[|runs|] == Run(e.now, Started)
    ensures e.Frame? ==> forall i :: 0 <= i < |runs| ==>
              r[i].transition == OnFrame(runs[i].transition, e.now - runs[i].start)
  {
    match e
    case Click(now) => runs + [Run(now, Started)]
    case Frame(now) =>
      seq(|runs|, i requires 0 <= i < |runs| =>
        runs[i].(transition := OnFrame(runs[i].transition, now - runs[i].start)))
  }

  predicate AllRunsValid(runs: seq<Run>) {
    forall i :: 0 <= i < |runs| ==> Invariant(runs[i].transition)
  }

  lemma PageStepKeepsInvariant(runs: seq<Run>, e: PageEvent)
    requires AllRunsValid(runs)
    ensures AllRunsValid(PageStep(runs, e))
  {
    var r := PageStep(runs, e);
    forall i | 0 <= i < |r| ensures Invariant(r[i].transition) {
      if i < |runs| && e.Frame? {
        OnFrameKeepsInvariant(runs[i].transition, e.now - runs[i].start);
      }
    }
  }

  /** The number of `window.open` calls over all runs. */
  function TotalOpens(runs: seq<Run>): nat
    decreases |runs|
  {
    if runs == [] then 0 else TotalOpens(runs[..|runs| - 1]) + runs[|runs| - 1].transition.opens
  }

  /** Every click opens at most one tab, so there are never more tabs than clicks. */
  lemma {:induction false} AtMostOneTabPerClick(runs: seq<Run>)
    requires AllRunsValid(runs)
    ensures TotalOpens(runs) <= |runs|
    decreases |runs|
  {
    if runs != [] {
      AtMostOneTabPerClick(runs[..|runs| - 1]);
    }
  }

  /** Two clicks 10 ms apart, then a frame at 400 ms: each run opens its own tab. */
  lemma TwoClicksOpenTwoTabs()
    ensures var runs := PageStep(PageStep(PageStep([], Click(0.0)), Click(10.0)), Frame(400.0));
            |runs| == 2 && TotalOpens(runs) == 2
  {
    var runs := PageStep(PageStep(PageStep([], Click(0.0)), Click(10.0)), Frame(400.0));
    assert runs[..1][..0] == [];
    assert runs[..|runs| - 1] == runs[..1];
  }
}
