/**
 The custom cursor of the home page: a glass ring that chases the pointer,
 grows over interactive elements, and turns into a cycling rainbow for ten
 seconds after the Konami code is typed.

 Every listener and callback of the component becomes one event of a pure
 step function: a pointer move, a pointer-over, a key press, an animation
 frame, and the firing of a timer.
 */
module DesignerCursor {
  import opened Options
  import opened Timers
  import opened RealArith

  const Konami: seq<string> :=
    ["ArrowUp", "ArrowUp", "ArrowDown", "ArrowDown", "ArrowLeft", "ArrowRight", "ArrowLeft", "ArrowRight", "b", "a"]
  const Rainbow: seq<string> :=
    ["#D9694A", "#F0C17A", "#0B0F2E", "#2d3580", "#e07a5f", "#f5d08a", "#c45832", "#1a2060"]

  /** How long rainbow mode lasts after the code is typed. */
  const RainbowMillis: nat := 10000
  /** Frames each palette colour is shown for. */
  const FramesPerColour: nat := 4
  /** Fraction of the remaining distance the ring covers each frame. */
  const Smoothing: real := 0.13

  const RestSize: nat := 34
  const HoverSize: nat := 44
  const RainbowSize: nat := 42

  // ---------------------------------------------------------------------------
  // Key-sequence recogniser
  // ---------------------------------------------------------------------------

  /** The progress counter and how many times the full sequence has been recognised. */
  datatype Recogniser = Recogniser(progress: nat, activations: nat)

  /** The key is the one expected next; an out-of-range index reads `undefined` and matches no key. */
  predicate Expected(progress: nat, key: string) {
    progress < |Konami| && key == Konami[progress]
  }

  /** One key press: the new progress, and whether this key completed the sequence. */
  function Recognise(progress: nat, key: string): (r: (nat, bool))
    ensures r.0 < |Konami|
    ensures r.1 <==> progress == |Konami| - 1 && key == Konami[|Konami| - 1]
    ensures r.1 ==> r.0 == 0
    ensures Expected(progress, key) && !r.1 ==> r.0 == progress + 1
    ensures !Expected(progress, key) ==> r.0 == (if key == Konami[0] then 1 else 0)
  {
    if Expected(progress, key) then
      if progress + 1 == |Konami| then (0, true) else (progress + 1, false)
    else
      (if key == Konami[0] then 1 else 0, false)
  }

  /** The recogniser after a whole sequence of key presses. */
  function Feed(start: Recogniser, keys: seq<string>): (r: Recogniser)
    ensures keys == [] ==> r == start
    ensures keys != [] ==> r.progress < |Konami|
    ensures start.activations <= r.activations <= start.activations + |keys|
    decreases |keys|
  {
    if keys == [] then start
    else
      var before := Feed(start, keys[..|keys| - 1]);
      var (p, hit) := Recognise(before.progress, keys[|keys| - 1]);
      Recogniser(p, before.activations + if hit then 1 else 0)
  }

  lemma FeedSnoc(start: Recogniser, keys: seq<string>, key: string)
    ensures var before := Feed(start, keys);
            var (p, hit) := Recognise(before.progress, key);
            Feed(start, keys + [key]) == Recogniser(p, before.activations + if hit then 1 else 0)
  {
    assert (keys + [key])[..|keys|] == keys;
  }

  /**
   Soundness of the counter: after any key presses, the last `progress`
   keys are exactly the first `progress` keys of the code.
   */
  lemma {:induction false} ProgressIsMatchedSuffix(keys: seq<string>)
    ensures var p := Feed(Recogniser(0, 0), keys).progress;
            p <= |keys| && keys[|keys| - p..] == Konami[..p]
    decreases |keys|
  {
    if keys != [] {
      var n := |keys|;
      var init, key := keys[..n - 1], keys[n - 1];
      SliceSnoc(keys, n);
      assert keys == init + [key];
      ProgressIsMatchedSuffix(init);
      FeedSnoc(Recogniser(0, 0), init, key);
      var q := Feed(Recogniser(0, 0), init).progress;
      var p := Recognise(q, key).0;
      if Expected(q, key) && q + 1 < |Konami| {
        SuffixSnoc(keys, p);
        SliceSnoc(Konami, p);
      } else if p == 1 {
        assert keys[n - 1..] == [key];
      }
    }
  }

  /** Rainbow mode is only ever switched on by a key that ends a typed-out code. */
  lemma ActivationNeedsWholeCode(keys: seq<string>, key: string)
    requires Recognise(Feed(Recogniser(0, 0), keys).progress, key).1
    ensures var typed := keys + [key];
            |typed| >= |Konami| && typed[|typed| - |Konami|..] == Konami
  {
    ProgressIsMatchedSuffix(keys);
    var typed := keys + [key];
    assert typed[..|typed| - 1] == keys;
    SuffixSnoc(typed, |Konami|);
    SliceSnoc(Konami, |Konami|);
  }

  /** Feeding two key sequences one after the other is feeding their concatenation. */
  lemma {:induction false} FeedAppend(start: Recogniser, a: seq<string>, b: seq<string>)
    ensures Feed(start, a + b) == Feed(Feed(start, a), b)
    decreases |b|
  {
    if b == [] {
      assert a + b == a;
    } else {
      var init, key := b[..|b| - 1], b[|b| - 1];
      assert b == init + [key];
      assert a + b == (a + init) + [key];
      FeedAppend(start, a, init);
      FeedSnoc(start, a + init, key);
      FeedSnoc(Feed(start, a), init, key);
    }
  }

  /**
   From progress 0, typing the code advances one step per key without
   firing, and the last key fires exactly once and returns to 0.
   */
  lemma {:induction false} CodeFromRest(start: Recogniser, j: nat)
    requires start.progress == 0
    requires j <= |Konami|
    ensures Feed(start, Konami[..j])
              == if j == |Konami| then Recogniser(0, start.activations + 1)
                 else Recogniser(j, start.activations)
  {
    if j > 0 {
      CodeFromRest(start, j - 1);
      SliceSnoc(Konami, j);
      FeedSnoc(start, Konami[..j - 1], Konami[j - 1]);
      CodeStep(j - 1);
    }
  }

  /** After any key history that leaves the counter at 0, typing the code activates rainbow mode once more. */
  lemma CodeAfterHistory(keys: seq<string>)
    requires Feed(Recogniser(0, 0), keys).progress == 0
    ensures Feed(Recogniser(0, 0), keys + Konami)
              == Recogniser(0, Feed(Recogniser(0, 0), keys).activations + 1)
  {
    FeedAppend(Recogniser(0, 0), keys, Konami);
    CodeFromRest(Feed(Recogniser(0, 0), keys), |Konami|);
    assert Konami[..|Konami|] == Konami;
  }

  /** A non-empty prefix is the shorter prefix followed by its last element. */
  lemma SliceSnoc<T>(s: seq<T>, j: nat)
    requires 0 < j <= |s|
    ensures s[..j] == s[..j - 1] + [s[j - 1]]
  {
  }

  /** A non-empty suffix is the matching suffix of all but the last element, followed by the last. */
  lemma SuffixSnoc<T>(s: seq<T>, k: nat)
    requires 0 < k <= |s|
    ensures s[|s| - k..] == s[..|s| - 1][|s| - k..] + [s[|s| - 1]]
  {
  }

  /** The expected key advances the progress, and the last one completes the code. */
  lemma CodeStep(p: nat)
    requires p < |Konami|
    ensures Recognise(p, Konami[p]) == if p == |Konami| - 1 then (0, true) else (p + 1, false)
  {
    assert Expected(p, Konami[p]);
  }

  /** Typing the code on a fresh page turns rainbow mode on once, on the final key, and ends at 0. */
  lemma CodeTurnsRainbowOnOnce()
    ensures forall j :: 0 <= j < |Konami| ==> Feed(Recogniser(0, 0), Konami[..j]) == Recogniser(j, 0)
    ensures Feed(Recogniser(0, 0), Konami) == Recogniser(0, 1)
  {
    forall j | 0 <= j < |Konami|
      ensures Feed(Recogniser(0, 0), Konami[..j]) == Recogniser(j, 0)
    {
      CodeFromRest(Recogniser(0, 0), j);
    }
    CodeFromRest(Recogniser(0, 0), |Konami|);
    assert Konami[..|Konami|] == Konami;
  }

  /**
   A mismatch falls back only to 0 or 1, never to the longest matching
   prefix: a third ArrowUp drops the count to 1, so the code typed after an
   extra ArrowUp is never recognised although the keys end with it.
   */
  lemma ExtraArrowUpIsNotRecognised()
    ensures var typed := ["ArrowUp"] + Konami;
            typed[|typed| - |Konami|..] == Konami
            && forall j :: 0 <= j <= |typed| ==> Feed(Recogniser(0, 0), typed[..j]).activations == 0
  {
    var typed := ["ArrowUp"] + Konami;
    assert typed[|typed| - |Konami|..] == Konami;
    forall j | 0 <= j <= |typed|
      ensures Feed(Recogniser(0, 0), typed[..j]) == Recogniser(StrayProgress(j), 0)
    {
      TypedPrefix(typed, j);
    }
  }

  /** The progress after the first j keys of ArrowUp followed by the code: 0, 1, 2, 1, then 0. */
  function StrayProgress(j: nat): nat {
    if j == 1 || j == 3 then 1 else if j == 2 then 2 else 0
  }

  lemma {:induction false} TypedPrefix(typed: seq<string>, j: nat)
    requires typed == ["ArrowUp"] + Konami
    requires j <= |typed|
    ensures Feed(Recogniser(0, 0), typed[..j]) == Recogniser(StrayProgress(j), 0)
  {
    if j > 0 {
      TypedPrefix(typed, j - 1);
      SliceSnoc(typed, j);
      FeedSnoc(Recogniser(0, 0), typed[..j - 1], typed[j - 1]);
      StrayStep(typed, j - 1);
    }
  }

  /** One key of the stray-ArrowUp sequence, from the progress reached before it. */
  lemma StrayStep(typed: seq<string>, i: nat)
    requires typed == ["ArrowUp"] + Konami
    requires i < |typed|
    ensures Recognise(StrayProgress(i), typed[i]) == (StrayProgress(i + 1), false)
  {
    if i < 4 {
      assert typed[i] == ["ArrowUp", "ArrowUp", "ArrowUp", "ArrowDown"][i];
    } else {
      assert typed[i] == Konami[i - 1] && Konami[i - 1] != Konami[0];
    }
  }

  // ---------------------------------------------------------------------------
  // Ring position and palette
  // ---------------------------------------------------------------------------

  datatype Point = Point(x: real, y: real)

  /** `lerp(a, b, n)`: the remaining distance to `b` shrinks by the factor `1 - n`. */
  function Lerp(a: real, b: real, n: real): (r: real)
    ensures b - r == (1.0 - n) * (b - a)
  {
    Remaining(b - a, n);
    a + (b - a) * n
  }

  /** For `n` in [0, 1], `lerp` stays between its endpoints: the ring never overshoots the pointer. */
  lemma LerpNoOvershoot(a: real, b: real, n: real)
    requires 0.0 <= n <= 1.0
    ensures a <= b ==> a <= Lerp(a, b, n) <= b
    ensures b <= a ==> b <= Lerp(a, b, n) <= a
  {
    var d := b - a;
    var m := d * n;
    assert Lerp(a, b, n) == a + m;
    ScaledDifference(d, n);
    if a <= b {
      assert 0.0 <= m <= d;
    } else {
      assert d <= m <= 0.0;
    }
  }

  /** One frame of the ring chasing the pointer: `lerp` on each axis with factor 0.13. */
  function Chase(ring: Point, pointer: Point): (r: Point)
    ensures pointer.x - r.x == 0.87 * (pointer.x - ring.x)
    ensures pointer.y - r.y == 0.87 * (pointer.y - ring.y)
  {
    Point(Lerp(ring.x, pointer.x, Smoothing), Lerp(ring.y, pointer.y, Smoothing))
  }

  /** Distributing the remaining factor. */
  lemma Remaining(d: real, n: real)
    ensures d - d * n == (1.0 - n) * d
  {
  }

  /** A fraction `n` in [0, 1] of `d` lies between 0 and `d`. */
  lemma ScaledDifference(d: real, n: real)
    ensures 0.0 <= n <= 1.0 && 0.0 <= d ==> 0.0 <= d * n <= d
    ensures 0.0 <= n <= 1.0 && d <= 0.0 ==> d <= d * n <= 0.0
  {
    if 0.0 <= n <= 1.0 {
      Remaining(d, n);
      if 0.0 <= d {
        NonNegativeProduct(d, n);
        NonNegativeProduct(1.0 - n, d);
      } else {
        NonNegativeProduct(-d, n);
        NonNegativeProduct(1.0 - n, -d);
        assert (-d) * n == -(d * n);
        assert (1.0 - n) * (-d) == -((1.0 - n) * d);
      }
    }
  }

  /** The palette colour shown on a given frame of rainbow mode. */
  function PaletteIndex(frame: nat): (i: nat)
    ensures i < |Rainbow|
  {
    (frame / FramesPerColour) % |Rainbow|
  }

  /** Each colour holds for a block of four frames, then the next colour follows, cyclically. */
  lemma PaletteSteps(block: nat, j: nat)
    requires j < FramesPerColour
    ensures PaletteIndex(FramesPerColour * block + j) == PaletteIndex(FramesPerColour * block)
    ensures PaletteIndex(FramesPerColour * (block + 1)) == (PaletteIndex(FramesPerColour * block) + 1) % |Rainbow|
    ensures PaletteIndex(FramesPerColour * block + FramesPerColour * |Rainbow|) == PaletteIndex(FramesPerColour * block)
  {
    BlockOf(block, j);
    BlockOf(block, 0);
    BlockOf(block + 1, 0);
    BlockOf(block + |Rainbow|, 0);
    assert FramesPerColour * block + FramesPerColour * |Rainbow| == FramesPerColour * (block + |Rainbow|);
    assert PaletteIndex(FramesPerColour * block) == block % |Rainbow|;
    assert PaletteIndex(FramesPerColour * (block + 1)) == (block + 1) % |Rainbow|;
    assert PaletteIndex(FramesPerColour * (block + |Rainbow|)) == (block + |Rainbow|) % |Rainbow|;
    NextColour(block);
  }

  /** The colour index of the next block, and one palette length later. */
  lemma NextColour(block: nat)
    ensures (block + 1) % |Rainbow| == (block % |Rainbow| + 1) % |Rainbow|
    ensures (block + |Rainbow|) % |Rainbow| == block % |Rainbow|
  {
    var q, m := block / |Rainbow|, block % |Rainbow|;
    if m + 1 < |Rainbow| {
      RemainderOf(block + 1, q, m + 1);
    } else {
      RemainderOf(block + 1, q + 1, 0);
    }
    RemainderOf(block + |Rainbow|, q + 1, m);
  }

  /** The remainder is determined by any quotient-remainder decomposition. */
  lemma RemainderOf(x: int, q: int, m: int)
    requires 0 <= m < |Rainbow| && x == |Rainbow| * q + m
    ensures x % |Rainbow| == m
  {
  }

  /** Frame `4 * block + j` belongs to block `block`. */
  lemma BlockOf(block: nat, j: nat)
    requires j < FramesPerColour
    ensures (FramesPerColour * block + j) / FramesPerColour == block
  {
  }

  // ---------------------------------------------------------------------------
  // The component's state and its event handlers
  // ---------------------------------------------------------------------------

  /** Ring background: the resting glass tint, the lighter hover tint, or a palette colour. */
  datatype Fill = GlassFill | HoverFill | PaletteFill(colour: nat)
  /** Backdrop filter: `blur(2px) saturate(120%)` at rest, `blur(0.5px)` while hovering. */
  datatype Backdrop = Frosted | Clear
  /** The ring's inline style; `glow` is the palette colour of the rainbow halo, None for the plain glass shadow. */
  datatype RingStyle = RingStyle(size: nat, fill: Fill, glow: Option<nat>, backdrop: Backdrop)

  /** The only timer the cursor schedules: switching rainbow mode off. */
  datatype Expiry = RainbowOff

  datatype Cursor = Cursor(
    pointer: Point,             // last raw pointer position
    ring: Point,                // smoothed ring position
    hasRing: bool,              // the ring element is mounted
    style: RingStyle,
    hovering: bool,
    rainbow: bool,
    progress: nat,              // Konami progress
    frame: nat,                 // rainbow frame counter
    rainbowTimer: Option<TimerId>,
    timers: Queue<Expiry>)

  datatype Event =
    | Move(to: Point)
    | Over(interactive: bool)   // whether the target is inside a link, button or [data-cursor]
    | KeyDown(key: string)
    | AnimationFrame
    | Fire(id: TimerId)

  const RestStyle := RingStyle(RestSize, GlassFill, None, Frosted)

  /** The state right after mounting: both points off-screen at (-200, -200). */
  function Mount(hasRing: bool): (c: Cursor)
    ensures Invariant(c)
    ensures c.hasRing == hasRing
    ensures c.pointer == Point(-200.0, -200.0) && c.ring == c.pointer
    ensures c.progress == 0 && c.frame == 0 && !c.rainbow && !c.hovering
    ensures c.rainbowTimer == None && c.timers.pending == map[]
    ensures c.style == RingStyle(RestSize, GlassFill, None, Frosted)
  {
    Cursor(Point(-200.0, -200.0), Point(-200.0, -200.0), hasRing, RestStyle,
           false, false, 0, 0, None, Empty())
  }

  /** `onOver`: nothing happens unless the hover flag changes; then the ring (if mounted) is resized. */
  function OnOver(c: Cursor, interactive: bool): (r: Cursor)
    ensures interactive == c.hovering ==> r == c
    ensures interactive != c.hovering ==> r == c.(hovering := interactive, style := r.style)
    ensures interactive != c.hovering && c.hasRing ==>
              && r.style.size == (if interactive then HoverSize else RestSize)
              && r.style.fill == (if interactive then HoverFill else GlassFill)
              && r.style.backdrop == (if interactive then Clear else Frosted)
              && r.style.glow == c.style.glow
    ensures !c.hasRing ==> r.style == c.style
  {
    if interactive == c.hovering then c
    else if !c.hasRing then c.(hovering := interactive)
    else if interactive then
      c.(hovering := true, style := c.style.(size := HoverSize, fill := HoverFill, backdrop := Clear))
    else
      c.(hovering := false, style := c.style.(size := RestSize, fill := GlassFill, backdrop := Frosted))
  }

  /**
   `onKeyDown`: advances the recogniser; on the last key of the code it turns
   rainbow mode on, clears the pending expiry and schedules a new one.
   */
  function OnKeyDown(c: Cursor, key: string): (r: Cursor)
    requires Valid(c.timers)
    ensures Valid(r.timers)
    ensures r.progress < |Konami|
    ensures r.progress == Recognise(c.progress, key).0
    ensures !Recognise(c.progress, key).1 ==> r == c.(progress := r.progress)
    ensures Recognise(c.progress, key).1 ==>
              && r == c.(progress := 0, rainbow := true, rainbowTimer := r.rainbowTimer, timers := r.timers)
              && r.rainbowTimer.Some?
              && r.rainbowTimer.value !in c.timers.pending
              && r.timers.pending.Keys
                   == c.timers.pending.Keys - (if c.rainbowTimer.Some? then {c.rainbowTimer.value} else {})
                      + {r.rainbowTimer.value}
              && r.timers.pending[r.rainbowTimer.value] == Timer(RainbowOff, RainbowMillis)
  {
    var (p, hit) := Recognise(c.progress, key);
    if !hit then c.(progress := p)
    else
      var (q, id) := Schedule(ClearRef(c.timers, c.rainbowTimer), RainbowOff, RainbowMillis);
      c.(progress := p, rainbow := true, rainbowTimer := Some(id), timers := q)
  }

  /**
   `tick`: counts the frame; with the ring mounted, moves it 13% of the way
   to the pointer and, in rainbow mode, paints it in the frame's palette colour.
   */
  function OnFrame(c: Cursor): (r: Cursor)
    ensures r == c.(frame := c.frame + 1, ring := r.ring, style := r.style)
    ensures !c.hasRing ==> r.ring == c.ring && r.style == c.style
    ensures c.hasRing ==>
              && r.ring == Chase(c.ring, c.pointer)
    ensures c.hasRing && c.rainbow ==>
              r.style == c.style.(size := RainbowSize, fill := PaletteFill(PaletteIndex(r.frame)),
                                  glow := Some(PaletteIndex(r.frame)))
    ensures !c.rainbow ==> r.style == c.style
  {
    var frame := c.frame + 1;
    if !c.hasRing then c.(frame := frame)
    else
      var ring := Chase(c.ring, c.pointer);
      if c.rainbow then
        var i := PaletteIndex(frame);
        c.(frame := frame, ring := ring,
           style := c.style.(size := RainbowSize, fill := PaletteFill(i), glow := Some(i)))
      else c.(frame := frame, ring := ring)
  }

  /**
   A timer fires: a cleared timer does nothing; the rainbow expiry turns the
   mode off and restores the glass shadow and the tint for the hover state.
   */
  function OnFire(c: Cursor, id: TimerId): (r: Cursor)
    requires Valid(c.timers)
    ensures Valid(r.timers)
    ensures id !in c.timers.pending ==> r == c
    ensures id in c.timers.pending ==>
              && r == c.(rainbow := false, timers := r.timers, style := r.style)
              && r.timers.pending.Keys == c.timers.pending.Keys - {id}
              && (c.hasRing ==> r.style == c.style.(fill := if c.hovering then HoverFill else GlassFill, glow := None))
              && (!c.hasRing ==> r.style == c.style)
  {
    match Timers.Fire(c.timers, id)
    case None => c
    case Some((_, q)) =>
      var style := if c.hasRing then c.style.(fill := if c.hovering then HoverFill else GlassFill, glow := None)
                   else c.style;
      c.(rainbow := false, timers := q, style := style)
  }

  function Step(c: Cursor, e: Event): (r: Cursor)
    requires Valid(c.timers)
    ensures Valid(r.timers)
    ensures e.Move? ==> r == c.(pointer := e.to)
    ensures e.KeyDown? ==> r.progress == Recognise(c.progress, e.key).0
  {
    match e
    case Move(p) => c.(pointer := p)
    case Over(interactive) => OnOver(c, interactive)
    case KeyDown(key) => OnKeyDown(c, key)
    case AnimationFrame => OnFrame(c)
    case Fire(id) => OnFire(c, id)
  }

  // ---------------------------------------------------------------------------
  // Invariants over every event sequence
  // ---------------------------------------------------------------------------

  /**
   The counter indexes the code; every pending timer is the one held in the
   ref, so at most one expiry is pending, and exactly while rainbow mode is on;
   outside rainbow mode the mounted ring shows the plain glass for its hover state.
   */
  predicate Invariant(c: Cursor) {
    && Valid(c.timers)
    && c.progress < |Konami|
    && (forall id :: id in c.timers.pending ==> c.rainbowTimer == Some(id))
    && (c.rainbow <==> c.timers.pending != map[])
    && (c.hasRing && !c.rainbow ==>
          c.style.glow == None && c.style.fill == (if c.hovering then HoverFill else GlassFill))
  }

  lemma StepKeepsInvariant(c: Cursor, e: Event)
    requires Invariant(c)
    ensures Invariant(Step(c, e))
    ensures |Step(c, e).timers.pending.Keys| <= 1
  {
    match e {
      case Move(p) =>
      case Over(interactive) =>
      case KeyDown(key) => KeyDownKeepsInvariant(c, key);
      case AnimationFrame => FrameKeepsInvariant(c);
      case Fire(id) => FireKeepsInvariant(c, id);
    }
    AtMostOnePending(Step(c, e));
  }

  lemma KeyDownKeepsInvariant(c: Cursor, key: string)
    requires Invariant(c)
    ensures Invariant(OnKeyDown(c, key))
  {
    var r := OnKeyDown(c, key);
    if Recognise(c.progress, key).1 {
      assert r.timers.pending.Keys == {r.rainbowTimer.value};
    }
  }

  lemma FrameKeepsInvariant(c: Cursor)
    requires Invariant(c)
    ensures Invariant(OnFrame(c))
  {
  }

  lemma FireKeepsInvariant(c: Cursor, id: TimerId)
    requires Invariant(c)
    ensures Invariant(OnFire(c, id))
  {
    var r := OnFire(c, id);
    if id in c.timers.pending {
      assert r.timers.pending.Keys == {};
    }
  }

  lemma AtMostOnePending(c: Cursor)
    requires forall id :: id in c.timers.pending ==> c.rainbowTimer == Some(id)
    ensures |c.timers.pending.Keys| <= 1
  {
    if c.timers.pending.Keys != {} {
      var id :| id in c.timers.pending.Keys;
      assert c.timers.pending.Keys == {c.rainbowTimer.value};
    }
  }

  /** The state after a sequence of events, stopping at nothing. */
  function Run(c: Cursor, events: seq<Event>): (r: Cursor)
    requires Invariant(c)
    ensures Invariant(r)
    decreases |events|
  {
    if events == [] then c
    else
      StepKeepsInvariant(c, events[0]);
      Run(Step(c, events[0]), events[1..])
  }

  /** n animation frames with no pointer movement. */
  function Frames(c: Cursor, n: nat): (r: Cursor)
    ensures r.pointer == c.pointer && r.hasRing == c.hasRing
    decreases n
  {
    if n == 0 then c else OnFrame(Frames(c, n - 1))
  }

  function Power(x: real, n: nat): real {
    if n == 0 then 1.0 else x * Power(x, n - 1)
  }

  /** The ring after n chasing frames toward a fixed pointer. */
  function ChaseFrames(ring: Point, pointer: Point, n: nat): Point
    decreases n
  {
    if n == 0 then ring else Chase(ChaseFrames(ring, pointer, n - 1), pointer)
  }

  /** With the pointer at rest and the ring mounted, n frames move the ring as n chasing steps. */
  lemma {:induction false} FramesChase(c: Cursor, n: nat)
    requires c.hasRing
    ensures Frames(c, n).ring == ChaseFrames(c.ring, c.pointer, n)
    decreases n
  {
    if n > 0 {
      FramesChase(c, n - 1);
    }
  }

  /** Toward a fixed pointer, n chasing steps shrink the ring's offset to 0.87^n of it on each axis. */
  lemma {:induction false} ChaseConverges(ring: Point, pointer: Point, n: nat)
    ensures var r := ChaseFrames(ring, pointer, n);
            && pointer.x - r.x == Power(0.87, n) * (pointer.x - ring.x)
            && pointer.y - r.y == Power(0.87, n) * (pointer.y - ring.y)
    decreases n
  {
    if n > 0 {
      ChaseConverges(ring, pointer, n - 1);
      var before := ChaseFrames(ring, pointer, n - 1);
      var after := Chase(before, pointer);
      var k := Power(0.87, n - 1);
      Regroup(0.87, k, pointer.x - ring.x, pointer.x - before.x, pointer.x - after.x);
      Regroup(0.87, k, pointer.y - ring.y, pointer.y - before.y, pointer.y - after.y);
    }
  }

  lemma Regroup(f: real, k: real, d0: real, d1: real, d2: real)
    requires d1 == k * d0 && d2 == f * d1
    ensures d2 == (f * k) * d0
  {
  }

  /**
   The expiry restores the fill and the shadow but not the size: a ring that
   went rainbow keeps the 42px rainbow size afterwards, although neither the
   resting (34px) nor the hover (44px) size is 42px.
   */
  lemma ExpiryKeepsRainbowSize(c: Cursor)
    requires Invariant(c) && c.hasRing && c.rainbow
    ensures var painted := OnFrame(c);
            var off := OnFire(painted, c.rainbowTimer.value);
            && !off.rainbow
            && off.style.size == RainbowSize
            && off.style.size != (if off.hovering then HoverSize else RestSize)
  {
    assert c.rainbowTimer.Some? by {
      var id :| id in c.timers.pending;
    }
  }
}
