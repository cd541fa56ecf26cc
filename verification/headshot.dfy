/**
 The clickable headshot that the Paris header row renders next to its
 heading (the home page shows a plain image instead). Three stacked layers — the
 headshot, the photo of Pixel and an optional Paris rooftop photo — are shown
 or hidden through their opacity. A click shows Pixel for 2.2 seconds; the
 `showParis` prop (set by the header while the pointer is over the word
 "Paris") swaps in the rooftop.
 */
module HeadshotEgg {
  import opened Options
  import opened Timers

  /** How long Pixel stays after a click. */
  const PixelMillis: nat := 2200

  datatype PixelTimer = HidePixel

  datatype Headshot = Headshot(showPixel: bool, timer: Option<TimerId>, timers: Queue<PixelTimer>)

  /** The headshot as mounted: Pixel hidden, no timer held or pending. */
  function Initial(): (h: Headshot)
    ensures Invariant(h)
    ensures !h.showPixel && h.timer == None && h.timers.pending == map[]
  {
    Headshot(false, None, Empty())
  }

  /** `handleClick`: ignored while Pixel shows; otherwise shows Pixel and restarts the 2.2 s reset. */
  function OnClick(h: Headshot): (r: Headshot)
    requires Valid(h.timers)
    ensures Valid(r.timers)
    ensures h.showPixel ==> r == h
    ensures !h.showPixel ==>
              && r.showPixel
              && r.timer.Some?
              && r.timer.value !in h.timers.pending
              && r.timers.pending.Keys
                   == h.timers.pending.Keys - (if h.timer.Some? then {h.timer.value} else {}) + {r.timer.value}
              && r.timers.pending[r.timer.value] == Timer(HidePixel, PixelMillis)
  {
    if h.showPixel then h
    else
      var (q, id) := Schedule(ClearRef(h.timers, h.timer), HidePixel, PixelMillis);
      Headshot(true, Some(id), q)
  }

  /** The reset timer fires and hides Pixel; a cleared timer does nothing. */
  function OnFire(h: Headshot, id: TimerId): (r: Headshot)
    requires Valid(h.timers)
    ensures Valid(r.timers)
    ensures id !in h.timers.pending ==> r == h
    ensures id in h.timers.pending ==>
              !r.showPixel && r.timer == h.timer && r.timers.pending.Keys == h.timers.pending.Keys - {id}
  {
    match Timers.Fire(h.timers, id)
    case None => h
    case Some((_, q)) => Headshot(false, h.timer, q)
  }

  datatype HeadshotEvent = Click | FireTimer(id: TimerId)

  function Step(h: Headshot, e: HeadshotEvent): Headshot
    requires Valid(h.timers)
  {
    match e
    case Click => OnClick(h)
    case FireTimer(id) => OnFire(h, id)
  }

  /** Pixel shows exactly while its reset is pending, and that reset is the one in the ref. */
  predicate Invariant(h: Headshot) {
    && Valid(h.timers)
    && (forall id :: id in h.timers.pending ==> h.timer == Some(id))
    && (h.showPixel <==> h.timers.pending != map[])
  }

  lemma StepKeepsInvariant(h: Headshot, e: HeadshotEvent)
    requires Invariant(h)
    ensures Invariant(Step(h, e))
  {
    var r := Step(h, e);
    if e.Click? && !h.showPixel {
      assert r.timers.pending.Keys == {r.timer.value};
    }
    if e.FireTimer? && e.id in h.timers.pending {
      assert r.timers.pending.Keys == {};
    }
  }

  /** The headshot after a sequence of clicks and timer firings. */
  function Run(h: Headshot, events: seq<HeadshotEvent>): (r: Headshot)
    requires Invariant(h)
    ensures Invariant(r)
    ensures r.showPixel <==> r.timer.Some? && r.timer.value in r.timers.pending
    decreases |events|
  {
    if events == [] then h
    else
      StepKeepsInvariant(h, events[0]);
      Run(Step(h, events[0]), events[1..])
  }

  // ---------------------------------------------------------------------------
  // The rendered layers
  // ---------------------------------------------------------------------------

  /** A layer's opacity (0 or 1) and its inline `scale(...)` transform, None when unset. */
  datatype Layer = Layer(opacity: nat, scale: Option<real>)

  /** What is rendered; the Paris layer is only rendered when a rooftop image source is supplied. */
  datatype View = View(headshot: Layer, pixel: Layer, paris: Option<Layer>, labelOpacity: nat, hoverZoom: bool)

  /** The rooftop overrides the headshot, and Pixel overrides the rooftop. */
  function ParisVisible(showPixel: bool, showParis: bool): (v: bool)
    ensures showPixel ==> !v
    ensures !showPixel ==> (v <==> showParis)
  {
    showParis && !showPixel
  }

  /** The headshot shows only when neither Pixel nor the rooftop does. */
  function HeadshotVisible(showPixel: bool, showParis: bool): (v: bool)
    ensures v <==> !showPixel && !showParis
    ensures v ==> !ParisVisible(showPixel, showParis)
  {
    !showPixel && !ParisVisible(showPixel, showParis)
  }

  function Opacity(visible: bool): nat {
    if visible then 1 else 0
  }

  /** The component's markup for the given state and props. */
  function Render(showPixel: bool, showParis: bool, hasParisImage: bool): (v: View)
    ensures v.paris.Some? <==> hasParisImage
    ensures v.pixel.opacity == 1 <==> showPixel
    ensures v.labelOpacity == v.pixel.opacity
    ensures v.paris.Some? ==> (v.paris.value.opacity == 1 <==> showParis && !showPixel)
    ensures v.headshot.opacity == 1 <==> !showPixel && !showParis
    ensures v.hoverZoom <==> !(showParis && !showPixel)
    ensures showPixel ==> v.headshot.opacity == 0 && (v.paris.Some? ==> v.paris.value.opacity == 0)
  {
    var paris := ParisVisible(showPixel, showParis);
    View(
      Layer(Opacity(HeadshotVisible(showPixel, showParis)), if showPixel then Some(1.08) else None),
      Layer(Opacity(showPixel), Some(if showPixel then 1.0 else 1.08)),
      if hasParisImage then Some(Layer(Opacity(paris), Some(if paris then 1.0 else 1.06))) else None,
      Opacity(showPixel),
      !paris)
  }

  datatype LayerName = HeadshotLayer | PixelLayer | ParisLayer

  /** The layers that are fully opaque. */
  function OpaqueLayers(v: View): set<LayerName> {
    (if v.headshot.opacity == 1 then {HeadshotLayer} else {})
    + (if v.pixel.opacity == 1 then {PixelLayer} else {})
    + (if v.paris.Some? && v.paris.value.opacity == 1 then {ParisLayer} else {})
  }

  /** With a rooftop image supplied, exactly one layer is opaque in every state, and Pixel wins over Paris. */
  lemma ExactlyOneLayerShows(showPixel: bool, showParis: bool)
    ensures var v := Render(showPixel, showParis, true);
            && |OpaqueLayers(v)| == 1
            && (showPixel ==> OpaqueLayers(v) == {PixelLayer})
            && (!showPixel && showParis ==> OpaqueLayers(v) == {ParisLayer})
            && (!showPixel && !showParis ==> OpaqueLayers(v) == {HeadshotLayer})
  {
  }

  /** Without a rooftop image, `showParis` hides the headshot and leaves no layer opaque. */
  lemma ParisWithoutImageShowsNothing()
    ensures OpaqueLayers(Render(false, true, false)) == {}
  {
  }
}
