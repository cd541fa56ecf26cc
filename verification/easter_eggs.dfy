/**
 Two small easter eggs: the name heading that scrambles and resolves when the
 pointer enters it, and the footer line that reveals a secret on a triple click.

 `Math.random()` is an oracle argument: one value in [0, 1) per character
 position. Animation frames and timers are explicit events.
 */
module EasterEggs {
  import opened Options
  import opened Timers
  import opened RealArith

  const Chars: string := "ABCDEFGHIJKLMNOPQRSTUVWXYZ0123456789!@#$%&*"
  const Original: string := "Allison Crank"
  /** Length of the scramble animation. */
  const ScrambleMillis: real := 900.0

  // ---------------------------------------------------------------------------
  // scramble
  // ---------------------------------------------------------------------------

  /** A value `Math.random()` can return. */
  predicate IsRandom(r: real) {
    0.0 <= r < 1.0
  }

  predicate AllRandom(rnd: seq<real>) {
    forall i :: 0 <= i < |rnd| ==> IsRandom(rnd[i])
  }

  /** `CHARS[Math.floor(r * CHARS.length)]`. */
  function RandomChar(r: real): (c: char)
    requires IsRandom(r)
    ensures c in Chars
  {
    ScaledIndex(r, |Chars|);
    Chars[(r * |Chars| as real).Floor]
  }

  /** `Math.floor(r * n)` for `r` in [0, 1) is an index below `n`. */
  lemma ScaledIndex(r: real, n: nat)
    requires 0.0 <= r < 1.0 && 0 < n
    ensures 0 <= (r * n as real).Floor < n
  {
    var m := n as real;
    NonNegativeProduct(r, m);
    assert m - r * m == (1.0 - r) * m;
    NonNegativeProduct(1.0 - r, m);
  }

  /** `Math.floor(progress * length)`: how many leading positions are shown as they are. */
  function Revealed(progress: real, length: nat): (r: int)
    ensures r as real <= progress * length as real < r as real + 1.0
    ensures 0.0 <= progress ==> 0 <= r
    ensures progress <= 1.0 ==> r <= length
    ensures 1.0 <= progress ==> length <= r
  {
    (progress * length as real).Floor
  }

  /**
   `scramble(target, progress)`: the same length as the target; spaces stay
   spaces, the revealed prefix keeps the target's characters, and every other
   position shows a random character from `CHARS`.
   */
  function Scramble(target: string, progress: real, rnd: seq<real>): (s: string)
    requires |rnd| == |target| && AllRandom(rnd)
    ensures |s| == |target|
    ensures forall i :: 0 <= i < |target| && target[i] == ' ' ==> s[i] == ' '
    ensures forall i :: 0 <= i < |target| && i < Revealed(progress, |target|) ==> s[i] == target[i]
    ensures forall i :: 0 <= i < |target| && target[i] != ' ' && i >= Revealed(progress, |target|) ==> s[i] in Chars
  {
    seq(|target|, i requires 0 <= i < |target| =>
      if target[i] == ' ' then ' '
      else if i < Revealed(progress, |target|) then target[i]
      else RandomChar(rnd[i]))
  }

  /** At full progress nothing is left scrambled, whatever the random values. */
  lemma FullProgressRevealsTarget(target: string, progress: real, rnd: seq<real>)
    requires |rnd| == |target| && AllRandom(rnd)
    requires progress >= 1.0
    ensures Scramble(target, progress, rnd) == target
  {
    var n := |target| as real;
    assert progress * n >= n by {
      assert progress * n - n == (progress - 1.0) * n;
    }
    assert Revealed(progress, |target|) >= |target|;
  }

  /** More progress never reveals fewer characters. */
  lemma RevealedIsMonotone(p: real, q: real, length: nat)
    requires p <= q
    ensures Revealed(p, length) <= Revealed(q, length)
  {
    var n := length as real;
    assert q * n - p * n == (q - p) * n;
    NonNegativeProduct(q - p, n);
  }

  /** The revealed positions do not depend on the random values. */
  lemma RevealedIgnoresRandomness(target: string, progress: real, rnd1: seq<real>, rnd2: seq<real>, i: nat)
    requires |rnd1| == |target| && AllRandom(rnd1)
    requires |rnd2| == |target| && AllRandom(rnd2)
    requires i < |target| && (i < Revealed(progress, |target|) || target[i] == ' ')
    ensures Scramble(target, progress, rnd1)[i] == Scramble(target, progress, rnd2)[i]
  {
  }

  // ---------------------------------------------------------------------------
  // ScrambleName
  // ---------------------------------------------------------------------------

  /** `Math.min(elapsed / DURATION, 1)`. */
  function Progress(elapsed: real): (p: real)
    ensures p <= 1.0
    ensures p < 1.0 <==> elapsed < ScrambleMillis
    ensures 0.0 <= elapsed ==> 0.0 <= p
    ensures elapsed < ScrambleMillis ==> p * ScrambleMillis == elapsed
  {
    if elapsed / ScrambleMillis < 1.0 then elapsed / ScrambleMillis else 1.0
  }

  /** The heading's text, the `active` flag, the start time, and whether a frame is requested. */
  datatype Scrambler = Scrambler(text: string, active: bool, start: real, frameRequested: bool)

  datatype ScrambleEvent =
    | MouseEnter(now: real)
    | Frame(now: real, rnd: seq<real>)

  /** The heading as mounted: the name, no animation, no frame requested. */
  function Idle(): (s: Scrambler)
    ensures ScramblerInvariant(s)
    ensures s.text == Original && !s.active && !s.frameRequested && s.start == 0.0
  {
    Scrambler(Original, false, 0.0, false)
  }

  /** `run`: ignored while an animation is active; otherwise starts one at `now`. */
  function OnEnter(s: Scrambler, now: real): (r: Scrambler)
    ensures s.active ==> r == s
    ensures !s.active ==> r == s.(active := true, start := now, frameRequested := true)
  {
    if s.active then s else s.(active := true, start := now, frameRequested := true)
  }

  /**
   `tick`: shows the scramble for the elapsed time and requests another frame
   while progress is below 1; at progress 1 shows the name and goes idle.
   */
  function OnFrame(s: Scrambler, now: real, rnd: seq<real>): (r: Scrambler)
    requires |rnd| == |Original| && AllRandom(rnd)
    ensures !s.frameRequested ==> r == s
    ensures s.frameRequested ==> r.start == s.start && |r.text| == |Original|
    ensures s.frameRequested ==> (r.frameRequested <==> now - s.start < ScrambleMillis)
    ensures s.frameRequested && now - s.start < ScrambleMillis ==>
              r.active == s.active
              && forall i :: 0 <= i < |Original| && i < Revealed(Progress(now - s.start), |Original|) ==>
                   r.text[i] == Original[i]
    ensures s.frameRequested && now - s.start >= ScrambleMillis ==> r.text == Original && !r.active
  {
    if !s.frameRequested then s
    else
      var progress := Progress(now - s.start);
      var text := Scramble(Original, progress, rnd);
      if progress < 1.0 then s.(text := text)
      else s.(text := Original, active := false, frameRequested := false)
  }

  predicate ValidScrambleEvent(e: ScrambleEvent) {
    e.Frame? ==> |e.rnd| == |Original| && AllRandom(e.rnd)
  }

  function ScrambleStep(s: Scrambler, e: ScrambleEvent): Scrambler
    requires ValidScrambleEvent(e)
  {
    match e
    case MouseEnter(now) => OnEnter(s, now)
    case Frame(now, rnd) => OnFrame(s, now, rnd)
  }

  /** A frame is requested exactly while an animation is active, and an idle heading shows the name. */
  predicate ScramblerInvariant(s: Scrambler) {
    && (s.active <==> s.frameRequested)
    && (!s.active ==> s.text == Original)
    && |s.text| == |Original|
  }

  lemma ScrambleStepKeepsInvariant(s: Scrambler, e: ScrambleEvent)
    requires ScramblerInvariant(s) && ValidScrambleEvent(e)
    ensures ScramblerInvariant(ScrambleStep(s, e))
  {
  }

  /** Once started, the first frame at least 900 ms after the start ends the animation on the name. */
  lemma ScrambleFinishes(s: Scrambler, now: real, rnd: seq<real>)
    requires ScramblerInvariant(s) && s.active
    requires |rnd| == |Original| && AllRandom(rnd)
    requires now - s.start >= ScrambleMillis
    ensures OnFrame(s, now, rnd) == Idle().(start := s.start)
  {
  }

  /** The heading after a sequence of events. */
  function ScrambleRun(s: Scrambler, events: seq<ScrambleEvent>): (r: Scrambler)
    requires ScramblerInvariant(s)
    requires forall i :: 0 <= i < |events| ==> ValidScrambleEvent(events[i])
    ensures ScramblerInvariant(r)
    decreases |events|
  {
    if events == [] then s
    else
      ScrambleStepKeepsInvariant(s, events[0]);
      ScrambleRun(ScrambleStep(s, events[0]), events[1..])
  }

  // ---------------------------------------------------------------------------
  // FooterSecret
  // ---------------------------------------------------------------------------

  /** Clicks further apart than this are not counted together. */
  const ClickWindowMillis: nat := 600
  /** How long the secret stays shown. */
  const RevealMillis: nat := 4000
  const ClicksToReveal: nat := 3

  datatype FooterTimer = ForgetClicks | Hide

  datatype Footer = Footer(clicks: nat, clickTimer: Option<TimerId>, revealed: bool, timers: Queue<FooterTimer>)

  /** The footer as mounted: no clicks counted, no timer held or pending, the secret hidden. */
  function FooterStart(): (f: Footer)
    ensures FooterInvariant(f)
    ensures f.clicks == 0 && f.clickTimer == None && !f.revealed && f.timers.pending == map[]
  {
    Footer(0, None, false, Empty())
  }

  /** The pending timers that will hide the secret. */
  function Hides(f: Footer): set<TimerId> {
    set id | id in f.timers.pending && f.timers.pending[id].action == Hide
  }

  /**
   The handle kept in the ref was issued by the queue and, while it is still
   pending, is the click-window timer.
   */
  predicate RefHoldsWindow(f: Footer) {
    f.clickTimer.Some? ==>
      && f.clickTimer.value < f.timers.next
      && (f.clickTimer.value in f.timers.pending ==> f.timers.pending[f.clickTimer.value].action == ForgetClicks)
  }

  /**
   `handleClick`: counts the click and restarts the 600 ms window; the third
   click resets the count, shows the secret and schedules a 4 s hide, without
   clearing any hide that is already pending.
   */
  function OnClick(f: Footer): (r: Footer)
    requires Valid(f.timers)
    ensures Valid(r.timers) && RefHoldsWindow(r)
    ensures f.clicks + 1 < ClicksToReveal ==> r.clicks == f.clicks + 1 && r.revealed == f.revealed
    ensures f.clicks + 1 >= ClicksToReveal ==> r.clicks == 0 && r.revealed
    ensures r.clickTimer.Some? && r.clickTimer.value !in f.timers.pending && r.clickTimer.value in r.timers.pending
    ensures r.timers.pending[r.clickTimer.value] == Timer(ForgetClicks, ClickWindowMillis)
    ensures RefHoldsWindow(f) && f.clickTimer.Some? ==> f.clickTimer.value !in r.timers.pending
    ensures forall id :: id in r.timers.pending && r.timers.pending[id].action == ForgetClicks ==>
              id == r.clickTimer.value
              || (id in f.timers.pending && f.timers.pending[id].action == ForgetClicks)
    ensures f.clicks + 1 >= ClicksToReveal ==>
              exists id :: id !in f.timers.pending && id in r.timers.pending && r.timers.pending[id] == Timer(Hide, RevealMillis)
  {
    var (q, id) := Schedule(ClearRef(f.timers, f.clickTimer), ForgetClicks, ClickWindowMillis);
    if f.clicks + 1 >= ClicksToReveal then
      var (q', hideId) := Schedule(q, Hide, RevealMillis);
      Footer(0, Some(id), true, q')
    else
      Footer(f.clicks + 1, Some(id), f.revealed, q)
  }

  /**
   A click never removes a pending hide; the revealing click adds exactly one,
   so hides pile up when the secret is revealed again within 4 s.
   */
  lemma ClickKeepsPendingHides(f: Footer)
    requires Valid(f.timers) && RefHoldsWindow(f)
    ensures f.clicks + 1 < ClicksToReveal ==> Hides(OnClick(f)) == Hides(f)
    ensures f.clicks + 1 >= ClicksToReveal ==>
              Hides(f) < Hides(OnClick(f)) && |Hides(OnClick(f))| == |Hides(f)| + 1
  {
    var (q, id) := Schedule(ClearRef(f.timers, f.clickTimer), ForgetClicks, ClickWindowMillis);
    WindowKeepsHides(f, q);
    if f.clicks + 1 >= ClicksToReveal {
      var (q', hideId) := Schedule(q, Hide, RevealMillis);
      HideAddsOne(f.(timers := q), q', hideId);
    }
  }

  /** Restarting the click window neither adds nor removes a hide timer. */
  lemma WindowKeepsHides(f: Footer, q: Queue<FooterTimer>)
    requires Valid(f.timers) && RefHoldsWindow(f)
    requires q == Schedule(ClearRef(f.timers, f.clickTimer), ForgetClicks, ClickWindowMillis).0
    ensures Hides(f.(timers := q)) == Hides(f)
  {
  }

  /** Scheduling a hide timer adds exactly its fresh handle to the hides. */
  lemma HideAddsOne(f: Footer, q: Queue<FooterTimer>, hideId: TimerId)
    requires Valid(f.timers)
    requires (q, hideId) == Schedule(f.timers, Hide, RevealMillis)
    ensures hideId !in Hides(f) && Hides(f.(timers := q)) == Hides(f) + {hideId}
  {
  }

  /** A timer fires: the click window closing forgets the count, a hide hides the secret. */
  function OnFooterFire(f: Footer, id: TimerId): (r: Footer)
    requires Valid(f.timers)
    ensures Valid(r.timers)
    ensures id !in f.timers.pending ==> r == f
    ensures id in f.timers.pending && f.timers.pending[id].action == ForgetClicks ==>
              r == f.(clicks := 0, timers := r.timers) && Hides(r) == Hides(f)
    ensures id in f.timers.pending && f.timers.pending[id].action == Hide ==>
              r == f.(revealed := false, timers := r.timers) && Hides(r) == Hides(f) - {id}
  {
    match Timers.Fire(f.timers, id)
    case None => f
    case Some((timer, q)) =>
      match timer.action
      case ForgetClicks => f.(clicks := 0, timers := q)
      case Hide => f.(revealed := false, timers := q)
  }

  datatype FooterEvent = Click | FooterFire(id: TimerId)

  function FooterStep(f: Footer, e: FooterEvent): Footer
    requires Valid(f.timers)
  {
    match e
    case Click => OnClick(f)
    case FooterFire(id) => OnFooterFire(f, id)
  }

  /**
   Fewer than three clicks are ever counted, and the only pending click-window
   timer is the one in the ref.
   */
  predicate FooterInvariant(f: Footer) {
    && Valid(f.timers)
    && RefHoldsWindow(f)
    && f.clicks < ClicksToReveal
    && forall id :: id in f.timers.pending && f.timers.pending[id].action == ForgetClicks ==>
         f.clickTimer == Some(id)
  }

  lemma FooterStepKeepsInvariant(f: Footer, e: FooterEvent)
    requires FooterInvariant(f)
    ensures FooterInvariant(FooterStep(f, e))
  {
  }

  /** The footer after a sequence of events; from `FooterStart()` the count never reaches three. */
  function FooterRun(f: Footer, events: seq<FooterEvent>): (r: Footer)
    requires FooterInvariant(f)
    ensures FooterInvariant(r)
    decreases |events|
  {
    if events == [] then f
    else
      FooterStepKeepsInvariant(f, events[0]);
      FooterRun(FooterStep(f, events[0]), events[1..])
  }

  /** From a zero count, the third click within the window reveals the secret and the first two do not. */
  lemma ThirdClickReveals(f: Footer)
    requires Valid(f.timers) && f.clicks == 0 && !f.revealed
    ensures !OnClick(f).revealed && !OnClick(OnClick(f)).revealed
    ensures TripleClick(f).revealed && TripleClick(f).clicks == 0
  {
  }

  /** Three clicks in a row within one click window. */
  function TripleClick(f: Footer): (r: Footer)
    requires Valid(f.timers)
    ensures Valid(r.timers)
  {
    OnClick(OnClick(OnClick(f)))
  }

  /**
   The hide timers are never cleared: if a hide from an earlier reveal is
   still pending when the secret is revealed again, it fires first and hides
   the secret, although the new reveal's own hide is still pending.
   */
  lemma EarlierHideCutsLaterRevealShort(f: Footer, id: TimerId)
    requires Valid(f.timers) && RefHoldsWindow(f) && f.clicks == 0
    requires id in Hides(f)
    ensures var again := TripleClick(f);
            && again.revealed
            && id in Hides(again)
            && !OnFooterFire(again, id).revealed
            && Hides(OnFooterFire(again, id)) != {}
  {
    var again := TripleClick(f);
    RevealAddsOneHide(f);
    assert Hides(again) - Hides(f) != {} by {
      if Hides(again) - Hides(f) == {} {
        forall x | x in Hides(again) ensures x in Hides(f) {
          assert x !in Hides(again) - Hides(f);
        }
      }
    }
    var other :| other in Hides(again) - Hides(f);
    FiringOneHideOfTwo(again, id, other);
  }

  lemma FiringOneHideOfTwo(f: Footer, id: TimerId, other: TimerId)
    requires Valid(f.timers) && id in Hides(f) && other in Hides(f) && id != other
    ensures !OnFooterFire(f, id).revealed && other in Hides(OnFooterFire(f, id))
  {
  }

  /** Three clicks from a zero count add one pending hide and keep every earlier one. */
  lemma RevealAddsOneHide(f: Footer)
    requires Valid(f.timers) && RefHoldsWindow(f) && f.clicks == 0
    ensures var r := TripleClick(f);
            RefHoldsWindow(r) && r.clicks == 0 && r.revealed && Hides(f) < Hides(r)
  {
    var one := OnClick(f);
    var two := OnClick(one);
    ClickKeepsPendingHides(f);
    ClickKeepsPendingHides(one);
    ClickKeepsPendingHides(two);
  }
}
