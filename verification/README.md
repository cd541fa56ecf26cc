# Interaction effects of a portfolio site, modelled in Dafny

The site is a personal portfolio whose only logic lives in a few client-side
effects. This project models four of them as small immutable state records
with pure step functions over explicit events, and proves what each promises:

- **DesignerCursor** (`cursor.dfy`): the custom ring cursor. It recognises the
  Konami code and then runs a ten-second rainbow mode, picks a palette colour
  from a frame counter, resizes the ring on hover, and moves it toward the
  pointer by linear interpolation.
- **EasterEggs** (`easter_eggs.dfy`): the scrambling name heading
  (`scramble`, `ScrambleName`) and the triple-click footer secret
  (`FooterSecret`).
- **HeadshotEgg** (`headshot.dfy`): the click-to-show-Pixel headshot that the
  Paris header row renders, and the opacities of its three stacked layers.
- **CrankCta** (`crank_cta.dfy`): the "Visit Crank Studio" transition. It has a
  three-phase radius timeline, label fades, opens the tab once, and removes its
  canvas at the end.

`timers.dfy` holds the shared pieces. `Options` is the `undefined`-or-handle
value kept in timer refs. `Timers` is a queue of pending `setTimeout`
callbacks with fresh handles; clearing a handle removes it, and firing a handle
that is not pending does nothing.

Events replace the browser's scheduling. A pointer move, pointer-over, key
press or click is an event, and so is each animation frame (carrying its
timestamp or elapsed milliseconds where the code reads one) and each timer
firing (carrying its handle). `Math.random()` is an oracle argument: one value
in [0, 1) per character position. Easing curves and interpolation use `real`
arithmetic instead of IEEE doubles.

Two behaviours of the code are worth knowing:

- Each click on the call-to-action starts an independent run with its own
  `openedTab` flag, so two quick clicks open two tabs, one per click
  (`CrankCta.TwoClicksOpenTwoTabs`).
- The restart rule for the key sequence falls back only to progress 0 or 1,
  so a code typed right after one stray `ArrowUp` is missed
  (`DesignerCursor.ExtraArrowUpIsNotRecognised`).

## Model

| member | source | states |
|---|---|---|
| `Timers.Schedule` | src/components/HeadshotEgg.tsx:25 | `setTimeout` returns a handle that is not pending, and adds exactly that timer (action and delay) to the pending ones |
| `Timers.ClearRef` | src/components/HeadshotEgg.tsx:24 | `if (ref) clearTimeout(ref)` removes only the handle held in the ref and keeps every other pending timer unchanged |
| `Timers.Fire` | src/app/DesignerCursor.tsx:31-39 | a timer's callback runs exactly when its handle is still pending, and it then stops being pending |
| `DesignerCursor.Recognise` | src/app/DesignerCursor.tsx:23-44 | after any key the progress is a valid index into the 10-key code. The key completes the code iff progress was 9 and the key is `a`, and then progress returns to 0. An expected key advances progress by one. Any other key sets progress to 1 if it is `ArrowUp`, else 0 |
| `DesignerCursor.ProgressIsMatchedSuffix` | src/app/DesignerCursor.tsx:23-44 | after any key history, the last `progress` keys typed are exactly the first `progress` keys of the code |
| `DesignerCursor.ActivationNeedsWholeCode` | src/app/DesignerCursor.tsx:24-29 | rainbow mode is switched on only by a key that ends a complete typed-out code |
| `DesignerCursor.CodeFromRest` | src/app/DesignerCursor.tsx:24-29 | from progress 0, each key of the code advances progress by one without activating. The tenth key activates once and returns to 0 |
| `DesignerCursor.FeedAppend` | src/app/DesignerCursor.tsx:23-44 | the counter carries no other state: feeding a history and then more keys equals feeding the concatenation |
| `DesignerCursor.CodeAfterHistory` | src/app/DesignerCursor.tsx:23-44 | after any key history that leaves the counter at 0, typing the code adds exactly one activation and returns to 0 |
| `DesignerCursor.CodeTurnsRainbowOnOnce` | src/app/DesignerCursor.tsx:6-29 | on a fresh page, typing the code activates rainbow mode exactly once, on the final key, ending at progress 0 |
| `DesignerCursor.ExtraArrowUpIsNotRecognised` | src/app/DesignerCursor.tsx:41-42 | `ArrowUp` followed by the code ends with the code, yet no prefix of it ever activates rainbow mode |
| `DesignerCursor.Lerp` | src/app/DesignerCursor.tsx:49 | the distance left to the target is multiplied by `1 - n` |
| `DesignerCursor.LerpNoOvershoot` | src/app/DesignerCursor.tsx:49 | for `n` in [0, 1] the result lies between start and target, so the ring never overshoots |
| `DesignerCursor.Chase` | src/app/DesignerCursor.tsx:87-88 | one frame leaves 0.87 of the ring's offset from the pointer on each axis |
| `DesignerCursor.PaletteIndex` | src/app/DesignerCursor.tsx:92-93 | `floor(frame / 4) % 8` is always a valid index into the 8-colour palette |
| `DesignerCursor.PaletteSteps` | src/app/DesignerCursor.tsx:92 | a colour holds for each block of 4 frames. The next block shows the next colour, cyclically, and the cycle repeats every 32 frames |
| `DesignerCursor.Mount` | src/app/DesignerCursor.tsx:10-17 | the initial state satisfies the cursor invariant. Pointer and ring both start at (-200, -200); progress and frame count are 0; rainbow and hover are off; no expiry is held or pending. The ring has the inline rest style of lines 119-125: 34px, glass tint, frosted blur, glass shadow |
| `DesignerCursor.Feed` | src/app/DesignerCursor.tsx:23-44 | feeding no keys changes nothing. After at least one key the progress indexes the code. Each key adds at most one activation |
| `DesignerCursor.OnOver` | src/app/DesignerCursor.tsx:58-77 | a pointer-over whose hover value equals the flag changes nothing. Otherwise only the flag and the ring style change: 44px, hover tint and light blur when hovering; 34px, glass tint and frosted blur otherwise. The style is untouched when the ring is not mounted |
| `DesignerCursor.OnKeyDown` | src/app/DesignerCursor.tsx:23-44 | the new progress is the recogniser's, so every property proved over `Feed` holds for the cursor's counter. A key that does not complete the code changes only the progress. Completing it switches rainbow on and resets progress. It also drops the previously held expiry and adds one fresh 10 s `RainbowOff` timer, held in the ref |
| `DesignerCursor.OnFrame` | src/app/DesignerCursor.tsx:83-101 | every frame counts up. With the ring mounted, the ring takes one chase step toward the pointer. In rainbow mode the ring is 42px with the frame's palette colour as fill and glow. Outside rainbow mode the style is unchanged |
| `DesignerCursor.OnFire` | src/app/DesignerCursor.tsx:31-39 | a cleared timer does nothing. The pending expiry turns rainbow off, restores the glass shadow and the tint for the current hover state, and leaves the size alone |
| `DesignerCursor.Step` | src/app/DesignerCursor.tsx:51-53 | a pointer move (`onMove`) only records the new pointer position. A key press moves the counter as the recogniser does. Every event keeps the timer queue well formed |
| `DesignerCursor.StepKeepsInvariant` | src/app/DesignerCursor.tsx:19-101 | every event keeps progress below 10 and at most one expiry pending (the one in the ref). Rainbow is on exactly while an expiry is pending. Outside rainbow mode the mounted ring shows the plain glass for its hover state |
| `DesignerCursor.Run` | src/app/DesignerCursor.tsx:19-113 | any sequence of events from a state satisfying the invariant ends in one that satisfies it |
| `DesignerCursor.FramesChase` | src/app/DesignerCursor.tsx:83-101 | with the pointer at rest and the ring mounted, `n` animation frames move the ring exactly as `n` chase steps toward the pointer |
| `DesignerCursor.ChaseConverges` | src/app/DesignerCursor.tsx:87-88 | `n` chase steps toward a fixed pointer shrink the ring's offset to exactly `0.87^n` of the original on each axis |
| `DesignerCursor.ExpiryKeepsRainbowSize` | src/app/DesignerCursor.tsx:31-39 | after a rainbow frame, the expiry turns rainbow off but leaves the ring at 42px. That is neither the rest (34px) nor the hover (44px) size |
| `EasterEggs.RandomChar` | src/components/EasterEggs.tsx:14 | `CHARS[floor(r * CHARS.length)]` for `r` in [0, 1) is always a character of `CHARS` |
| `EasterEggs.Scramble` | src/components/EasterEggs.tsx:7-17 | the output has the target's length. Spaces stay spaces. Positions below `floor(progress * length)` keep the target's character. Every other non-space position shows a character of `CHARS` |
| `EasterEggs.Revealed` | src/components/EasterEggs.tsx:12 | the number of revealed characters is the floor of `progress * length`. It is non-negative for non-negative progress, at most the length up to progress 1, and the whole length from progress 1 on |
| `EasterEggs.FullProgressRevealsTarget` | src/components/EasterEggs.tsx:12 | at progress 1 or more the scramble equals the target, whatever the random values |
| `EasterEggs.RevealedIsMonotone` | src/components/EasterEggs.tsx:12 | more progress never reveals fewer leading characters |
| `EasterEggs.RevealedIgnoresRandomness` | src/components/EasterEggs.tsx:11-14 | revealed positions and spaces do not depend on the random values |
| `EasterEggs.Progress` | src/components/EasterEggs.tsx:33 | `min(elapsed / 900, 1)` never exceeds 1. It is below 1 iff elapsed is below 900 ms, and is non-negative for non-negative elapsed time |
| `EasterEggs.Idle` | src/components/EasterEggs.tsx:20-23 | the heading mounts showing the name, not active and with no frame requested, which satisfies the heading's invariant |
| `EasterEggs.OnEnter` | src/components/EasterEggs.tsx:26-30 | `run` changes nothing while an animation is active. Otherwise it marks the heading active, records the start time and requests a frame |
| `EasterEggs.OnFrame` | src/components/EasterEggs.tsx:31-41 | a frame is requested again iff less than 900 ms have elapsed. Meanwhile the text keeps the revealed prefix of the name. From 900 ms on, the text is the name and the heading is no longer active |
| `EasterEggs.ScrambleStepKeepsInvariant` | src/components/EasterEggs.tsx:26-43 | a frame is requested exactly while the heading is active, an idle heading shows the name, and the text always has the name's length |
| `EasterEggs.ScrambleFinishes` | src/components/EasterEggs.tsx:33-40 | the first frame 900 ms or more after the start returns the heading to idle, showing the name |
| `EasterEggs.ScrambleRun` | src/components/EasterEggs.tsx:26-43 | any sequence of `mouseenter` events and frames, starting from a state that satisfies the heading's invariant (such as `Idle()`), ends in a state that satisfies it |
| `EasterEggs.OnClick` | src/components/EasterEggs.tsx:65-75 | a click adds one to the count. On reaching 3 the count resets to 0 and the secret is revealed. It also replaces the click-window timer in the ref with a fresh 600 ms `ForgetClicks` timer. The revealing click also schedules a fresh 4000 ms `Hide` timer |
| `EasterEggs.ClickKeepsPendingHides` | src/components/EasterEggs.tsx:67-73 | a click never removes a pending hide timer; the revealing click adds exactly one |
| `EasterEggs.FooterStart` | src/components/EasterEggs.tsx:61-63 | the footer mounts with the count at 0, no timer held or pending and the secret hidden, which satisfies the footer's invariant |
| `EasterEggs.OnFooterFire` | src/components/EasterEggs.tsx:68-73 | a cleared timer does nothing; the click window closing resets the count; a hide timer hides the secret |
| `EasterEggs.FooterStepKeepsInvariant` | src/components/EasterEggs.tsx:65-75 | after any click or timer the count is at most 2, and the only pending click-window timer is the one in the ref |
| `EasterEggs.FooterRun` | src/components/EasterEggs.tsx:65-75 | any sequence of clicks and timer firings from a state that satisfies the footer's invariant ends in one that satisfies it. From `FooterStart()` the count is therefore at most 2 after any events |
| `EasterEggs.ThirdClickReveals` | src/components/EasterEggs.tsx:66-72 | from a zero count, the first two clicks do not reveal the secret and the third does, resetting the count |
| `EasterEggs.RevealAddsOneHide` | src/components/EasterEggs.tsx:70-73 | three clicks from a zero count reveal the secret and add a hide timer, keeping every earlier one |
| `EasterEggs.FiringOneHideOfTwo` | src/components/EasterEggs.tsx:73 | with two hide timers pending, firing one hides the secret and leaves the other pending |
| `EasterEggs.EarlierHideCutsLaterRevealShort` | src/components/EasterEggs.tsx:73 | a hide timer left from an earlier reveal is not cleared by a new reveal. When it fires, it hides the new reveal while the new reveal's own hide is still pending |
| `HeadshotEgg.OnClick` | src/components/HeadshotEgg.tsx:21-26 | a click while Pixel shows changes nothing. Otherwise Pixel shows, the previously held timer is dropped, and exactly one fresh 2200 ms `HidePixel` timer is added and held in the ref |
| `HeadshotEgg.OnFire` | src/components/HeadshotEgg.tsx:25 | a cleared timer does nothing; the pending reset hides Pixel |
| `HeadshotEgg.Initial` | src/components/HeadshotEgg.tsx:18-19 | the headshot mounts with Pixel hidden and no timer held or pending, which satisfies the invariant |
| `HeadshotEgg.StepKeepsInvariant` | src/components/HeadshotEgg.tsx:21-26 | Pixel shows exactly while one reset is pending, and that reset is the one in the ref |
| `HeadshotEgg.Run` | src/components/HeadshotEgg.tsx:21-26 | any sequence of clicks and timer firings from a state that satisfies the invariant (such as `Initial()`) ends in one that satisfies it, so Pixel shows exactly while the reset held in the ref is pending |
| `HeadshotEgg.ParisVisible` | src/components/HeadshotEgg.tsx:28-29 | the rooftop shows iff `showParis` is set, except that Pixel always hides it |
| `HeadshotEgg.HeadshotVisible` | src/components/HeadshotEgg.tsx:30-31 | the headshot shows iff neither Pixel nor `showParis` is on, and never together with the rooftop |
| `HeadshotEgg.Render` | src/components/HeadshotEgg.tsx:29-86 | the Paris layer is rendered iff a rooftop image is supplied, and is opaque iff `showParis && !showPixel`. The headshot is opaque iff neither flag is set. Pixel and its label are opaque iff `showPixel`. While Pixel shows, neither the headshot nor the rooftop is opaque. The hover zoom applies iff the rooftop is not visible |
| `HeadshotEgg.ExactlyOneLayerShows` | src/components/HeadshotEgg.tsx:29-76 | with a rooftop image, exactly one of headshot, Pixel and rooftop is opaque for every pair of flags, and Pixel overrides the rooftop |
| `HeadshotEgg.ParisWithoutImageShowsNothing` | src/components/HeadshotEgg.tsx:29-69 | with `showParis` set and no rooftop image, no layer is opaque |
| `CrankCta.EaseOutCubic` | src/components/CrankCTAButton.tsx:4 | `1 - (1 - t)^3` fixes 0 and 1, maps [0, 1] into [0, 1], is at most 1 for `t <= 1` and negative for `t < 0` |
| `CrankCta.EaseInCubic` | src/components/CrankCTAButton.tsx:5 | `t^3` fixes 0 and 1, maps [0, 1] into [0, 1], is non-negative for `t >= 0` and exceeds 1 beyond 1 |
| `CrankCta.EasingIsMonotone` | src/components/CrankCTAButton.tsx:4-5 | both easing curves are non-decreasing |
| `CrankCta.RadiusT` | src/components/CrankCTAButton.tsx:56-59 | the radius factor is at most 1 and in [0, 1] over the 1270 ms timeline. It is exactly 1 on [600, 850] and 0 at 0 and at 1270 ms. It is negative before 0 and after 1270 ms |
| `CrankCta.RadiusRisesThenFalls` | src/components/CrankCTAButton.tsx:56-59 | the radius factor is non-decreasing up to 850 ms and non-increasing from 850 ms on |
| `CrankCta.Radius` | src/components/CrankCTAButton.tsx:61 | `maxR * max(radiusT, 0)` lies in [0, maxR]. It equals `maxR` during the hold, and is 0 at or before the click and at or after 1270 ms |
| `CrankCta.BlobScale` | src/components/CrankCTAButton.tsx:73 | `min(radiusT * 1.5, 1)` is at most 1, non-negative over the timeline, and 1 once `radiusT` reaches 2/3 |
| `CrankCta.LabelIn` | src/components/CrankCTAButton.tsx:98 | once the label is drawn, the fade-in factor lies in (0, 1] and is 1 from 610 ms on |
| `CrankCta.LabelOut` | src/components/CrankCTAButton.tsx:99-100 | the fade-out factor lies in [0, 1]. It is 1 up to 850 ms and 0 from 1030 ms on |
| `CrankCta.LabelAlpha` | src/components/CrankCTAButton.tsx:96-101 | the label is drawn iff elapsed exceeds 390 ms. Its alpha lies in [0, 0.48]. It is 0.48 on [610, 850] and 0 from 1030 ms on |
| `CrankCta.OnFrame` | src/components/CrankCTAButton.tsx:112-121 | a frame opens the tab iff none was opened and elapsed exceeds 330 ms, adding exactly one `window.open`. Another frame is requested iff elapsed is below 1270 ms, otherwise the canvas is removed. Without a pending frame nothing happens |
| `CrankCta.Play` | src/components/CrankCTAButton.tsx:112-124 | the frame loop with no frames changes nothing. Frames never decrease the number of opens, never close an opened tab, and never reattach a removed canvas |
| `CrankCta.OnFrameKeepsInvariant` | src/components/CrankCTAButton.tsx:112-121 | at most one `window.open`, recorded by `openedTab`. Frames are requested exactly while the canvas is attached, and a removed canvas implies the tab was opened |
| `CrankCta.PlayKeepsInvariant` | src/components/CrankCTAButton.tsx:50-124 | the same invariant holds after any sequence of frames |
| `CrankCta.PlayAfterLastFrame` | src/components/CrankCTAButton.tsx:117-121 | once no frame is requested, further frames change nothing |
| `CrankCta.OpensIffLateFrame` | src/components/CrankCTAButton.tsx:112-115 | from the start, the tab is open after a run of frames iff some frame came after 330 ms, and then exactly one `window.open` happened |
| `CrankCta.OpenStaysOpen` | src/components/CrankCTAButton.tsx:112 | once opened, later frames never open again |
| `CrankCta.RemovedIffFinalFrame` | src/components/CrankCTAButton.tsx:117-121 | the canvas is removed after a run of frames iff some frame came at or after 1270 ms |
| `CrankCta.OpensOnFirstLateFrame` | src/components/CrankCTAButton.tsx:112-115 | the tab opens on the first frame past 330 ms and not before |
| `CrankCta.RemovalMeansOpenedOnce` | src/components/CrankCTAButton.tsx:112-121 | whenever the canvas has been removed, exactly one `window.open` has happened |
| `CrankCta.SteadyFramesFinish` | src/components/CrankCTAButton.tsx:117-121 | frames at 0, `d`, 2`d`, … up to a first `n·d` of at least 1270 ms stop the loop, remove the canvas and open the tab exactly once |
| `CrankCta.PageStep` | src/components/CrankCTAButton.tsx:50-53 | a click appends a fresh run started at its own time. A frame ticks every run with its own elapsed time and keeps every run's start |
| `CrankCta.PageStepKeepsInvariant` | src/components/CrankCTAButton.tsx:50-121 | every run keeps the one-open invariant through clicks and frames |
| `CrankCta.AtMostOneTabPerClick` | src/components/CrankCTAButton.tsx:50 | over all runs, there are never more `window.open` calls than clicks |
| `CrankCta.TwoClicksOpenTwoTabs` | src/components/CrankCTAButton.tsx:50-51 | two clicks 10 ms apart followed by a frame at 400 ms open two tabs, one per click |

## Left out

- Canvas drawing is not modelled: gradients, blob orbits (`cos`/`sin`), the DPR sizing and the `sqrt` for the largest radius in `CrankCTAButton.tsx`. The largest radius is a non-negative parameter of `CrankCta.Radius`.
- No page renders `CrankCTAButton`; the home page uses a plain link for the call-to-action (src/app/page.tsx:251), so no caller is modelled.
- Style strings are abstracted to datatypes: ring fill, glow, backdrop, size, layer opacity and `scale(...)` values. The `borderColor` reset on rainbow expiry has no counterpart, because the border colour is never set anywhere else.
- `isInteractive` (`Element.closest`) is the boolean carried by the `Over` event.
- Mount and unmount effects are left out: hiding the system cursor, adding and removing listeners, and cancelling frames and timers on teardown.
- React's asynchronous state updates are taken as immediate. Two `mouseenter` events landing before a re-render could both pass the `active` guard; this is not modelled.
- Real time is not modelled. A timer fires when the environment delivers its `Fire` event, so "10 s later" appears only as the delay stored with the timer.
- IEEE double rounding is not modelled: lerp, easing and progress use exact reals. `Math.floor` of a real is Dafny's `Floor`.
- `Math.random` is the oracle sequence. The model gives every position a value, while the code draws one only for positions that are scrambled.
- `ParisConfetti`, `MagneticText`, `ScrollAnimations`, `ParisHeaderRow`, the page markup, metadata, print and email buttons, and the OG-image script are not part of this model.
- `EasterEggs.Scramble`: counts and indexes Unicode characters, while `split('')` and `length` count UTF-16 code units. The two agree on the ASCII name, which is the only text scrambled.
- `EasterEggs.OnFrame`: states the revealed prefix and the length of the frame's text. The rest of the text is described by `EasterEggs.Scramble`'s own contract and is not restated.
