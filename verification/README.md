# Birthday greeting app: timer and sequencing logic in Dafny

This project models the logic core of a single-page birthday greeting app:

- the countdown view's arithmetic (`src/app/components/Countdown.jsx`);
- the letter view's photo-slide generator, typewriter, photo counters and
  "Read Again" reset (`src/app/components/Letter.jsx`);
- the page's screen sequencer (`src/app/page.jsx`).

The model leaves out clocks and timers. The clock reading `now` and the
birthday instant are integer milliseconds given as parameters. Each timeout
or interval firing, each click and each run of an effect is a discrete event.
A `Step` function applies events to an immutable state record, one at a time.

| file | module | models |
|---|---|---|
| `countdown.dfy` | `Countdown` | splitting a distance into days, hours, minutes and seconds; the seconds total; the four messages; the update and the effect that schedules it |
| `photos.dfy` | `Photos` | the 36,000 photo-slide records: ids, sources, index, delay, photo number |
| `letter.dfy` | `Letter` | the letter view as a state machine: envelope, counter intervals, text timeout, typewriter, reset; JavaScript's truncating `%` in the display formulas |
| `screens.dfy` | `Screens` | the page as a state machine over `currentScreen`, `isLoading`, `isBirthdayOver` and pending jump timeouts |
| `decimal.dfy` | `Decimal` | writing a non-negative integer in decimal, as a template literal does; used by the record ids |

Behaviour of the code worth knowing:

- The screen index is not advance-only. The completion handler
  (`src/app/page.jsx:25-31`) schedules a one-second timeout that always sets
  screen 1; the comment at `src/app/page.jsx:27-29` calls it a delay before
  the celebration. If the user has already reached screen 2 or 3 when it
  fires, the page moves back (`Screens.JumpBackFromLetter`).
- "Read Again" does not cancel the photo counter intervals; the comment at
  `src/app/components/Letter.jsx:139` says they run without end. After a
  reset, a counter's next tick shows the old count plus one, not 1. Reopening
  the envelope adds a second interval per side (`Letter.ResetKeepsCounters`,
  `Letter.ReopenStacksIntervals`).
- The envelope keeps its click handler during its half-second exit animation
  (`src/app/components/Letter.jsx:228-240`). A second click in that window
  opens the letter again, starting a second pair of counter intervals and a
  second text timeout (`Letter.DoubleClickDuringExit`).
- An empty letter takes one typewriter tick to complete, not zero
  (`Letter.EmptyLetterOneTick`).
- The countdown calls its completion callback on every update whose distance
  is not positive, and the handler has no guard against being called twice.
  Each call schedules another jump (`Countdown.Update` counts the calls,
  `Screens.TwoJumpsPending` shows two jumps pending).
- The loader does not always lead to screen 0. The auto-skip effect runs while
  the loader is up, so a birthday already over moves the page to screen 1 first.

## Model

| member | source | states |
|---|---|---|
| `Countdown.Decompose` | src/app/components/Countdown.jsx:30-33 | for a positive distance: days is the distance divided by 86,400,000; hours, minutes and seconds are within 0..23, 0..59 and 0..59; the recomposed milliseconds are at most the distance and less than one second below it |
| `Countdown.DecomposeUnique` | src/app/components/Countdown.jsx:30-33 | a record is the split of a distance exactly when its fields are in range and its milliseconds lie within one second below the distance, so the split drops only sub-second milliseconds |
| `Countdown.DecomposeExample` | src/app/components/Countdown.jsx:30-33 | 90,061,000 ms splits into 1 day, 1 hour, 1 minute, 1 second |
| `Countdown.TotalTimeOfDecompose` | src/app/components/Countdown.jsx:56-59 | the seconds total of a split positive distance equals the distance divided by 1000 |
| `Countdown.DecomposeMonotone` | src/app/components/Countdown.jsx:30-33 | for 0 < d1 <= d2, the split of d1 is lexicographically at most the split of d2 |
| `Countdown.MessageBoundaries` | src/app/components/Countdown.jsx:156-159 | the thresholds are strict: 86400 s gives "hours", 3600 s gives "minutes", 60 s gives "seconds" |
| `Countdown.MessageForDistance` | src/app/components/Countdown.jsx:156-159 | for a positive distance, each of the four messages appears exactly on its own range of milliseconds |
| `Countdown.Update` | src/app/components/Countdown.jsx:17-36 | a distance that is not positive gives the all-zero record, marks the countdown inactive and adds one callback call when a callback is given; a positive distance gives an in-range record bracketing the distance and leaves the active flag and the call count alone |
| `Countdown.TotalTimeAfterUpdate` | src/app/components/Countdown.jsx:56-59 | after an update the seconds total is the whole seconds of a positive distance, and 0 once complete |
| `Countdown.UpdateNeverIncreases` | src/app/components/Countdown.jsx:17-36 | a later clock reading never shows a larger seconds total |
| `Countdown.RunEffect` | src/app/components/Countdown.jsx:38-45 | each run of the effect computes the record at once, and schedules the one-second interval exactly when the state it ran with was active |
| `Countdown.MountUpdatesImmediately` | src/app/components/Countdown.jsx:8-45 | from the all-zero, active initial state, the first effect shows the right record before any tick and schedules the interval; a past target completes at once with one callback call |
| `Countdown.InactiveSchedulesNothing` | src/app/components/Countdown.jsx:41-45 | an effect run with the countdown inactive schedules no interval |
| `Photos.GeneratePhotoData` | src/app/components/Letter.jsx:73-111 | the loops produce 36,000 records; position k is given directly by its cycle and slot; the first 18,000 are left ('L') records and the last 18,000 right ('R') records |
| `Photos.LeftFields` | src/app/components/Letter.jsx:78-91 | left record k has index k, delay index * 4000, photo number k mod 18 + 1 in 1..18, and cycle k div 18 |
| `Photos.LeftDelaysStep` | src/app/components/Letter.jsx:84-85 | consecutive left delays rise by exactly 4000 ms |
| `Photos.RightFields` | src/app/components/Letter.jsx:94-108 | right record k of its half shows photo 36 - k mod 18 in 19..36, has index k + 18, and has the same delay as left record k |
| `Photos.RightDescending` | src/app/components/Letter.jsx:95-96 | within a cycle the right photo numbers count down by one |
| `Photos.IndexCollision` | src/app/components/Letter.jsx:84-101 | index is not unique: right record k has the index of left record k + 18, a different position |
| `Photos.IdsDistinct` | src/app/components/Letter.jsx:78-108 | all 36,000 ids are pairwise distinct |
| `Letter.JsRem` | src/app/components/Letter.jsx:372-373 | JavaScript's `%`: the result lies strictly between -b and b, has the sign of the dividend, and the dividend is b times the truncated quotient plus the result |
| `Letter.DisplayRanges` | src/app/components/Letter.jsx:372-373 | for a count of at least 1, the left image is in 1..18, the right image in 19..36, and the two add up to 37 |
| `Letter.DisplayPeriodic` | src/app/components/Letter.jsx:372-373 | both image numbers repeat every 18 counts |
| `Letter.DisplayBeforeFirstTick` | src/app/components/Letter.jsx:372-373 | at count 0 the truncating remainder gives images 0 and 37 |
| `Letter.DisplayMatchesSlides` | src/app/components/Letter.jsx:372-373 | after n ticks the displayed images are the photo numbers of the left and right records at position n - 1, whose slide starts at (n - 1) * 4000 ms |
| `Letter.StepInv` | src/app/components/Letter.jsx:153-174 | every event keeps the invariant: the shown text is a prefix of the letter, the typewriter index is its length, hidden text is empty, and the cursor is off only when the whole letter is shown |
| `Letter.ReachableInv` | src/app/components/Letter.jsx:63-184 | every state reachable from the initial one keeps that invariant |
| `Letter.RevealTick` | src/app/components/Letter.jsx:157-159 | a reveal tick appends exactly the next code unit of the letter |
| `Letter.TypingReveals` | src/app/components/Letter.jsx:155-159 | n ticks from index i show the first i + n code units, with the cursor on and no confetti |
| `Letter.TypingCompletes` | src/app/components/Letter.jsx:156-170 | from the empty text, the whole letter shows after its length in ticks; the next tick stops the interval, hides the cursor and fires one confetti burst; later ticks change nothing |
| `Letter.TypingExample` | src/app/components/Letter.jsx:156-170 | a two-unit text "hi" shows "h", then "hi", then stops with one burst |
| `Letter.EmptyLetterOneTick` | src/app/components/Letter.jsx:157-168 | an empty letter completes on its first tick |
| `Letter.ReadAgainIffFullyTyped` | src/app/components/Letter.jsx:309 | in a reachable state the button shows exactly when the open letter shows as many code units as the letter has |
| `Letter.CounterTick` | src/app/components/Letter.jsx:136-146 | a counter tick adds exactly one to its interval's closure counter and shows the new value; every other interval of the same side, the other side's counters and the other side's shown count stay unchanged |
| `Letter.LeftCounterCounts` | src/app/components/Letter.jsx:133-140 | n ticks of one interval raise its counter by n and show the last value, so the count runs 1, 2, 3, ... with no gap |
| `Letter.OpenFromInitial` | src/app/components/Letter.jsx:128-151 | opening the envelope from the start opens the letter and starts one counter interval per side at 0 |
| `Letter.ResetKeepsCounters` | src/app/components/Letter.jsx:176-184 | "Read Again" clears the text, turns the cursor on, zeroes both visible counters, clears the open, text and photo flags, and stops the typewriter; the counter intervals keep their counts, so the next tick shows the old count plus one |
| `Letter.ReopenStacksIntervals` | src/app/components/Letter.jsx:128-146 | reopening after a reset adds a new interval per side beside the old one |
| `Letter.OpenEnvelopeIffClickable` | src/app/components/Letter.jsx:128-151 | a click on the envelope opens the letter, adds one counter interval per side and one text timeout exactly when the envelope is closed or still in its exit animation, and otherwise changes nothing |
| `Letter.DoubleClickDuringExit` | src/app/components/Letter.jsx:228-240 | a second click during the envelope's exit animation runs the open handler again, leaving two intervals per side and two text timeouts; after the envelope has left, a click does nothing |
| `Screens.Init` | src/app/page.jsx:13-22 | the page starts on screen 0, loading, with no jump pending and no countdown mounted yet, and the birthday counts as over exactly when now >= target |
| `Screens.NextTarget` | src/app/page.jsx:47-67 | a "next" target is absent exactly for the loader, the countdown and the letter, and is otherwise one of the screens 1..3 |
| `Screens.StepInv` | src/app/page.jsx:25-67 | every event keeps the screen index in 0..3, a pending jump implies the birthday is over, and a countdown on screen is recorded as mounted |
| `Screens.ReachableScreens` | src/app/page.jsx:47-67 | every reachable state has its screen index in 0..3 |
| `Screens.LoaderTimeoutOnlyLoading` | src/app/page.jsx:33-38 | the loader timeout clears the loading flag and leaves the screen index, the birthday flag and the pending jumps unchanged |
| `Screens.LoadingMonotone` | src/app/page.jsx:33-38 | once loading is over it never comes back |
| `Screens.BirthdayOverMonotone` | src/app/page.jsx:20-31 | the birthday flag is only ever set to true, so once over it stays over |
| `Screens.AutoSkipLeavesScreenZero` | src/app/page.jsx:41-45 | with the birthday over on screen 0, the effect moves to screen 1 and changes nothing else |
| `Screens.AutoSkipOtherwiseIdle` | src/app/page.jsx:41-45 | in every other reachable state the effect changes nothing |
| `Screens.ScreenZeroView` | src/app/page.jsx:49-60 | once loaded, screen 0 shows the countdown exactly when the birthday is not over, and the celebration exactly when it is |
| `Screens.NextTargets` | src/app/page.jsx:56-66 | celebration goes to 1, happy birthday to 2, gallery to 3; the countdown and the letter have no "next" |
| `Screens.OnlyJumpLeavesLetter` | src/app/page.jsx:25-66 | only a pending jump timeout moves the page off screen 3, and it moves it to screen 1 |
| `Screens.CountdownCompleteSchedulesJump` | src/app/page.jsx:25-31 | each completion call by a countdown that is or was on screen sets the birthday flag and schedules one more jump without moving the screen yet |
| `Screens.TwoJumpsPending` | src/app/page.jsx:25-31 | a concrete run in which the countdown calls the handler twice leaves two jumps pending: nothing guards against a repeated call |
| `Screens.JumpBackFromLetter` | src/app/page.jsx:25-31 | a concrete run reaches screen 3 before the jump fires, and the jump moves it back to 1, so the screen index is not monotone |

## Left out

- Rendering: JSX, styling, the animation props, the icons and `SlidingImage`. `SlidingImage` is only visual and depends on the window height.
- Confetti: the library's internals are left out. Each call is counted as one burst.
- Clocks: wall-clock reads and the `Date` parsing of the birthday string are left out. `now` and the target are integer milliseconds.
- JavaScript numbers: they are modelled as unbounded integers. `Math.floor` of a quotient is integer division, exact in the positive-distance branch.
- React effects: dependency-identity reruns are left out. A fresh date object and an inline callback on every render can rerun the effect. Batching and unmount order are also left out. `Countdown.RunEffect` models a single run. On the page, a countdown that has been on screen may call the completion callback any number of times and at any later point (`Screens.Step`), which covers every rerun order React could produce and admits some it could not.
- Timers: real concurrency is left out. Each timer firing is one event, and events are applied one at a time, in any order the caller chooses. The durations (the 1-second countdown tick, the 4-second loader, the 1-second jump delay, the 30-millisecond typewriter tick, the 8-second text delay) therefore do not appear; only the 4-second counter period enters a formula (`Letter.DisplayMatchesSlides`).
- Other components: Loader, Celebration, HappyBirthday and PhotoGallery are not part of this model, apart from the "next" targets the page gives them.
- The letter's text: it is an opaque parameter, a sequence of UTF-16 code units.
- Debug panels: the development-only panels and the test button are left out. Only their two image-number formulas are modelled.
- `Letter.Step` and `Screens.Step`: a click on a control that is neither on screen nor leaving it, or a tick of an interval that does not exist, leaves the state unchanged; the app cannot deliver such an event. The envelope and the countdown stay active while they leave the screen. For the other controls the exit animation is not modelled, so a click on one while it is leaving is not modelled either.
