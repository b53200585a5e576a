/**
 The letter view: an envelope that, once clicked, starts two photo counters
 ticking every four seconds and, eight seconds later, a typewriter that
 reveals the letter one UTF-16 code unit per tick; a "Read Again" button
 resets the view. Timer firings and clicks are discrete events applied in
 order by `Step`. The letter itself is a parameter.
 */
module Letter {
  import Photos

  /** One UTF-16 code unit, the unit JavaScript's `slice` and `length` count. */
  newtype CodeUnit = x: int | 0 <= x < 0x1_0000

  /** Milliseconds between two counter ticks. */
  const CounterTickMs: nat := 4000

  /**
   JavaScript's `%` on integers: the remainder of division truncated toward
   zero, which takes the sign of the dividend.
   */
  function JsRem(a: int, b: int): (r: int)
    requires b > 0
    ensures -b < r < b
    ensures a >= 0 ==> 0 <= r
    ensures a <= 0 ==> r <= 0
    ensures a == b * TruncQuot(a, b) + r
  {
    if a >= 0 then a % b else -((-a) % b)
  }

  /** The quotient rounded toward zero, the partner of `JsRem`. */
  function TruncQuot(a: int, b: int): int
    requires b > 0
  {
    if a >= 0 then a / b else -((-a) / b)
  }

  /** The left image number the debug panel shows for a counter value. */
  function LeftDisplay(count: int): int {
    JsRem(count - 1, Photos.PerCycle) + 1
  }

  /** The right image number the debug panel shows for a counter value. */
  function RightDisplay(count: int): int {
    Photos.TopPhoto - JsRem(count - 1, Photos.PerCycle)
  }

  /** Once a counter has ticked, the left image is one of 1..18 and the right one of 19..36. */
  lemma DisplayRanges(count: int)
    requires count >= 1
    ensures 1 <= LeftDisplay(count) <= Photos.PerCycle
    ensures Photos.PerCycle + 1 <= RightDisplay(count) <= Photos.TopPhoto
    ensures LeftDisplay(count) + RightDisplay(count) == Photos.TopPhoto + 1
  {
  }

  /** Both images repeat every eighteen ticks. */
  lemma DisplayPeriodic(count: int)
    requires count >= 1
    ensures LeftDisplay(count + Photos.PerCycle) == LeftDisplay(count)
    ensures RightDisplay(count + Photos.PerCycle) == RightDisplay(count)
  {
  }

  /** Before the first tick the truncating remainder of -1 is -1, giving 0 and 37, outside both ranges. */
  lemma DisplayBeforeFirstTick()
    ensures LeftDisplay(0) == 0
    ensures RightDisplay(0) == Photos.TopPhoto + 1
  {
  }

  /**
   After `n` ticks the counters name the photos of the `n`-th slide on each
   side: the left and right records at position `n - 1` of their halves.
   */
  lemma DisplayMatchesSlides(photos: seq<Photos.PhotoRecord>, n: nat)
    requires Photos.IsPhotoData(photos)
    requires 1 <= n <= Photos.SideCount
    ensures LeftDisplay(n) == photos[n - 1].displayNumber
    ensures RightDisplay(n) == photos[Photos.SideCount + n - 1].displayNumber
    ensures photos[n - 1].delay == (n - 1) * CounterTickMs
  {
    Photos.LeftFields(photos, n - 1);
    Photos.RightFields(photos, n - 1);
  }

  /** The typewriter interval: not running, or running with its closure index. */
  datatype Typewriter = Idle | Typing(index: nat)

  /**
   The view's state. The first seven fields are the component's state;
   `leftCounters` and `rightCounters` hold the closure counter of every
   counter interval created so far (none is ever cleared), `pendingShowText`
   the number of eight-second timeouts not yet fired, `confettiBursts`
   the number of confetti calls made, and `envelopeLeaving` whether the
   envelope is still on the page in its exit animation, clickable, after
   the letter was opened.
   */
  datatype LetterState = LetterState(
    isOpen: bool,
    showText: bool,
    currentText: seq<CodeUnit>,
    showCursor: bool,
    photoSequenceStarted: bool,
    leftPhotoCount: nat,
    rightPhotoCount: nat,
    leftCounters: seq<nat>,
    rightCounters: seq<nat>,
    pendingShowText: nat,
    typewriter: Typewriter,
    confettiBursts: nat,
    envelopeLeaving: bool)

  const Initial := LetterState(false, false, [], true, false, 0, 0, [], [], 0, Idle, 0, false)

  datatype Event =
    | OpenEnvelope          // a click on the envelope
    | EnvelopeExitEnds      // the envelope's exit animation ends and it leaves the page
    | LeftCounterTick(k: nat)
    | RightCounterTick(k: nat)
    | ShowTextTimeout
    | TypewriterTick
    | ReadAgain

  /** The "Read Again" button is on screen exactly when the letter is open and fully typed. */
  predicate ReadAgainVisible(letter: seq<CodeUnit>, s: LetterState) {
    s.isOpen && s.currentText == letter
  }

  /**
   The envelope takes clicks while it is closed and while it plays its exit
   animation after opening.
   */
  predicate EnvelopeClickable(s: LetterState) {
    !s.isOpen || s.envelopeLeaving
  }

  /**
   Opening the envelope: two fresh counter intervals from 0 and the text
   timeout. The envelope starts its exit animation.
   */
  function Open(s: LetterState): LetterState {
    s.(isOpen := true, photoSequenceStarted := true,
       leftCounters := s.leftCounters + [0], rightCounters := s.rightCounters + [0],
       pendingShowText := s.pendingShowText + 1, envelopeLeaving := true)
  }

  /**
   The "Read Again" handler. Clearing `showText` runs the cleanup of the
   typewriter effect, which clears its interval; the counter intervals are
   left running.
   */
  function Reset(s: LetterState): LetterState {
    s.(isOpen := false, showText := false, currentText := [], showCursor := true,
       photoSequenceStarted := false, leftPhotoCount := 0, rightPhotoCount := 0,
       typewriter := if s.showText then Idle else s.typewriter, envelopeLeaving := false)
  }

  /** One typewriter tick: reveal one more code unit, or stop, hide the cursor and fire confetti. */
  function TypeTick(letter: seq<CodeUnit>, s: LetterState): LetterState {
    match s.typewriter
    case Idle => s
    case Typing(i) =>
      if i < |letter| then
        s.(currentText := letter[..i + 1], typewriter := Typing(i + 1))
      else
        s.(typewriter := Idle, showCursor := false, confettiBursts := s.confettiBursts + 1)
  }

  /** One event. Events the view cannot receive in `s` (a click on a hidden control, a tick of no interval) change nothing. */
  function Step(letter: seq<CodeUnit>, s: LetterState, e: Event): LetterState {
    match e
    case OpenEnvelope =>
      if EnvelopeClickable(s) then Open(s) else s
    case EnvelopeExitEnds =>
      if s.envelopeLeaving then s.(envelopeLeaving := false) else s
    case LeftCounterTick(k) =>
      if k < |s.leftCounters| then
        s.(leftCounters := s.leftCounters[k := s.leftCounters[k] + 1],
           leftPhotoCount := s.leftCounters[k] + 1)
      else s
    case RightCounterTick(k) =>
      if k < |s.rightCounters| then
        s.(rightCounters := s.rightCounters[k := s.rightCounters[k] + 1],
           rightPhotoCount := s.rightCounters[k] + 1)
      else s
    case ShowTextTimeout =>
      if s.pendingShowText == 0 then s
      else if s.showText then s.(pendingShowText := s.pendingShowText - 1)
      else s.(pendingShowText := s.pendingShowText - 1, showText := true, typewriter := Typing(0))
    case TypewriterTick =>
      TypeTick(letter, s)
    case ReadAgain =>
      if ReadAgainVisible(letter, s) then Reset(s) else s
  }

  /**
   What every reachable state keeps: the shown text is a prefix of the
   letter, the typewriter's index is its length, hidden text is empty with no
   typewriter, and the cursor is off only after the whole letter is shown.
   */
  predicate Inv(letter: seq<CodeUnit>, s: LetterState) {
    && |s.currentText| <= |letter|
    && s.currentText == letter[..|s.currentText|]
    && (s.typewriter.Typing? ==> s.showText && s.typewriter.index == |s.currentText| && s.showCursor)
    && (!s.showText ==> s.currentText == [] && s.typewriter == Idle)
    && (!s.showCursor ==> s.showText && s.currentText == letter && s.typewriter == Idle)
  }

  lemma InitialInv(letter: seq<CodeUnit>)
    ensures Inv(letter, Initial)
  {
  }

  lemma StepInv(letter: seq<CodeUnit>, s: LetterState, e: Event)
    requires Inv(letter, s)
    ensures Inv(letter, Step(letter, s, e))
  {
    match e
    case TypewriterTick =>
      if s.typewriter.Typing? && s.typewriter.index < |letter| {
        var i := s.typewriter.index;
        assert letter[..i + 1][..i + 1] == letter[..i + 1];
      }
    case _ =>
  }

  /** The states reached from `s` by the events `es`, in order. */
  function Run(letter: seq<CodeUnit>, s: LetterState, es: seq<Event>): LetterState
    decreases |es|
  {
    if |es| == 0 then s else Run(letter, Step(letter, s, es[0]), es[1..])
  }

  lemma {:induction false} RunInv(letter: seq<CodeUnit>, s: LetterState, es: seq<Event>)
    requires Inv(letter, s)
    ensures Inv(letter, Run(letter, s, es))
    decreases |es|
  {
    if |es| > 0 {
      StepInv(letter, s, es[0]);
      RunInv(letter, Step(letter, s, es[0]), es[1..]);
    }
  }

  /** Every state reachable from the initial one keeps the invariant. */
  lemma ReachableInv(letter: seq<CodeUnit>, es: seq<Event>)
    ensures Inv(letter, Run(letter, Initial, es))
  {
    InitialInv(letter);
    RunInv(letter, Initial, es);
  }

  /** A reveal tick grows the shown text by exactly one code unit, the next one of the letter. */
  lemma RevealTick(letter: seq<CodeUnit>, s: LetterState)
    requires Inv(letter, s) && s.typewriter.Typing? && s.typewriter.index < |letter|
    ensures Step(letter, s, TypewriterTick).currentText == s.currentText + [letter[|s.currentText|]]
    ensures Step(letter, s, TypewriterTick).showCursor
  {
    var n := |s.currentText|;
    assert letter[..n + 1] == letter[..n] + [letter[n]];
  }

  /** `n` typewriter ticks in a row. */
  function TypeTicks(letter: seq<CodeUnit>, s: LetterState, n: nat): LetterState
    decreases n
  {
    if n == 0 then s else TypeTicks(letter, TypeTick(letter, s), n - 1)
  }

  /** While typing, `n` ticks from index `i` show the first `i + n` code units. */
  lemma {:induction false} TypingReveals(letter: seq<CodeUnit>, s: LetterState, n: nat)
    requires Inv(letter, s) && s.typewriter.Typing?
    requires s.typewriter.index + n <= |letter|
    ensures TypeTicks(letter, s, n).currentText == letter[..s.typewriter.index + n]
    ensures TypeTicks(letter, s, n).typewriter == Typing(s.typewriter.index + n)
    ensures TypeTicks(letter, s, n).showCursor
    ensures TypeTicks(letter, s, n).confettiBursts == s.confettiBursts
    decreases n
  {
    if n > 0 {
      StepInv(letter, s, TypewriterTick);
      TypingReveals(letter, TypeTick(letter, s), n - 1);
    }
  }

  /**
   A typewriter started from the empty text shows the whole letter after
   `|letter|` ticks; the next tick stops it, hides the cursor and fires one
   confetti burst, and later ticks change nothing.
   */
  lemma TypingCompletes(letter: seq<CodeUnit>, s: LetterState, extra: nat)
    requires Inv(letter, s) && s.typewriter == Typing(0)
    ensures TypeTicks(letter, s, |letter|).currentText == letter
    ensures var done := TypeTicks(letter, s, |letter| + 1);
              && done.currentText == letter
              && done.typewriter == Idle
              && !done.showCursor
              && done.confettiBursts == s.confettiBursts + 1
              && TypeTicks(letter, done, extra) == done
  {
    TypingReveals(letter, s, |letter|);
    var full := TypeTicks(letter, s, |letter|);
    TypeTicksSplit(letter, s, |letter|, 1);
    IdleTicks(letter, TypeTick(letter, full), extra);
  }

  lemma {:induction false} TypeTicksSplit(letter: seq<CodeUnit>, s: LetterState, m: nat, n: nat)
    ensures TypeTicks(letter, s, m + n) == TypeTicks(letter, TypeTicks(letter, s, m), n)
    decreases m
  {
    if m > 0 {
      TypeTicksSplit(letter, TypeTick(letter, s), m - 1, n);
    }
  }

  lemma {:induction false} IdleTicks(letter: seq<CodeUnit>, s: LetterState, n: nat)
    requires s.typewriter == Idle
    ensures TypeTicks(letter, s, n) == s
    decreases n
  {
    if n > 0 {
      IdleTicks(letter, s, n - 1);
    }
  }

  /** For the two-character text "hi", the ticks show "h", then "hi", then stop. */
  lemma TypingExample(s: LetterState)
    requires s.typewriter == Typing(0) && s.currentText == [] && s.showText && s.showCursor
    ensures TypeTicks([104, 105], s, 1).currentText == [104]
    ensures TypeTicks([104, 105], s, 2).currentText == [104, 105]
    ensures TypeTicks([104, 105], s, 3).typewriter == Idle
    ensures TypeTicks([104, 105], s, 3).confettiBursts == s.confettiBursts + 1
  {
    TypingReveals([104, 105], s, 1);
    TypingReveals([104, 105], s, 2);
    TypingCompletes([104, 105], s, 0);
  }

  /** The empty letter still takes one tick to complete. */
  lemma EmptyLetterOneTick(s: LetterState)
    requires s.typewriter == Typing(0)
    ensures TypeTick([], s).typewriter == Idle
    ensures TypeTick([], s).confettiBursts == s.confettiBursts + 1
  {
  }

  /** In a reachable state the button shows exactly when the open letter shows as many code units as the letter has. */
  lemma ReadAgainIffFullyTyped(letter: seq<CodeUnit>, s: LetterState)
    requires Inv(letter, s)
    ensures ReadAgainVisible(letter, s) <==> s.isOpen && |s.currentText| == |letter|
  {
  }

  /** Every counter tick adds exactly one to its interval's counter and shows the new value. */
  lemma CounterTick(letter: seq<CodeUnit>, s: LetterState, k: nat)
    requires k < |s.leftCounters| && k < |s.rightCounters|
    ensures Step(letter, s, LeftCounterTick(k)).leftPhotoCount == s.leftCounters[k] + 1
    ensures Step(letter, s, LeftCounterTick(k)).leftCounters[k] == s.leftCounters[k] + 1
    ensures Step(letter, s, RightCounterTick(k)).rightPhotoCount == s.rightCounters[k] + 1
    ensures Step(letter, s, RightCounterTick(k)).rightCounters[k] == s.rightCounters[k] + 1
    ensures forall j :: 0 <= j < |s.leftCounters| && j != k ==>
              Step(letter, s, LeftCounterTick(k)).leftCounters[j] == s.leftCounters[j]
    ensures forall j :: 0 <= j < |s.rightCounters| && j != k ==>
              Step(letter, s, RightCounterTick(k)).rightCounters[j] == s.rightCounters[j]
    ensures |Step(letter, s, LeftCounterTick(k)).leftCounters| == |s.leftCounters|
    ensures |Step(letter, s, RightCounterTick(k)).rightCounters| == |s.rightCounters|
    ensures Step(letter, s, LeftCounterTick(k)).rightCounters == s.rightCounters
    ensures Step(letter, s, LeftCounterTick(k)).rightPhotoCount == s.rightPhotoCount
    ensures Step(letter, s, RightCounterTick(k)).leftCounters == s.leftCounters
    ensures Step(letter, s, RightCounterTick(k)).leftPhotoCount == s.leftPhotoCount
  {
  }

  /** `n` ticks of left counter interval `k`. */
  function LeftTicks(letter: seq<CodeUnit>, s: LetterState, k: nat, n: nat): LetterState
    decreases n
  {
    if n == 0 then s else LeftTicks(letter, Step(letter, s, LeftCounterTick(k)), k, n - 1)
  }

  /** Under one interval the left counter runs 1, 2, 3, ... with no gap or repeat. */
  lemma {:induction false} LeftCounterCounts(letter: seq<CodeUnit>, s: LetterState, k: nat, n: nat)
    requires k < |s.leftCounters|
    ensures |LeftTicks(letter, s, k, n).leftCounters| == |s.leftCounters|
    ensures LeftTicks(letter, s, k, n).leftCounters[k] == s.leftCounters[k] + n
    ensures n > 0 ==> LeftTicks(letter, s, k, n).leftPhotoCount == s.leftCounters[k] + n
    decreases n
  {
    if n > 0 {
      LeftCounterCounts(letter, Step(letter, s, LeftCounterTick(k)), k, n - 1);
    }
  }

  /** Opening the envelope from the start: one interval per side, counting from 0. */
  lemma OpenFromInitial(letter: seq<CodeUnit>)
    ensures Step(letter, Initial, OpenEnvelope).leftCounters == [0]
    ensures Step(letter, Initial, OpenEnvelope).rightCounters == [0]
    ensures Step(letter, Initial, OpenEnvelope).isOpen
  {
  }

  /**
   "Read Again" zeroes the visible counters but not the intervals behind
   them: the next tick of an interval shows its own count plus one, not 1.
   */
  lemma ResetKeepsCounters(letter: seq<CodeUnit>, s: LetterState, k: nat)
    requires Inv(letter, s) && ReadAgainVisible(letter, s) && k < |s.leftCounters|
    ensures var r := Step(letter, s, ReadAgain);
              && !r.isOpen && !r.showText && !r.photoSequenceStarted
              && r.currentText == [] && r.showCursor
              && r.leftPhotoCount == 0 && r.rightPhotoCount == 0
              && r.typewriter == Idle
              && r.leftCounters == s.leftCounters && r.rightCounters == s.rightCounters
    ensures Step(letter, Step(letter, s, ReadAgain), LeftCounterTick(k)).leftPhotoCount
            == s.leftCounters[k] + 1
  {
  }

  /**
   A second click on the envelope during its exit animation runs the open
   handler again: two intervals per side and two text timeouts. Once the
   envelope has left the page, a click changes nothing.
   */
  lemma DoubleClickDuringExit(letter: seq<CodeUnit>)
    ensures var r := Step(letter, Step(letter, Initial, OpenEnvelope), OpenEnvelope);
              && r.leftCounters == [0, 0] && r.rightCounters == [0, 0]
              && r.pendingShowText == 2
    ensures var r := Step(letter, Step(letter, Initial, OpenEnvelope), EnvelopeExitEnds);
              Step(letter, r, OpenEnvelope) == r
  {
  }

  /** A click on the envelope opens the letter with one more interval per side exactly when the envelope is clickable. */
  lemma OpenEnvelopeIffClickable(letter: seq<CodeUnit>, s: LetterState)
    ensures EnvelopeClickable(s) ==>
              && Step(letter, s, OpenEnvelope).isOpen
              && Step(letter, s, OpenEnvelope).leftCounters == s.leftCounters + [0]
              && Step(letter, s, OpenEnvelope).rightCounters == s.rightCounters + [0]
              && Step(letter, s, OpenEnvelope).pendingShowText == s.pendingShowText + 1
    ensures !EnvelopeClickable(s) ==> Step(letter, s, OpenEnvelope) == s
  {
  }

  /** Reopening after "Read Again" adds a second interval per side beside the first. */
  lemma ReopenStacksIntervals(letter: seq<CodeUnit>, s: LetterState)
    requires ReadAgainVisible(letter, s)
    ensures var r := Step(letter, Step(letter, s, ReadAgain), OpenEnvelope);
              && r.leftCounters == s.leftCounters + [0]
              && r.rightCounters == s.rightCounters + [0]
  {
  }
}
