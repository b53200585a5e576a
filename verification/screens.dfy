/**
 The page's screen sequencer: which screen is current, whether the loader
 is still shown, and whether the birthday is over. Timer firings, the
 countdown's completion callback, the auto-skip effect and each screen's
 "next" callback are discrete events applied in order by `Step`.
 */
module Screens {

  /** The last screen, the letter. */
  const LastScreen: nat := 3

  /** What the page shows. */
  datatype View = Loader | CountdownView | Celebration | HappyBirthday | PhotoGallery | LetterView

  /**
   The page's state: its three state variables, the number of one-second
   jump timeouts scheduled by the completion handler and not yet fired, and
   whether the countdown has been on screen (only a countdown that has been
   mounted can call the completion handler).
   */
  datatype AppState = AppState(
    currentScreen: int,
    isLoading: bool,
    isBirthdayOver: bool,
    pendingJumps: nat,
    countdownMounted: bool)

  datatype Event =
    | LoaderTimeout       // the four-second loader timeout
    | CountdownComplete   // the countdown calls its completion callback
    | JumpTimeout         // a one-second timeout of the completion handler fires
    | AutoSkip            // the effect watching the birthday flag and the screen runs
    | Next                // the current screen calls its "next" callback

  /** The state at mount, given the clock reading and the birthday instant in milliseconds. */
  function Init(now: int, target: int): (s: AppState)
    ensures s.currentScreen == 0 && s.isLoading && s.pendingJumps == 0 && !s.countdownMounted
    ensures s.isBirthdayOver <==> now >= target
  {
    AppState(0, true, now >= target, 0, false)
  }

  /** The view on screen. Screen 0 is the countdown before the birthday and the celebration after it. */
  function Rendered(s: AppState): View {
    if s.isLoading then Loader
    else if s.currentScreen == 0 then (if !s.isBirthdayOver then CountdownView else Celebration)
    else if s.currentScreen == 1 then HappyBirthday
    else if s.currentScreen == 2 then PhotoGallery
    else LetterView
  }

  /** Where a view's "next" callback goes. */
  datatype Target = NoNext | GoesTo(screen: nat)

  /** The screen a view's "next" callback sets, when it has one. The countdown and the letter have none. */
  function NextTarget(v: View): (r: Target)
    ensures r.GoesTo? ==> 1 <= r.screen <= LastScreen
    ensures r.NoNext? <==> v in {Loader, CountdownView, LetterView}
  {
    match v
    case Celebration => GoesTo(1)
    case HappyBirthday => GoesTo(2)
    case PhotoGallery => GoesTo(3)
    case _ => NoNext
  }

  /** The completion handler: mark the birthday over and schedule the jump. */
  function CompleteCountdown(s: AppState): AppState {
    s.(isBirthdayOver := true, pendingJumps := s.pendingJumps + 1)
  }

  /**
   The effect of one event on the page's variables. Events that cannot occur
   in `s` (no pending timer, no such callback on screen, a countdown never
   mounted) change nothing. A countdown that has been mounted may call the
   completion handler again at any later point: it calls it on every update
   past the target, including the rerun of its effect after it goes
   inactive and updates made while it is still leaving the screen.
   */
  function Apply(s: AppState, e: Event): AppState {
    match e
    case LoaderTimeout =>
      if s.isLoading then s.(isLoading := false) else s
    case CountdownComplete =>
      if Rendered(s) == CountdownView || s.countdownMounted then CompleteCountdown(s) else s
    case JumpTimeout =>
      if s.pendingJumps > 0 then s.(currentScreen := 1, pendingJumps := s.pendingJumps - 1) else s
    case AutoSkip =>
      if s.isBirthdayOver && s.currentScreen == 0 then s.(currentScreen := 1) else s
    case Next =>
      match NextTarget(Rendered(s))
      case GoesTo(t) => s.(currentScreen := t)
      case NoNext => s
  }

  /** Records that the countdown is on screen. */
  function NoteMount(s: AppState): AppState {
    s.(countdownMounted := s.countdownMounted || Rendered(s) == CountdownView)
  }

  /** One event, then the page renders. */
  function Step(s: AppState, e: Event): AppState {
    NoteMount(Apply(s, e))
  }

  /** The states reached from `s` by the events `es`, in order. */
  function Run(s: AppState, es: seq<Event>): AppState
    decreases |es|
  {
    if |es| == 0 then s else Run(Step(s, es[0]), es[1..])
  }

  /** What every reachable state keeps. */
  predicate Inv(s: AppState) {
    && 0 <= s.currentScreen <= LastScreen
    && (s.pendingJumps > 0 ==> s.isBirthdayOver)
    && (Rendered(s) == CountdownView ==> s.countdownMounted)
  }

  lemma StepInv(s: AppState, e: Event)
    requires Inv(s)
    ensures Inv(Step(s, e))
  {
  }

  lemma {:induction false} RunInv(s: AppState, es: seq<Event>)
    requires Inv(s)
    ensures Inv(Run(s, es))
    decreases |es|
  {
    if |es| > 0 {
      StepInv(s, es[0]);
      RunInv(Step(s, es[0]), es[1..]);
    }
  }

  /** Every reachable screen index is one of 0, 1, 2, 3. */
  lemma ReachableScreens(now: int, target: int, es: seq<Event>)
    ensures 0 <= Run(Init(now, target), es).currentScreen <= LastScreen
    ensures Run(Init(now, target), es).pendingJumps > 0 ==> Run(Init(now, target), es).isBirthdayOver
  {
    RunInv(Init(now, target), es);
  }

  /** The loader timeout clears the loading flag and leaves the screen, the birthday flag and the pending jumps alone. */
  lemma LoaderTimeoutOnlyLoading(s: AppState)
    requires s.isLoading
    ensures !Step(s, LoaderTimeout).isLoading
    ensures Step(s, LoaderTimeout).currentScreen == s.currentScreen
    ensures Step(s, LoaderTimeout).isBirthdayOver == s.isBirthdayOver
    ensures Step(s, LoaderTimeout).pendingJumps == s.pendingJumps
  {
  }

  /** Once over, the birthday stays over: no event clears the flag. */
  lemma {:induction false} BirthdayOverMonotone(s: AppState, es: seq<Event>)
    requires s.isBirthdayOver
    ensures Run(s, es).isBirthdayOver
    decreases |es|
  {
    if |es| > 0 {
      BirthdayOverMonotone(Step(s, es[0]), es[1..]);
    }
  }

  /** Once the loader is gone it never returns. */
  lemma {:induction false} LoadingMonotone(s: AppState, es: seq<Event>)
    requires !s.isLoading
    ensures !Run(s, es).isLoading
    decreases |es|
  {
    if |es| > 0 {
      LoadingMonotone(Step(s, es[0]), es[1..]);
    }
  }

  /** The auto-skip effect moves a finished birthday off screen 0 to screen 1 and changes nothing else. */
  lemma AutoSkipLeavesScreenZero(s: AppState)
    requires s.isBirthdayOver && s.currentScreen == 0
    ensures Step(s, AutoSkip) == s.(currentScreen := 1)
  {
  }

  /** The auto-skip effect changes nothing unless the birthday is over and screen 0 is current. */
  lemma AutoSkipOtherwiseIdle(s: AppState)
    requires Inv(s)
    requires !(s.isBirthdayOver && s.currentScreen == 0)
    ensures Step(s, AutoSkip) == s
  {
  }

  /** Once loaded, screen 0 shows the countdown exactly when the birthday is not over. */
  lemma ScreenZeroView(s: AppState)
    requires !s.isLoading && s.currentScreen == 0
    ensures Rendered(s) == CountdownView <==> !s.isBirthdayOver
    ensures Rendered(s) == Celebration <==> s.isBirthdayOver
  {
  }

  /** Each "next" target is absolute: celebration to 1, happy birthday to 2, gallery to 3. */
  lemma NextTargets(s: AppState)
    requires Inv(s) && !s.isLoading
    ensures s.currentScreen == 0 && s.isBirthdayOver ==> Step(s, Next).currentScreen == 1
    ensures s.currentScreen == 0 && !s.isBirthdayOver ==> Step(s, Next) == s
    ensures s.currentScreen == 1 ==> Step(s, Next).currentScreen == 2
    ensures s.currentScreen == 2 ==> Step(s, Next).currentScreen == 3
    ensures s.currentScreen == 3 ==> Step(s, Next) == s
  {
  }

  /** Nothing moves the page off the letter screen except a pending jump timeout. */
  lemma OnlyJumpLeavesLetter(s: AppState, e: Event)
    requires s.currentScreen == LastScreen
    requires Step(s, e).currentScreen != LastScreen
    ensures e == JumpTimeout && s.pendingJumps > 0
    ensures Step(s, e).currentScreen == 1
  {
  }

  /**
   Each call of the completion handler by a countdown that is or has been on
   screen marks the birthday over and schedules exactly one more jump.
   */
  lemma CountdownCompleteSchedulesJump(s: AppState)
    requires Rendered(s) == CountdownView || s.countdownMounted
    ensures Step(s, CountdownComplete).isBirthdayOver
    ensures Step(s, CountdownComplete).pendingJumps == s.pendingJumps + 1
    ensures Step(s, CountdownComplete).currentScreen == s.currentScreen
  {
  }

  /**
   The completion handler is not guarded: a countdown that calls it twice
   leaves two jumps pending.
   */
  lemma TwoJumpsPending()
    ensures Run(Init(0, 1), [LoaderTimeout, CountdownComplete, CountdownComplete]).pendingJumps == 2
  {
  }

  /**
   The screen index is not monotone: after the countdown completes, the
   user can reach the letter within the one-second delay, and the jump then
   moves the page back to screen 1.
   */
  lemma JumpBackFromLetter()
    ensures var s0 := Init(0, 1);
            var trace := [LoaderTimeout, CountdownComplete, AutoSkip, Next, Next];
            && Run(s0, trace).currentScreen == LastScreen
            && Run(s0, trace + [JumpTimeout]).currentScreen == 1
  {
    var s0 := Init(0, 1);
    var s1 := Step(s0, LoaderTimeout);
    var s2 := Step(s1, CountdownComplete);
    var s3 := Step(s2, AutoSkip);
    var s4 := Step(s3, Next);
    var s5 := Step(s4, Next);
    assert s5.currentScreen == 3 && s5.pendingJumps == 1;
    RunSnoc(s0, [LoaderTimeout, CountdownComplete, AutoSkip, Next, Next], JumpTimeout);
  }

  lemma {:induction false} RunSnoc(s: AppState, es: seq<Event>, e: Event)
    ensures Run(s, es + [e]) == Step(Run(s, es), e)
    decreases |es|
  {
    if |es| == 0 {
      assert es + [e] == [e];
    } else {
      assert (es + [e])[1..] == es[1..] + [e];
      RunSnoc(Step(s, es[0]), es[1..], e);
    }
  }
}
