/**
 * The workout screen (src/components/ExerciseDisplay.tsx): which view it
 * shows, which controls each view offers, and what every timer firing, click
 * and notes edit does to the workout and to the screen's own state.
 */
module ExerciseDisplay {
  import opened Types
  import opened WorkoutStore
  import opened Timer

  /** The screen's own state: the chosen rating, the notes text and whether the rating form is open. */
  datatype Local = Local(rating: int, notes: string, showRating: bool)

  /** The state the screen is mounted with: no rating, empty notes, form closed. */
  const FreshLocal: Local := Local(0, "", false)

  /** The four things the screen can show. */
  datatype View = Hidden | ReadyView | ExerciseView | RatingView

  /** The rating form wins over everything; an inactive workout shows nothing; then the getting-ready view. */
  function ViewOf(w: WorkoutState, l: Local): (v: View)
    ensures v == RatingView <==> l.showRating
    ensures v == Hidden <==> !l.showRating && !w.isActive
    ensures v == ReadyView <==> !l.showRating && w.isActive && w.isGettingReady
    ensures v == ExerciseView <==> !l.showRating && w.isActive && !w.isGettingReady
  {
    if l.showRating then RatingView
    else if !w.isActive then Hidden
    else if w.isGettingReady then ReadyView
    else ExerciseView
  }

  /** The screen's buttons and its notes field. */
  datatype Control =
    | PauseButton
    | ResumeButton
    | SkipButton
    | StopButton
    | StarButton(value: int)
    | SaveButton

  /** The five star buttons carry the values 1 to 5. */
  predicate IsStar(value: int) {
    1 <= value <= 5
  }

  /**
   * The controls on show. The exercise view has pause or resume according to
   * the pause flag, skip only during an exercise period below the last index,
   * and stop; the rating form has the five stars and save.
   */
  predicate Offered(w: WorkoutState, l: Local, c: Control): (on: bool)
    ensures on ==> ViewOf(w, l) == ExerciseView || ViewOf(w, l) == RatingView
    ensures on && (c == SaveButton || c.StarButton?) ==> l.showRating
    ensures on && c == SkipButton ==> w.isActive && !w.isResting && w.currentExercise + 1 < |w.exercises|
  {
    match ViewOf(w, l)
    case ExerciseView =>
      (match c
       case PauseButton => !w.isPaused
       case ResumeButton => w.isPaused
       case SkipButton => !IsLastExercise(w) && !w.isResting
       case StopButton => true
       case _ => false)
    case RatingView => (c.StarButton? && IsStar(c.value)) || c == SaveButton
    case _ => false
  }

  /** What can happen to the screen: the interval fires, a control is clicked, the notes are edited. */
  datatype Input = TimerFired | Click(control: Control) | EditNotes(text: string)

  /** The arguments of `onComplete`: the workout's list, the rating and the notes. */
  datatype Completion = Completion(exercises: seq<Exercise>, rating: int, notes: string)

  /** The workout and screen state after an input, and the completion handed to the application, if any. */
  datatype Reaction = Reaction(workout: WorkoutState, local: Local, saved: Option<Completion>)

  /**
   * One input. The timer is mounted only in the getting-ready and exercise
   * views: completing in the first starts the exercises, completing in the
   * second opens the rating form. A click on a control that is not on show
   * does nothing. Saving hands over the list, rating and notes and stops the
   * workout, which unmounts the screen, so the next mount starts afresh.
   */
  function Handle(w: WorkoutState, l: Local, input: Input): (r: Reaction)
    ensures r.saved.Some? <==> input == Click(SaveButton) && l.showRating
    ensures r.saved.Some? ==> r.saved.value == Completion(w.exercises, l.rating, l.notes)
    ensures r.saved.Some? ==> r.workout == Initial && r.local == FreshLocal
    ensures l.showRating && r.saved.None? ==> r.workout == w && r.local.showRating
    ensures ViewOf(w, l) == Hidden ==> r == Reaction(w, l, None)
  {
    match input
    case TimerFired =>
      var v := ViewOf(w, l);
      if v == ReadyView then
        var t := Tick(w);
        Reaction(if t.completed then StartExercises(w) else t.state, l, None)
      else if v == ExerciseView then
        var t := Tick(w);
        if t.completed then Reaction(w, l.(showRating := true), None)
        else Reaction(t.state, l, None)
      else Reaction(w, l, None)
    case EditNotes(text) =>
      if l.showRating then Reaction(w, l.(notes := text), None) else Reaction(w, l, None)
    case Click(c) =>
      if !Offered(w, l, c) then Reaction(w, l, None)
      else
        match c
        case PauseButton => Reaction(PauseWorkout(w), l, None)
        case ResumeButton => Reaction(ResumeWorkout(w), l, None)
        case SkipButton => Reaction(SkipExercise(w), l, None)
        case StopButton => Reaction(w, l.(showRating := true), None)
        case StarButton(value) => Reaction(w, l.(rating := value), None)
        case SaveButton => Reaction(StopWorkout(w), FreshLocal, Some(Completion(w.exercises, l.rating, l.notes)))
  }

  // ---------------------------------------------------------------------------
  // Properties of the screen.
  // ---------------------------------------------------------------------------

  /** The exercise view shows exactly one of pause and resume: pause when running, resume when paused. */
  lemma ExactlyOneOfPauseResume(w: WorkoutState, l: Local)
    requires ViewOf(w, l) == ExerciseView
    ensures Offered(w, l, PauseButton) != Offered(w, l, ResumeButton)
    ensures Offered(w, l, PauseButton) <==> !w.isPaused
  {
  }

  /** Pause and resume clicks on show flip the pause flag and change nothing else. */
  lemma PauseResumeClicks(w: WorkoutState, l: Local, c: Control)
    requires c == PauseButton || c == ResumeButton
    requires Offered(w, l, c)
    ensures Handle(w, l, Click(c)).workout == w.(isPaused := !w.isPaused)
    ensures Handle(w, l, Click(c)).local == l
  {
  }

  /**
   * Skip is on show exactly during an exercise period below the last index, so
   * a skip click always moves strictly forward, into range and into a full
   * exercise period, and never hits the store's stay-at-last branch.
   */
  lemma SkipAdvances(w: WorkoutState, l: Local)
    requires ViewOf(w, l) == ExerciseView
    ensures Offered(w, l, SkipButton) <==> !w.isResting && w.currentExercise < |w.exercises| - 1
    ensures Offered(w, l, SkipButton) ==>
              var r := Handle(w, l, Click(SkipButton));
              && r.workout == NextExercise(w)
              && r.workout.currentExercise == w.currentExercise + 1 < |w.exercises|
              && r.local == l
  {
    if Offered(w, l, SkipButton) {
      SkipBelowLastIsNext(w);
    }
  }

  /** Stop only opens the rating form: the workout keeps running state, index and countdown. */
  lemma StopOpensRating(w: WorkoutState, l: Local)
    requires ViewOf(w, l) == ExerciseView
    ensures var r := Handle(w, l, Click(StopButton));
            && r.workout == w && r.local == l.(showRating := true)
            && ViewOf(r.workout, r.local) == RatingView && r.saved.None?
  {
  }

  /**
   * In the exercise view the timer's completion does the same as stop: it
   * opens the rating form with the workout untouched. Every other firing is a
   * plain tick.
   */
  lemma ExerciseCompletionOpensRating(w: WorkoutState, l: Local)
    requires ViewOf(w, l) == ExerciseView
    ensures Finishing(w) ==> Handle(w, l, TimerFired) == Handle(w, l, Click(StopButton))
    ensures !Finishing(w) ==> Handle(w, l, TimerFired) == Reaction(Tick(w).state, l, None)
  {
  }

  /**
   * The getting-ready view gives way to the exercise view exactly when the
   * timer completes, which needs the countdown at zero while resting at the
   * last index; then the exercise view starts with a full 40-second period.
   */
  lemma ReadyExitOnlyAtRestOfLast(w: WorkoutState, l: Local)
    requires ViewOf(w, l) == ReadyView
    ensures var r := Handle(w, l, TimerFired);
            ViewOf(r.workout, r.local) == ExerciseView <==> Finishing(w)
    ensures var r := Handle(w, l, TimerFired);
            ViewOf(r.workout, r.local) == ExerciseView ==>
              r.workout == w.(isGettingReady := false, timeRemaining := ExerciseSeconds)
  {
  }

  /** No control is on show in the getting-ready view, so clicks there do nothing. */
  lemma ReadyViewHasNoControls(w: WorkoutState, l: Local, c: Control)
    requires ViewOf(w, l) == ReadyView
    ensures !Offered(w, l, c)
    ensures Handle(w, l, Click(c)) == Reaction(w, l, None)
  {
  }

  /** Saving hands over exactly what was shown and chosen, then leaves the screen blank and the store at its baseline. */
  lemma SaveThenReset(w: WorkoutState, l: Local)
    requires ViewOf(w, l) == RatingView
    ensures var r := Handle(w, l, Click(SaveButton));
            && r.saved == Some(Completion(w.exercises, l.rating, l.notes))
            && r.workout == Initial && r.local == FreshLocal
            && ViewOf(r.workout, r.local) == Hidden
  {
  }

  /** While the rating form is open the workout is frozen: only save changes it. */
  lemma RatingViewFreezesWorkout(w: WorkoutState, l: Local, input: Input)
    requires ViewOf(w, l) == RatingView && input != Click(SaveButton)
    ensures Handle(w, l, input).workout == w
    ensures ViewOf(Handle(w, l, input).workout, Handle(w, l, input).local) == RatingView
  {
  }

  /** The rating changes only by a click on a star of the open rating form, and then to that star's value. */
  lemma RatingOnlyFromStars(w: WorkoutState, l: Local, input: Input)
    ensures var r := Handle(w, l, input);
            r.saved.None? && r.local.rating != l.rating ==>
              l.showRating && input.Click? && input.control.StarButton? &&
              IsStar(r.local.rating) && r.local.rating == input.control.value
  {
  }

  /** The rating is 0 until a star is clicked and one of 1 to 5 after. */
  predicate RatingOk(l: Local) {
    l.rating == 0 || IsStar(l.rating)
  }

  /**
   * What holds of the screen and the workout together: the workout is
   * wellformed, the rating is 0 or a star value, and the rating form is open
   * only over an active workout that has left the getting-ready view.
   */
  predicate ScreenOk(w: WorkoutState, l: Local) {
    Wellformed(w) && RatingOk(l) && (l.showRating ==> w.isActive && !w.isGettingReady)
  }

  /** Every input keeps the screen and the workout consistent. */
  lemma HandlePreservesScreenOk(w: WorkoutState, l: Local, input: Input)
    requires ScreenOk(w, l)
    ensures ScreenOk(Handle(w, l, input).workout, Handle(w, l, input).local)
  {
  }

  // ---------------------------------------------------------------------------
  // A whole workout as the screen shows it.
  // ---------------------------------------------------------------------------

  /** The workout and screen state after the interval fires `n` times with no other input. */
  function Firings(w: WorkoutState, l: Local, n: nat): (r: (WorkoutState, Local))
    ensures SameSession(w, r.0)
    decreases n
  {
    if n == 0 then (w, l)
    else
      var r := Handle(w, l, TimerFired);
      Firings(r.workout, r.local, n - 1)
  }

  /** Firing `a` and then `b` times is firing `a + b` times. */
  lemma {:induction false} FiringsAdditive(w: WorkoutState, l: Local, a: nat, b: nat)
    ensures Firings(w, l, a + b) == Firings(Firings(w, l, a).0, Firings(w, l, a).1, b)
    decreases a
  {
    if a > 0 {
      var r := Handle(w, l, TimerFired);
      FiringsAdditive(r.workout, r.local, a - 1, b);
    }
  }

  /**
   * While the timer does not complete, the getting-ready and exercise views
   * just pass each firing to the timer and stay where they are.
   */
  lemma {:induction false} ScreenFollowsTimer(w: WorkoutState, l: Local, n: nat)
    requires ViewOf(w, l) == ReadyView || ViewOf(w, l) == ExerciseView
    requires NoCompletionWithin(w, n)
    ensures Firings(w, l, n) == (Run(w, n), l)
    decreases n
  {
    if n > 0 {
      assert !Tick(Run(w, 0)).completed;
      var t := Tick(w).state;
      assert Handle(w, l, TimerFired) == Reaction(t, l, None);
      forall j: nat | j < n - 1
        ensures !Tick(Run(t, j)).completed
      {
        assert Run(w, j + 1) == Run(t, j);
      }
      ScreenFollowsTimer(t, l, n - 1);
    }
  }

  /**
   * A workout on a non-empty list, started fresh, stays on the getting-ready
   * view through every exercise and rest; the firing after the last rest
   * switches to the exercise view, still resting at the last index, with a
   * 40-second countdown; 41 firings later the rating form opens. So the
   * rating form first appears after `41 + 62 * (n - 1) + 42` firings.
   */
  lemma ScreenWholeWorkout(xs: seq<Exercise>)
    requires |xs| >= 1
    ensures var n := TicksToCompletion(|xs|);
            var last := StartWorkout(xs).(currentExercise := |xs| - 1, isResting := true);
            && Firings(StartWorkout(xs), FreshLocal, n + 1)
                 == (last.(isGettingReady := false, timeRemaining := ExerciseSeconds), FreshLocal)
            && Firings(StartWorkout(xs), FreshLocal, n + 42)
                 == (last.(isGettingReady := false, timeRemaining := 0), FreshLocal.(showRating := true))
  {
    var n := TicksToCompletion(|xs|);
    var s0 := StartWorkout(xs);
    var last := s0.(currentExercise := |xs| - 1, isResting := true);
    WholeWorkout(xs);
    ScreenFollowsTimer(s0, FreshLocal, n);
    var sN := Run(s0, n);
    assert sN == last.(timeRemaining := 0);
    var e0 := last.(isGettingReady := false, timeRemaining := ExerciseSeconds);
    assert Handle(sN, FreshLocal, TimerFired) == Reaction(e0, FreshLocal, None);
    assert Firings(sN, FreshLocal, 1) == (e0, FreshLocal);
    FiringsAdditive(s0, FreshLocal, n, 1);
    Countdown(e0, 40);
    ScreenFollowsTimer(e0, FreshLocal, 40);
    var e1 := e0.(timeRemaining := 0);
    assert Handle(e1, FreshLocal, TimerFired) == Reaction(e1, FreshLocal.(showRating := true), None);
    assert Firings(e1, FreshLocal, 1) == (e1, FreshLocal.(showRating := true));
    FiringsAdditive(e0, FreshLocal, 40, 1);
    FiringsAdditive(s0, FreshLocal, n + 1, 41);
  }
}
