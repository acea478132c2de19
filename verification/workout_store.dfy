/**
 * The workout store (src/store/workoutStore.ts): the inactive baseline and the
 * nine commands, each a pure map from one `WorkoutState` to the next.
 */
module WorkoutStore {
  import opened Types

  /** Length of the getting-ready countdown. */
  const ReadySeconds: int := 20
  /** Length of one exercise period. */
  const ExerciseSeconds: int := 40
  /** Length of one rest period. */
  const RestSeconds: int := 20

  /** The inactive baseline every stop returns to. */
  const Initial: WorkoutState := WorkoutState(
    currentExercise := 0,
    isResting := false,
    timeRemaining := 40,
    exercises := [],
    isActive := false,
    isPaused := false,
    isGettingReady := false)

  /** The last-exercise test shared by `skipExercise`, the timer and the exercise screen. */
  predicate IsLastExercise(s: WorkoutState): (last: bool)
    ensures |s.exercises| == 0 ==> last
    ensures s.currentExercise < |s.exercises| ==> (last <==> s.currentExercise == |s.exercises| - 1)
  {
    s.currentExercise >= |s.exercises| - 1
  }

  /** The index points at an exercise, or the list is empty and the index is 0. */
  predicate IndexInRange(s: WorkoutState) {
    s.currentExercise < |s.exercises| || s.currentExercise == 0
  }

  /** What every state the application reaches satisfies. */
  predicate Wellformed(s: WorkoutState) {
    IndexInRange(s) && 0 <= s.timeRemaining <= ExerciseSeconds
  }

  /** `s` and `r` belong to the same session: list and the active and paused flags agree. */
  predicate SameSession(s: WorkoutState, r: WorkoutState) {
    r.exercises == s.exercises && r.isActive == s.isActive && r.isPaused == s.isPaused
  }

  /** startWorkout: a fresh session on `xs`, whatever was running before. */
  function StartWorkout(xs: seq<Exercise>): (r: WorkoutState)
    ensures r.exercises == xs && r.currentExercise == 0
    ensures r.isActive && r.isGettingReady && !r.isResting && !r.isPaused
    ensures r.timeRemaining == ReadySeconds
    ensures Wellformed(r)
  {
    Initial.(exercises := xs, isActive := true, isGettingReady := true, timeRemaining := ReadySeconds)
  }

  /** startExercises: leave the getting-ready phase with a full exercise period. */
  function StartExercises(s: WorkoutState): (r: WorkoutState)
    ensures !r.isGettingReady && r.timeRemaining == ExerciseSeconds
    ensures SameSession(s, r) && r.currentExercise == s.currentExercise && r.isResting == s.isResting
    ensures IndexInRange(s) ==> Wellformed(r)
  {
    s.(isGettingReady := false, timeRemaining := ExerciseSeconds)
  }

  /** pauseWorkout: raise the pause flag and nothing else. */
  function PauseWorkout(s: WorkoutState): (r: WorkoutState)
    ensures r.isPaused
    ensures r.(isPaused := s.isPaused) == s
  {
    s.(isPaused := true)
  }

  /** resumeWorkout: lower the pause flag and nothing else. */
  function ResumeWorkout(s: WorkoutState): (r: WorkoutState)
    ensures !r.isPaused
    ensures r.(isPaused := s.isPaused) == s
  {
    s.(isPaused := false)
  }

  /** stopWorkout: back to the baseline from any state. */
  function StopWorkout(s: WorkoutState): (r: WorkoutState)
    ensures !r.isActive && !r.isPaused && !r.isGettingReady && !r.isResting
    ensures r.exercises == [] && r.currentExercise == 0 && r.timeRemaining == ExerciseSeconds
    ensures Wellformed(r)
  {
    Initial
  }

  /** nextExercise: move one index forward into a full exercise period, with no bound check. */
  function NextExercise(s: WorkoutState): (r: WorkoutState)
    ensures r.currentExercise == s.currentExercise + 1
    ensures !r.isResting && r.timeRemaining == ExerciseSeconds
    ensures SameSession(s, r) && r.isGettingReady == s.isGettingReady
  {
    s.(currentExercise := s.currentExercise + 1, isResting := false, timeRemaining := ExerciseSeconds)
  }

  /**
   * skipExercise: advance unless already at the last index; in both cases the
   * rest flag is cleared and a full exercise period starts.
   */
  function SkipExercise(s: WorkoutState): (r: WorkoutState)
    ensures r.currentExercise == s.currentExercise + 1 <==> s.currentExercise < |s.exercises| - 1
    ensures r.currentExercise == s.currentExercise <==> IsLastExercise(s)
    ensures !r.isResting && r.timeRemaining == ExerciseSeconds
    ensures SameSession(s, r) && r.isGettingReady == s.isGettingReady
    ensures IndexInRange(s) ==> Wellformed(r)
  {
    var last := s.currentExercise >= |s.exercises| - 1;
    s.(currentExercise := if last then s.currentExercise else s.currentExercise + 1,
       isResting := false,
       timeRemaining := ExerciseSeconds)
  }

  /** setTimeRemaining: overwrite the countdown and nothing else. */
  function SetTimeRemaining(s: WorkoutState, time: int): (r: WorkoutState)
    ensures r.timeRemaining == time
    ensures r.(timeRemaining := s.timeRemaining) == s
  {
    s.(timeRemaining := time)
  }

  /** toggleRest: flip the rest flag; entering rest gives a rest period, leaving it an exercise period. */
  function ToggleRest(s: WorkoutState): (r: WorkoutState)
    ensures r.isResting == !s.isResting
    ensures r.timeRemaining == if r.isResting then RestSeconds else ExerciseSeconds
    ensures SameSession(s, r) && r.currentExercise == s.currentExercise && r.isGettingReady == s.isGettingReady
    ensures IndexInRange(s) ==> Wellformed(r)
  {
    s.(isResting := !s.isResting, timeRemaining := if s.isResting then ExerciseSeconds else RestSeconds)
  }

  /** The store's commands as one type, so that callers can dispatch them. */
  datatype Command =
    | Start(xs: seq<Exercise>)
    | BeginExercises
    | Pause
    | Resume
    | Stop
    | Next
    | Skip
    | SetTime(time: int)
    | Toggle

  /** Run one command. */
  function Apply(s: WorkoutState, c: Command): (r: WorkoutState)
    ensures r.exercises == if c.Start? then c.xs else if c.Stop? then [] else s.exercises
    ensures c.Start? || c.Stop? || r.isActive == s.isActive
  {
    match c
    case Start(xs) => StartWorkout(xs)
    case BeginExercises => StartExercises(s)
    case Pause => PauseWorkout(s)
    case Resume => ResumeWorkout(s)
    case Stop => StopWorkout(s)
    case Next => NextExercise(s)
    case Skip => SkipExercise(s)
    case SetTime(t) => SetTimeRemaining(s, t)
    case Toggle => ToggleRest(s)
  }

  /** Starting a workout discards whatever state came before. */
  lemma StartIgnoresPriorState(s: WorkoutState, t: WorkoutState, xs: seq<Exercise>)
    ensures Apply(s, Start(xs)) == Apply(t, Start(xs))
    ensures Apply(s, Start(xs)).exercises == xs
  {
  }

  /** Stopping from any state gives exactly the baseline, after any earlier command. */
  lemma StopIsBaseline(s: WorkoutState, c: Command)
    ensures Apply(s, Stop) == Initial
    ensures Apply(Apply(s, c), Stop) == Apply(s, Stop)
  {
  }

  /** Pause and resume are idempotent, and resume undoes pause exactly when the state was not paused. */
  lemma PauseResumeLaws(s: WorkoutState)
    ensures PauseWorkout(PauseWorkout(s)) == PauseWorkout(s)
    ensures ResumeWorkout(ResumeWorkout(s)) == ResumeWorkout(s)
    ensures ResumeWorkout(PauseWorkout(s)) == s <==> !s.isPaused
    ensures PauseWorkout(ResumeWorkout(s)) == s <==> s.isPaused
  {
    if ResumeWorkout(PauseWorkout(s)) == s {
      assert ResumeWorkout(PauseWorkout(s)).isPaused == s.isPaused;
    }
    if PauseWorkout(ResumeWorkout(s)) == s {
      assert PauseWorkout(ResumeWorkout(s)).isPaused == s.isPaused;
    }
  }

  /**
   * Toggling rest twice restores the rest flag; it restores the whole state
   * exactly when the countdown already held the length of the current period.
   */
  lemma ToggleRestTwice(s: WorkoutState)
    ensures ToggleRest(ToggleRest(s)).isResting == s.isResting
    ensures ToggleRest(ToggleRest(s)) == s <==>
              s.timeRemaining == (if s.isResting then RestSeconds else ExerciseSeconds)
  {
    if ToggleRest(ToggleRest(s)) == s {
      assert ToggleRest(ToggleRest(s)).timeRemaining == s.timeRemaining;
    }
  }

  /** Skipping below the last index is the same as moving to the next exercise. */
  lemma SkipBelowLastIsNext(s: WorkoutState)
    requires s.currentExercise < |s.exercises| - 1
    ensures SkipExercise(s) == NextExercise(s)
  {
  }

  /**
   * Skipping at the last index keeps the index and starts a fresh exercise
   * period, so it leaves the state alone only when that period is already fresh.
   */
  lemma SkipAtLastOnlyResets(s: WorkoutState)
    requires IsLastExercise(s)
    ensures SkipExercise(s).currentExercise == s.currentExercise
    ensures SkipExercise(s) == s <==> !s.isResting && s.timeRemaining == ExerciseSeconds
  {
  }

  /** Moving to the next exercise stays in range exactly when the index was below the last. */
  lemma NextInRangeIff(s: WorkoutState)
    requires |s.exercises| > 0
    ensures IndexInRange(NextExercise(s)) <==> s.currentExercise < |s.exercises| - 1
  {
  }

  /** Setting the countdown twice keeps only the second value; setting it to itself changes nothing. */
  lemma SetTimeLaws(s: WorkoutState, a: int, b: int)
    ensures SetTimeRemaining(SetTimeRemaining(s, a), b) == SetTimeRemaining(s, b)
    ensures SetTimeRemaining(s, s.timeRemaining) == s
  {
  }

  /**
   * Every command keeps a wellformed state wellformed, except `nextExercise`
   * past the last index and `setTimeRemaining` outside 0..40, which the store
   * does not guard.
   */
  lemma CommandsPreserveWellformed(s: WorkoutState, c: Command)
    requires Wellformed(s)
    requires c.Next? ==> s.currentExercise < |s.exercises| - 1
    requires c.SetTime? ==> 0 <= c.time <= ExerciseSeconds
    ensures Wellformed(Apply(s, c))
  {
  }
}
