/**
 * The application shell (src/App.tsx): the history of saved sessions, the
 * "Start New Workout" and repeat buttons of the home view, and the hand-off
 * between the home view and the workout screen. The session id and timestamp,
 * which the source takes from `crypto.randomUUID` and `Date`, are parameters.
 */
module App {
  import opened Types
  import opened WorkoutStore
  import opened Selection
  import opened ExerciseDisplay

  /** `saveSession`: the new session goes in front of the history, which is kept newest first. */
  function SaveSession(sessions: seq<Session>, id: string, createdAt: string,
                       exercises: seq<Exercise>, rating: Option<int>, notes: Option<string>): (r: seq<Session>)
    ensures |r| == |sessions| + 1
    ensures r[0].exercises == exercises && r[0].rating == rating && r[0].notes == notes
    ensures r[0].id == id && r[0].createdAt == createdAt
    ensures forall i :: 0 <= i < |sessions| ==> r[i + 1] == sessions[i]
  {
    [Session(id, createdAt, exercises, rating, notes)] + sessions
  }

  /** The repeat button of a history entry: start a workout on that session's list, unchanged. */
  function RepeatSession(session: Session): (r: WorkoutState)
    ensures r.exercises == session.exercises && r.currentExercise == 0
    ensures r.isActive && r.isGettingReady && !r.isResting && !r.isPaused
  {
    StartWorkout(session.exercises)
  }

  /** The whole application: the store's workout, the screen's own state and the history. */
  datatype AppState = AppState(workout: WorkoutState, local: Local, sessions: seq<Session>)

  /** The application as first rendered, with the history it loaded. */
  function Launch(sessions: seq<Session>): (a: AppState)
    ensures !a.workout.isActive && a.sessions == sessions
    ensures a.workout.exercises == [] && a.local == FreshLocal
  {
    AppState(Initial, FreshLocal, sessions)
  }

  /**
   * What the user can do: in the home view start a new workout (with the
   * draws of its shuffles) or repeat the `index`-th history entry; on the
   * workout screen, any screen input.
   */
  datatype Action = StartNew(draws: SelectionDraws) | Repeat(index: nat) | Screen(input: Input)

  /**
   * One action. The workout screen is shown while the workout is active and
   * the home view otherwise, so home actions do nothing during a workout and
   * screen inputs do nothing outside one. A save from the screen is added to
   * the history with the given id and timestamp.
   */
  function Step(a: AppState, catalog: seq<Exercise>, action: Action, id: string, createdAt: string): (r: AppState)
    ensures a.workout.isActive && !action.Screen? ==> r == a
    ensures !a.workout.isActive && action.Screen? ==> r == a
    ensures |r.sessions| == |a.sessions| || |r.sessions| == |a.sessions| + 1
    ensures |r.sessions| == |a.sessions| + 1 ==> r.sessions[1..] == a.sessions && !r.workout.isActive
  {
    if a.workout.isActive then
      match action
      case Screen(input) =>
        var reaction := Handle(a.workout, a.local, input);
        var sessions :=
          if reaction.saved.Some? then
            var c := reaction.saved.value;
            SaveSession(a.sessions, id, createdAt, c.exercises, Some(c.rating), Some(c.notes))
          else a.sessions;
        AppState(reaction.workout, reaction.local, sessions)
      case _ => a
    else
      match action
      case StartNew(draws) => a.(workout := StartNewWorkout(catalog, draws), local := FreshLocal)
      case Repeat(i) => if i < |a.sessions| then a.(workout := RepeatSession(a.sessions[i]), local := FreshLocal) else a
      case Screen(_) => a
  }

  // ---------------------------------------------------------------------------
  // Properties of the application.
  // ---------------------------------------------------------------------------

  /** Saving keeps every earlier session, in order, behind the new one. */
  lemma SaveKeepsHistory(sessions: seq<Session>, id: string, createdAt: string,
                         exercises: seq<Exercise>, rating: Option<int>, notes: Option<string>)
    ensures SaveSession(sessions, id, createdAt, exercises, rating, notes)[1..] == sessions
    ensures forall s :: s in sessions ==> s in SaveSession(sessions, id, createdAt, exercises, rating, notes)
  {
    var r := SaveSession(sessions, id, createdAt, exercises, rating, notes);
    assert r[1..] == sessions;
  }

  /**
   * Saving a list and then repeating the newest history entry starts a workout
   * on exactly that list: the same exercises in the same order.
   */
  lemma SaveThenRepeat(sessions: seq<Session>, id: string, createdAt: string,
                       exercises: seq<Exercise>, rating: Option<int>, notes: Option<string>)
    ensures RepeatSession(SaveSession(sessions, id, createdAt, exercises, rating, notes)[0]) == StartWorkout(exercises)
  {
  }

  /** What every reachable application state satisfies. */
  predicate AppOk(a: AppState) {
    ScreenOk(a.workout, a.local) && (!a.workout.isActive ==> a.local == FreshLocal)
  }

  /** The application starts consistent. */
  lemma LaunchOk(sessions: seq<Session>)
    ensures AppOk(Launch(sessions))
  {
  }

  /** Every action keeps the application consistent. */
  lemma StepPreservesAppOk(a: AppState, catalog: seq<Exercise>, action: Action, id: string, createdAt: string)
    requires AppOk(a)
    ensures AppOk(Step(a, catalog, action, id, createdAt))
  {
    if a.workout.isActive && action.Screen? {
      HandlePreservesScreenOk(a.workout, a.local, action.input);
    }
  }

  /**
   * A finished workout round-trips through the history: saving from the rating
   * form records the list, rating and notes as the newest session, returns to
   * the home view, and repeating that session starts the same list again.
   */
  lemma CompleteThenRepeat(a: AppState, catalog: seq<Exercise>, id: string, createdAt: string, id2: string, createdAt2: string)
    requires a.workout.isActive && a.local.showRating
    ensures var saved := Step(a, catalog, Screen(Click(SaveButton)), id, createdAt);
            && saved.sessions == [Session(id, createdAt, a.workout.exercises, Some(a.local.rating), Some(a.local.notes))] + a.sessions
            && !saved.workout.isActive
            && Step(saved, catalog, Repeat(0), id2, createdAt2).workout == StartWorkout(a.workout.exercises)
  {
    SaveThenReset(a.workout, a.local);
  }

  /** The history changes only by a save from the rating form. */
  lemma HistoryGrowsOnlyBySave(a: AppState, catalog: seq<Exercise>, action: Action, id: string, createdAt: string)
    ensures Step(a, catalog, action, id, createdAt).sessions != a.sessions ==>
              a.workout.isActive && a.local.showRating && action == Screen(Click(SaveButton))
  {
  }
}
