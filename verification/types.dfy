/**
 * The records shared by the workout store, the timer, the exercise screen and
 * the application shell (src/types.ts).
 */
module Types {

  /** An optional value, for the source's optional (`?`) fields and arguments. */
  datatype Option<T> = None | Some(value: T)

  /** One catalog entry. `id` is optional in the source; the catalog never sets it. */
  datatype Exercise = Exercise(
    id: Option<int>,
    title: string,
    instructions: string,
    categories: seq<string>,
    bodyPartFocus: seq<string>)

  /** A completed workout as kept in the history list. */
  datatype Session = Session(
    id: string,
    createdAt: string,
    exercises: seq<Exercise>,
    rating: Option<int>,
    notes: Option<string>)

  /**
   * The live workout snapshot. `currentExercise` is a natural number because
   * the store only ever sets it to 0 or increments it; `timeRemaining` is an
   * integer because `setTimeRemaining` accepts any number.
   */
  datatype WorkoutState = WorkoutState(
    currentExercise: nat,
    isResting: bool,
    timeRemaining: int,
    exercises: seq<Exercise>,
    isActive: bool,
    isPaused: bool,
    isGettingReady: bool)
}
